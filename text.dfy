/** String arithmetic shared by the model: JavaScript's one-character `split`,
    newline counting, UTF-16 lengths, 1-based line/column of the end of a prefix, decimal
    rendering of counters and ASCII lower-casing of tag names. */
module Text {

  /** Number of occurrences of `c` in `s`. */
  function Count(s: string, c: char): nat
  {
    if s == [] then 0 else Count(s[..|s| - 1], c) + (if s[|s| - 1] == c then 1 else 0)
  }

  /** JavaScript's `s.split(sep)` for a one-character separator: the pieces
      between separators, always at least one (`"".split("\n")` is `[""]`). */
  function Split(s: string, sep: char): (pieces: seq<string>)
    ensures |pieces| >= 1
  {
    if s == [] then [""]
    else
      var init := Split(s[..|s| - 1], sep);
      if s[|s| - 1] == sep then init + [""]
      else init[..|init| - 1] + [init[|init| - 1] + [s[|s| - 1]]]
  }

  /** `pieces.join(sep)`. */
  function Join(pieces: seq<string>, sep: char): string
  {
    if |pieces| == 0 then ""
    else if |pieces| == 1 then pieces[0]
    else Join(pieces[..|pieces| - 1], sep) + [sep] + pieces[|pieces| - 1]
  }

  /** Number of characters after the last `c` in `s` (all of `s` when it has none). */
  function TailLength(s: string, c: char): (t: nat)
    ensures t <= |s|
  {
    if s == [] then 0
    else if s[|s| - 1] == c then 0
    else TailLength(s[..|s| - 1], c) + 1
  }

  /** Splitting and joining again gives back the string. */
  lemma {:induction false} SplitJoin(s: string, sep: char)
    ensures Join(Split(s, sep), sep) == s
  {
    if s != [] {
      var init := s[..|s| - 1];
      var last := s[|s| - 1];
      SplitJoin(init, sep);
      var p := Split(init, sep);
      var n := |p|;
      if last == sep {
        assert Split(s, sep) == p + [""];
        assert (p + [""])[..n] == p;
        assert Join(p + [""], sep) == Join(p, sep) + [sep] + "";
        assert init + [last] == s;
      } else {
        var q := p[..n - 1] + [p[n - 1] + [last]];
        assert Split(s, sep) == q;
        assert q[..n - 1] == p[..n - 1];
        if n > 1 {
          assert Join(q, sep) == Join(p[..n - 1], sep) + [sep] + (p[n - 1] + [last]);
          assert Join(p, sep) == Join(p[..n - 1], sep) + [sep] + p[n - 1];
        }
        assert init + [last] == s;
      }
    }
  }

  /** There is one more piece than there are separators. */
  lemma {:induction false} SplitCount(s: string, sep: char)
    ensures |Split(s, sep)| == Count(s, sep) + 1
  {
    if s != [] {
      SplitCount(s[..|s| - 1], sep);
    }
  }

  /** The last piece is exactly the text after the last separator. */
  lemma {:induction false} SplitLast(s: string, sep: char)
    ensures Split(s, sep)[|Split(s, sep)| - 1] == s[|s| - TailLength(s, sep)..]
  {
    if s != [] && s[|s| - 1] != sep {
      var init := s[..|s| - 1];
      SplitLast(init, sep);
      var p := Split(init, sep);
      assert Split(s, sep) == p[..|p| - 1] + [p[|p| - 1] + [s[|s| - 1]]];
      assert TailLength(s, sep) == TailLength(init, sep) + 1;
      assert init[|init| - TailLength(init, sep)..] + [s[|s| - 1]] == s[|s| - TailLength(s, sep)..];
    }
  }

  /** The tail holds no `c` and is either all of `s` or follows a `c`. */
  lemma {:induction false} TailLengthMeaning(s: string, c: char)
    ensures c !in s[|s| - TailLength(s, c)..]
    ensures TailLength(s, c) == |s| || s[|s| - TailLength(s, c) - 1] == c
  {
    if s != [] && s[|s| - 1] != c {
      var init := s[..|s| - 1];
      TailLengthMeaning(init, c);
      assert s[|s| - TailLength(s, c)..] == init[|init| - TailLength(init, c)..] + [s[|s| - 1]];
      if TailLength(init, c) < |init| {
        assert s[|s| - TailLength(s, c) - 1] == init[|init| - TailLength(init, c) - 1];
      }
    }
  }

  /** 1-based line of the end of `prefix`: `prefix.split("\n").length`. */
  function LineOf(prefix: string): nat
  {
    |Split(prefix, '\n')|
  }

  /** 1-based column of the end of `prefix`: the last line's length, in
      UTF-16 code units, plus one. */
  function ColumnOf(prefix: string): nat
  {
    var lines := Split(prefix, '\n');
    Units(lines[|lines| - 1]) + 1
  }

  /** The line is the number of newlines plus one, the column one more than
      the length of the text after the last newline. */
  lemma LineColumnMeaning(prefix: string)
    ensures LineOf(prefix) == Count(prefix, '\n') + 1
    ensures ColumnOf(prefix) == Units(prefix[|prefix| - TailLength(prefix, '\n')..]) + 1
  {
    SplitCount(prefix, '\n');
    SplitLast(prefix, '\n');
    var lines := Split(prefix, '\n');
    assert lines[|lines| - 1] == prefix[|prefix| - TailLength(prefix, '\n')..];
  }

  /** JavaScript's `length`: UTF-16 code units, two for a character outside
      the Basic Multilingual Plane. */
  function Units(s: string): nat
  {
    if s == [] then 0 else Units(s[..|s| - 1]) + (if s[|s| - 1] as int >= 0x10000 then 2 else 1)
  }

  /** Code units add up over concatenation. */
  lemma {:induction false} UnitsConcat(a: string, b: string)
    ensures Units(a + b) == Units(a) + Units(b)
  {
    if b == [] {
      assert a + b == a;
    } else {
      var c := a + b;
      UnitsConcat(a, b[..|b| - 1]);
      assert c[..|c| - 1] == a + b[..|b| - 1];
      assert c[|c| - 1] == b[|b| - 1];
    }
  }

  /** A prefix is no longer in code units than the whole. */
  lemma UnitsGrow(a: string, b: string)
    requires a <= b
    ensures Units(a) <= Units(b)
  {
    UnitsConcat(a, b[|a|..]);
    assert a + b[|a|..] == b;
  }

  /** The longest prefix of `s` that is at most `n` code units long: `s` cut
      at code-unit offset `n`, an offset inside a surrogate pair rounded down
      and one past the end standing at the end. */
  function UnitPrefix(s: string, n: nat): (p: string)
    ensures p <= s && Units(p) <= n
    ensures p == s || Units(s[..|p| + 1]) > n
  {
    if Units(s) <= n then s
    else
      var p := UnitPrefix(s[..|s| - 1], n);
      assert s[..|s| - 1][..|p|] == s[..|p|];
      if p == s[..|s| - 1] then
        assert s[..|p| + 1] == s;
        p
      else
        assert s[..|s| - 1][..|p| + 1] == s[..|p| + 1];
        p
  }

  /** The decimal digit for `d`. */
  function Digit(d: nat): (c: char)
    requires d < 10
    ensures '0' <= c <= '9' && c as int - '0' as int == d
  {
    ('0' as int + d) as char
  }

  /** `String(n)` for a non-negative integer. */
  function Decimal(n: nat): (s: string)
    ensures |s| >= 1
    ensures forall k :: 0 <= k < |s| ==> '0' <= s[k] <= '9'
  {
    if n < 10 then [Digit(n)] else Decimal(n / 10) + [Digit(n % 10)]
  }

  /** Value of a string of decimal digits. */
  function DecimalValue(s: string): nat
  {
    if s == [] then 0
    else
      var c := s[|s| - 1];
      DecimalValue(s[..|s| - 1]) * 10 + (if '0' <= c <= '9' then c as int - '0' as int else 0)
  }

  /** Rendering a counter in decimal loses nothing. */
  lemma {:induction false} DecimalRoundTrip(n: nat)
    ensures DecimalValue(Decimal(n)) == n
  {
    if n >= 10 {
      DecimalRoundTrip(n / 10);
      var s := Decimal(n);
      assert s[..|s| - 1] == Decimal(n / 10);
      assert s[|s| - 1] == Digit(n % 10);
      assert DecimalValue(s) == (n / 10) * 10 + n % 10;
    }
  }

  /** `toLowerCase` of an HTML tag name, on ASCII letters. */
  function Lower(s: string): (r: string)
    ensures |r| == |s|
  {
    if s == [] then ""
    else
      var c := s[0];
      [if 'A' <= c <= 'Z' then (c as int + 32) as char else c] + Lower(s[1..])
  }
}
