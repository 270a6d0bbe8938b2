/** The clause-number iterator: a forward-only generator that numbers
    clauses by depth (`1`, `1.1`, `1.2`, `1.2.1`, `2`) and annexes with a
    letter at the top level (`A`, `A.1`, `B`). */
module ClauseNumbers {
  import opened Text

  /** The node being numbered: an `EMU-CLAUSE` or an `EMU-ANNEX`. */
  datatype ClauseKind = Clause | Annex

  /** One counter per depth of the current clause path, and whether annex
      numbering has begun. */
  datatype NumberingState = NumberingState(path: seq<nat>, inAnnex: bool)

  /** The transition taken by numbering a node whose ancestor chain has
      `depth` clauses. The depth never exceeds the current path: the tree is
      walked in pre-order, so every ancestor has already been numbered. */
  function Step(st: NumberingState, depth: nat, kind: ClauseKind): (next: NumberingState)
    requires depth <= |st.path|
    ensures |next.path| == depth + 1 && next.path[..depth] == st.path[..depth]
    ensures next.inAnnex <==> st.inAnnex || (depth == 0 && kind == Annex)
    ensures depth == 0 && kind == Annex && !st.inAnnex ==> next.path[0] == 1
    ensures !(depth == 0 && kind == Annex && !st.inAnnex) ==>
      next.path[depth] == (if depth < |st.path| then st.path[depth] else 0) + 1
  {
    if depth == 0 then
      if kind == Annex && !st.inAnnex then NumberingState([1], true)
      else NumberingState([(if |st.path| > 0 then st.path[0] else 0) + 1], st.inAnnex)
    else
      NumberingState(st.path[..depth] + [(if depth < |st.path| then st.path[depth] else 0) + 1], st.inAnnex)
  }

  /** The annex letter for top-level counter `n`: `A` for 1, `B` for 2, the
      character with code 64 + n; `?` for a code that is a surrogate or
      beyond U+10FFFF, which is no character. */
  function Letter(n: nat): string
  {
    var code := 64 + n;
    if code < 0xD800 || 0xE000 <= code < 0x11_0000 then [code as char] else "?"
  }

  /** The rendered pieces of a path: a letter on top in annex mode, decimals elsewhere. */
  function Segments(path: seq<nat>, inAnnex: bool): (segs: seq<string>)
    ensures |segs| == |path|
  {
    seq(|path|, i requires 0 <= i < |path| => if i == 0 && inAnnex then Letter(path[0]) else Decimal(path[i]))
  }

  /** The clause number of a state: its pieces joined with `.`. */
  function Render(st: NumberingState): string
  {
    Join(Segments(st.path, st.inAnnex), '.')
  }

  /** The stateful iterator the build walks the document with. */
  class ClauseNumberIterator {
    var path: seq<nat>
    var inAnnex: bool

    function State(): NumberingState
      reads this
    {
      NumberingState(path, inAnnex)
    }

    constructor ()
      ensures State() == NumberingState([], false)
    {
      path, inAnnex := [], false;
    }

    /** `next(ancestors, node)`: only the number of ancestors matters. */
    method Next<C>(ancestors: seq<C>, kind: ClauseKind) returns (number: string)
      requires |ancestors| <= |path|
      modifies this
      ensures State() == Step(old(State()), |ancestors|, kind)
      ensures number == Render(State())
    {
      var depth := |ancestors|;
      if depth == 0 {
        if kind == Annex && !inAnnex {
          inAnnex := true;
          path := [1];
        } else {
          path := [(if |path| > 0 then path[0] else 0) + 1];
        }
      } else {
        var n := if depth < |path| then path[depth] else 0;
        path := path[..depth] + [n + 1];
      }
      number := Join(Segments(path, inAnnex), '.');
    }
  }

  /** The stand-in for the ancestor clause objects passed by the test. */
  datatype MockClause = MockClause

  /** The sequence of numbers asserted by the clause-id test. */
  method GeneratingClauseIds() returns (ids: seq<string>)
    ensures ids == ["1", "1.1", "1.2", "1.2.1", "2", "A", "A.1", "A.2", "A.2.1", "B"]
  {
    var iter := new ClauseNumberIterator();
    var none: seq<MockClause> := [];
    var main := NumberFour(iter, Clause);
    assert "1" + ".1" == "1.1" && "1" + ".2" == "1.2" && "1" + ".2.1" == "1.2.1";
    var n4 := iter.Next(none, Clause);
    assert iter.path == [2] && !iter.inAnnex;
    assert n4 == "2" by { TestRenders(false); }
    var annex := NumberFour(iter, Annex);
    assert "A" + ".1" == "A.1" && "A" + ".2" == "A.2" && "A" + ".2.1" == "A.2.1";
    var n9 := iter.Next(none, Annex);
    assert iter.path == [2];
    assert n9 == "B" by { TestRenders(true); }
    ids := main + [n4] + annex + [n9];
  }

  /** The test's first top-level node of `kind`, its two children and a
      grandchild under the second child. */
  method NumberFour(iter: ClauseNumberIterator, kind: ClauseKind) returns (ids: seq<string>)
    requires iter.State() == if kind == Annex then NumberingState([2], false) else NumberingState([], false)
    modifies iter
    ensures iter.State() == NumberingState([1, 2, 1], kind == Annex)
    ensures var top := if kind == Annex then "A" else "1";
      ids == [top, top + ".1", top + ".2", top + ".2.1"]
  {
    var none: seq<MockClause>, one, two := [], [MockClause], [MockClause, MockClause];
    ghost var top := if kind == Annex then "A" else "1";
    var n0 := iter.Next(none, kind);
    assert iter.State() == NumberingState([1], kind == Annex);
    assert n0 == top by { TestRenders(kind == Annex); }
    var n1 := iter.Next(one, kind);
    assert iter.State() == NumberingState([1, 1], kind == Annex);
    assert n1 == top + ".1" by { TestRenders(kind == Annex); }
    var n2 := iter.Next(one, kind);
    assert iter.State() == NumberingState([1, 2], kind == Annex);
    assert n2 == top + ".2" by { TestRenders(kind == Annex); }
    var n3 := iter.Next(two, kind);
    assert iter.State() == NumberingState([1, 2, 1], kind == Annex);
    assert n3 == top + ".2.1" by { TestRenders(kind == Annex); }
    ids := [n0, n1, n2, n3];
  }

  /** A one-level path renders as its top counter alone. */
  lemma RenderTop(n: nat, inAnnex: bool)
    ensures Render(NumberingState([n], inAnnex)) == if inAnnex then Letter(n) else Decimal(n)
  {
    assert Segments([n], inAnnex) == [if inAnnex then Letter(n) else Decimal(n)];
  }

  /** The numbers of the states the clause-id test passes through, in either mode. */
  lemma TestRenders(inAnnex: bool)
    ensures var top := if inAnnex then "A" else "1";
      Render(NumberingState([1], inAnnex)) == top &&
      Render(NumberingState([1, 1], inAnnex)) == top + ".1" &&
      Render(NumberingState([1, 2], inAnnex)) == top + ".2" &&
      Render(NumberingState([1, 2, 1], inAnnex)) == top + ".2.1" &&
      Render(NumberingState([2], inAnnex)) == if inAnnex then "B" else "2"
  {
    var top := if inAnnex then "A" else "1";
    assert Decimal(1) == "1" && Decimal(2) == "2";
    assert Letter(1) == "A" && Letter(2) == "B";
    RenderTop(1, inAnnex);
    RenderTop(2, inAnnex);
    RenderChild([1], inAnnex, 1);
    assert [1] + [1] == [1, 1];
    RenderChild([1], inAnnex, 2);
    assert [1] + [2] == [1, 2];
    RenderChild([1, 2], inAnnex, 1);
    assert [1, 2] + [1] == [1, 2, 1];
    assert top + ".2" + ".1" == top + ".2.1";
  }

  /** Extending a path by one counter extends its number by `.` and that counter. */
  lemma RenderChild(path: seq<nat>, inAnnex: bool, n: nat)
    requires |path| >= 1
    ensures Render(NumberingState(path + [n], inAnnex)) == Render(NumberingState(path, inAnnex)) + "." + Decimal(n)
  {
    var segs := Segments(path + [n], inAnnex);
    assert segs[..|segs| - 1] == Segments(path, inAnnex);
  }

  /** A child is numbered under its parent's number: a child of a clause that
      already had children continues after the last one, a first child is `1`,
      and every level below the child is dropped. This holds in both modes, so
      annex children are decimal under the letter. */
  lemma ChildNumber(st: NumberingState, depth: nat, kind: ClauseKind)
    requires 0 < depth <= |st.path|
    ensures |Step(st, depth, kind).path| == depth + 1
    ensures Render(Step(st, depth, kind)) ==
      Render(NumberingState(st.path[..depth], st.inAnnex)) + "." +
      Decimal(if depth < |st.path| then st.path[depth] + 1 else 1)
  {
    var n := (if depth < |st.path| then st.path[depth] else 0) + 1;
    assert Step(st, depth, kind) == NumberingState(st.path[..depth] + [n], st.inAnnex);
    RenderChild(st.path[..depth], st.inAnnex, n);
  }

  /** A top-level clause increments only the top counter and drops every deeper level. */
  lemma TopLevelClause(st: NumberingState)
    requires |st.path| >= 1
    ensures Step(st, 0, Clause).path == [st.path[0] + 1]
    ensures Render(Step(st, 0, Clause)) == if st.inAnnex then Letter(st.path[0] + 1) else Decimal(st.path[0] + 1)
  {
    assert Segments([st.path[0] + 1], st.inAnnex) == [if st.inAnnex then Letter(st.path[0] + 1) else Decimal(st.path[0] + 1)];
  }

  /** The first top-level annex is `A`, however many main clauses came before,
      and from then on the iterator stays in annex mode. */
  lemma FirstAnnex(st: NumberingState)
    requires !st.inAnnex
    ensures Step(st, 0, Annex).inAnnex
    ensures Render(Step(st, 0, Annex)) == "A"
  {
    assert Segments([1], true) == [Letter(1)];
  }

  /** A later top-level annex takes the next letter and drops the deeper levels. */
  lemma NextAnnex(st: NumberingState)
    requires st.inAnnex && |st.path| >= 1
    ensures Step(st, 0, Annex) == NumberingState([st.path[0] + 1], true)
    ensures Render(Step(st, 0, Annex)) == Letter(st.path[0] + 1)
  {
    assert Segments([st.path[0] + 1], true) == [Letter(st.path[0] + 1)];
  }

  /** Lexicographic order on counter paths, a proper prefix coming first. */
  predicate LexLess(a: seq<nat>, b: seq<nat>)
  {
    if a == [] then b != []
    else b != [] && (a[0] < b[0] || (a[0] == b[0] && LexLess(a[1..], b[1..])))
  }

  /** `b` comes after `a` in document order: annex mode was entered, or the
      mode is the same and the path is later. */
  predicate Advances(a: NumberingState, b: NumberingState)
  {
    (!a.inAnnex && b.inAnnex) || (a.inAnnex == b.inAnnex && LexLess(a.path, b.path))
  }

  /** Bumping the counter at `depth` (or opening a new level) gives a later path. */
  lemma {:induction false} LexBump(p: seq<nat>, depth: nat, x: nat)
    requires depth <= |p| && (depth < |p| ==> x > p[depth])
    ensures LexLess(p, p[..depth] + [x])
  {
    if depth > 0 {
      LexBump(p[1..], depth - 1, x);
      assert (p[..depth] + [x])[1..] == p[1..][..depth - 1] + [x];
    }
  }

  /** The iterator is forward-only: every step moves strictly later, and
      annex mode is never left. */
  lemma StepAdvances(st: NumberingState, depth: nat, kind: ClauseKind)
    requires depth <= |st.path|
    ensures Advances(st, Step(st, depth, kind))
    ensures st.inAnnex ==> Step(st, depth, kind).inAnnex
  {
    var next := Step(st, depth, kind);
    if depth == 0 && kind == Annex && !st.inAnnex {
    } else if depth == 0 {
      LexBump(st.path, 0, (if |st.path| > 0 then st.path[0] else 0) + 1);
    } else {
      LexBump(st.path, depth, (if depth < |st.path| then st.path[depth] else 0) + 1);
    }
  }

  lemma {:induction false} LexLessTransitive(a: seq<nat>, b: seq<nat>, c: seq<nat>)
    requires LexLess(a, b) && LexLess(b, c)
    ensures LexLess(a, c)
  {
    if a != [] && a[0] == b[0] && b[0] == c[0] {
      LexLessTransitive(a[1..], b[1..], c[1..]);
    }
  }

  lemma {:induction false} LexLessIrreflexive(a: seq<nat>)
    ensures !LexLess(a, a)
  {
    if a != [] {
      LexLessIrreflexive(a[1..]);
    }
  }

  /** Document order is a strict order, so a run of steps never revisits a state. */
  lemma AdvancesStrict(a: NumberingState, b: NumberingState, c: NumberingState)
    ensures !Advances(a, a)
    ensures Advances(a, b) && Advances(b, c) ==> Advances(a, c)
  {
    LexLessIrreflexive(a.path);
    if Advances(a, b) && Advances(b, c) && a.inAnnex == b.inAnnex && b.inAnnex == c.inAnnex {
      LexLessTransitive(a.path, b.path, c.path);
    }
  }
}
