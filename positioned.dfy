/** The `positioned` and `multipositioned` template tags of the test helpers:
    they assemble the html of a tagged template and record, at every
    interpolation of the location marker, the offset, line and column the
    marker stands at. */
module TemplatePositions {
  import opened Text

  /** One interpolated value of a tagged template: the location-marker object
      itself, or any other value, given by its `String(...)` rendering. */
  datatype Interpolation = Marker | Value(text: string)

  datatype Position = Position(offset: nat, line: nat, column: nat)

  /** Result of `multipositioned`. */
  datatype MultiPositionedResult = MultiPositionedResult(positions: seq<Position>, html: string)

  /** Result of `positioned`: the one position spread out beside the html. */
  datatype PositionedResult = PositionedResult(offset: nat, line: nat, column: nat, html: string)

  /** A template tag either returns or throws an `Error` with a message. */
  datatype Result<T> = Ok(value: T) | Thrown(message: string)

  const MultiMessage := "multipositioned template tag must interpolate the location marker at least once"
  const SingleMessage := "positioned template tag must interpolate the location marker exactly once"

  /** The indexes of the marker interpolations, in increasing order
      (`map` / `filter` / `map`). */
  function MarkerIndexes(parts: seq<Interpolation>): (idx: seq<nat>)
    ensures forall j :: 0 <= j < |idx| ==> idx[j] < |parts| && parts[idx[j]].Marker?
    ensures forall j, k :: 0 <= j < k < |idx| ==> idx[j] < idx[k]
  {
    if parts == [] then []
    else MarkerIndexes(parts[..|parts| - 1]) + (if parts[|parts| - 1].Marker? then [|parts| - 1] else [])
  }

  /** Every marker interpolation is listed. */
  lemma {:induction false} MarkerIndexesComplete(parts: seq<Interpolation>)
    ensures forall i :: 0 <= i < |parts| && parts[i].Marker? ==> i in MarkerIndexes(parts)
  {
    if parts != [] {
      var init := parts[..|parts| - 1];
      MarkerIndexesComplete(init);
      assert forall i :: 0 <= i < |init| ==> init[i] == parts[i];
    }
  }

  /** `indexOf(marker)`: the first marker's index, or -1. */
  function IndexOf(parts: seq<Interpolation>): (r: int)
    ensures r == -1 <==> forall i :: 0 <= i < |parts| ==> !parts[i].Marker?
    ensures r != -1 ==> 0 <= r < |parts| && parts[r].Marker? && forall i :: 0 <= i < r ==> !parts[i].Marker?
  {
    if parts == [] then -1
    else if parts[0].Marker? then 0
    else
      var r := IndexOf(parts[1..]);
      if r < 0 then -1 else r + 1
  }

  /** `lastIndexOf(marker)`: the last marker's index, or -1. */
  function LastIndexOf(parts: seq<Interpolation>): (r: int)
    ensures r == -1 <==> forall i :: 0 <= i < |parts| ==> !parts[i].Marker?
    ensures r != -1 ==> 0 <= r < |parts| && parts[r].Marker? && forall i :: r < i < |parts| ==> !parts[i].Marker?
  {
    if parts == [] then -1
    else if parts[|parts| - 1].Marker? then |parts| - 1
    else LastIndexOf(parts[..|parts| - 1])
  }

  /** What interpolation `i` adds to the html: nothing for a marker. */
  function Piece(part: Interpolation): string
  {
    if part.Marker? then "" else part.text
  }

  /** The position of the end of `prefix`. */
  function PositionAt(prefix: string): Position
  {
    Position(Units(prefix), LineOf(prefix), ColumnOf(prefix))
  }

  /** `str` after the first `k` turns of the loop. */
  function HtmlAfter(literals: seq<string>, parts: seq<Interpolation>, k: nat): string
    requires |literals| == |parts| + 1 && k <= |parts|
  {
    if k == 0 then literals[0]
    else HtmlAfter(literals, parts, k - 1) + Piece(parts[k - 1]) + literals[k]
  }

  /** `positions` after the first `k` turns of the loop. */
  function PositionsAfter(literals: seq<string>, parts: seq<Interpolation>, k: nat): seq<Position>
    requires |literals| == |parts| + 1 && k <= |parts|
  {
    PositionsBy(literals, parts, k, PositionAt)
  }

  /** What the loop records after `k` turns when `at` gives the position
      of a prefix; the loop's own bookkeeping, whatever `at` measures. */
  function PositionsBy(literals: seq<string>, parts: seq<Interpolation>, k: nat, at: string -> Position): seq<Position>
    requires |literals| == |parts| + 1 && k <= |parts|
  {
    if k == 0 then []
    else
      PositionsBy(literals, parts, k - 1, at)
      + (if parts[k - 1].Marker? then [at(HtmlAfter(literals, parts, k - 1))] else [])
  }

  /** The template read from the front: first literal, first piece, rest. */
  function Concat(literals: seq<string>, parts: seq<Interpolation>): string
    requires |literals| == |parts| + 1
  {
    if parts == [] then literals[0]
    else literals[0] + Piece(parts[0]) + Concat(literals[1..], parts[1..])
  }

  /** `multipositioned`: the JavaScript runtime always passes one more
      literal part than interpolations, which is the precondition. */
  method Multipositioned(literals: seq<string>, parts: seq<Interpolation>) returns (r: Result<MultiPositionedResult>)
    requires |literals| == |parts| + 1
    ensures r.Thrown? <==> MarkerIndexes(parts) == []
    ensures r.Thrown? ==> r.message == MultiMessage
    ensures r.Ok? ==> r.value.html == HtmlAfter(literals, parts, |parts|)
    ensures r.Ok? ==> r.value.positions == PositionsAfter(literals, parts, |parts|)
  {
    var markerIndexes := MarkerIndexes(parts);
    MarkerIndexesComplete(parts);
    if |markerIndexes| == 0 {
      return Thrown(MultiMessage);
    }
    var positions: seq<Position> := [];
    var str := literals[0];
    var i := 0;
    while i < |literals| - 1
      invariant 0 <= i <= |parts|
      invariant str == HtmlAfter(literals, parts, i)
      invariant positions == PositionsAfter(literals, parts, i)
    {
      if i in markerIndexes {
        var offset := Units(str);
        var lines := Split(str, '\n');
        var line := |lines|;
        var column := Units(lines[|lines| - 1]) + 1;
        positions := positions + [Position(offset, line, column)];
      } else {
        str := str + parts[i].text;
      }
      str := str + literals[i + 1];
      i := i + 1;
    }
    return Ok(MultiPositionedResult(positions, str));
  }

  /** The exactly-once check of `positioned` holds just when there is one marker. */
  lemma ExactlyOnce(parts: seq<Interpolation>)
    ensures (IndexOf(parts) >= 0 && IndexOf(parts) == LastIndexOf(parts)) <==> |MarkerIndexes(parts)| == 1
    ensures |MarkerIndexes(parts)| == 1 ==> MarkerIndexes(parts)[0] == IndexOf(parts)
  {
    var idx := MarkerIndexes(parts);
    if IndexOf(parts) >= 0 && IndexOf(parts) == LastIndexOf(parts) {
      SingleMarker(parts);
    }
    if |idx| == 1 {
      MarkerIndexesComplete(parts);
      assert forall i :: 0 <= i < |parts| && parts[i].Marker? ==> i == idx[0];
    }
  }

  /** Without a marker there is no marker index. */
  lemma {:induction false} NoMarkers(parts: seq<Interpolation>)
    requires forall i :: 0 <= i < |parts| ==> !parts[i].Marker?
    ensures MarkerIndexes(parts) == []
  {
    if parts != [] {
      var init := parts[..|parts| - 1];
      assert forall i :: 0 <= i < |init| ==> init[i] == parts[i];
      NoMarkers(init);
    }
  }

  /** When the first and the last marker coincide, it is the only one. */
  lemma {:induction false} SingleMarker(parts: seq<Interpolation>)
    requires IndexOf(parts) >= 0 && IndexOf(parts) == LastIndexOf(parts)
    ensures MarkerIndexes(parts) == [IndexOf(parts)]
  {
    var init := parts[..|parts| - 1];
    if parts[|parts| - 1].Marker? {
      assert IndexOf(parts) == |parts| - 1;
      assert forall i :: 0 <= i < |init| ==> !init[i].Marker?;
      NoMarkers(init);
    } else {
      assert forall i :: 0 <= i < |init| ==> init[i] == parts[i];
      assert IndexOf(init) == IndexOf(parts);
      SingleMarker(init);
    }
  }

  /** `positioned`: fails unless the marker is interpolated exactly once. */
  method Positioned(literals: seq<string>, parts: seq<Interpolation>) returns (r: Result<PositionedResult>)
    requires |literals| == |parts| + 1
    ensures r.Ok? <==> |MarkerIndexes(parts)| == 1
    ensures r.Thrown? ==> r.message == SingleMessage
    ensures r.Ok? ==> IndexOf(parts) >= 0
    ensures r.Ok? && IndexOf(parts) >= 0 ==>
      var at := PositionAt(HtmlAfter(literals, parts, IndexOf(parts)));
      r.value == PositionedResult(at.offset, at.line, at.column, HtmlAfter(literals, parts, |parts|))
  {
    ExactlyOnce(parts);
    var markerIndex := IndexOf(parts);
    if markerIndex < 0 || markerIndex != LastIndexOf(parts) {
      return Thrown(SingleMessage);
    }
    var multi := Multipositioned(literals, parts);
    PositionsAtMarkers(literals, parts);
    PositionCount(literals, parts);
    var p := multi.value.positions[0];
    return Ok(PositionedResult(p.offset, p.line, p.column, multi.value.html));
  }

  /** Markers are counted: one recorded position per marker interpolation. */
  lemma {:induction false} PositionCountAfter(literals: seq<string>, parts: seq<Interpolation>, k: nat, at: string -> Position)
    requires |literals| == |parts| + 1 && k <= |parts|
    ensures |PositionsBy(literals, parts, k, at)| == |MarkerIndexes(parts[..k])|
  {
    if k > 0 {
      PositionCountAfter(literals, parts, k - 1, at);
      assert parts[..k][..k - 1] == parts[..k - 1];
    }
  }

  /** The number of positions equals the number of marker interpolations. */
  lemma PositionCount(literals: seq<string>, parts: seq<Interpolation>)
    requires |literals| == |parts| + 1
    ensures |PositionsAfter(literals, parts, |parts|)| == |MarkerIndexes(parts)|
  {
    PositionCountAfter(literals, parts, |parts|, PositionAt);
    assert parts[..|parts|] == parts;
  }

  /** The j-th position is the position of the html built before the j-th marker. */
  lemma {:induction false} PositionsAtMarkersAfter(literals: seq<string>, parts: seq<Interpolation>, k: nat, at: string -> Position)
    requires |literals| == |parts| + 1 && k <= |parts|
    ensures |PositionsBy(literals, parts, k, at)| == |MarkerIndexes(parts[..k])|
    ensures forall j :: 0 <= j < |MarkerIndexes(parts[..k])| ==>
      MarkerIndexes(parts[..k])[j] < |parts| &&
      PositionsBy(literals, parts, k, at)[j] == at(HtmlAfter(literals, parts, MarkerIndexes(parts[..k])[j]))
  {
    PositionCountAfter(literals, parts, k, at);
    if k > 0 {
      PositionsAtMarkersAfter(literals, parts, k - 1, at);
      assert parts[..k][..k - 1] == parts[..k - 1];
    }
  }

  /** At each marker: offset = length of the html so far, line = newlines + 1,
      column = length of the text after the last newline + 1, lengths in
      UTF-16 code units. */
  lemma PositionsAtMarkers(literals: seq<string>, parts: seq<Interpolation>)
    requires |literals| == |parts| + 1
    ensures |PositionsAfter(literals, parts, |parts|)| == |MarkerIndexes(parts)|
    ensures forall j :: 0 <= j < |MarkerIndexes(parts)| ==>
      var prefix := HtmlAfter(literals, parts, MarkerIndexes(parts)[j]);
      var p := PositionsAfter(literals, parts, |parts|)[j];
      p == PositionAt(prefix) &&
      p.offset == Units(prefix) && p.line == Count(prefix, '\n') + 1 &&
      p.column == Units(prefix[|prefix| - TailLength(prefix, '\n')..]) + 1
  {
    PositionCount(literals, parts);
    forall j | 0 <= j < |MarkerIndexes(parts)|
      ensures var prefix := HtmlAfter(literals, parts, MarkerIndexes(parts)[j]);
        var p := PositionsAfter(literals, parts, |parts|)[j];
        p == PositionAt(prefix) &&
        p.offset == Units(prefix) && p.line == Count(prefix, '\n') + 1 &&
        p.column == Units(prefix[|prefix| - TailLength(prefix, '\n')..]) + 1
    {
      PositionAtMarker(literals, parts, j);
    }
  }

  /** The position recorded at the j-th marker, one marker at a time. */
  lemma PositionAtMarker(literals: seq<string>, parts: seq<Interpolation>, j: nat)
    requires |literals| == |parts| + 1 && j < |MarkerIndexes(parts)|
    ensures |PositionsAfter(literals, parts, |parts|)| == |MarkerIndexes(parts)|
    ensures var prefix := HtmlAfter(literals, parts, MarkerIndexes(parts)[j]);
      var p := PositionsAfter(literals, parts, |parts|)[j];
      p == PositionAt(prefix) &&
      p.offset == Units(prefix) && p.line == Count(prefix, '\n') + 1 &&
      p.column == Units(prefix[|prefix| - TailLength(prefix, '\n')..]) + 1
  {
    PositionsAtMarkersAfter(literals, parts, |parts|, PositionAt);
    assert parts[..|parts|] == parts;
    LineColumnMeaning(HtmlAfter(literals, parts, MarkerIndexes(parts)[j]));
  }

  /** A character outside the Basic Multilingual Plane counts as two, as
      JavaScript's `length` does: a marker after one emoji stands at offset
      2, column 3. */
  lemma AstralMarker()
    ensures PositionsAfter(["\U{1F600}", ""], [Marker], 1) == [Position(2, 1, 3)]
  {
    var prefix := "\U{1F600}";
    assert HtmlAfter(["\U{1F600}", ""], [Marker], 0) == prefix;
    assert prefix[..0] == [];
    assert Units(prefix) == 2;
    assert |prefix| == 1 && prefix[..|prefix| - 1] == [];
    assert Split([], '\n') == [""];
    assert prefix[|prefix| - 1] != '\n';
    var init: seq<string> := [""];
    assert init[0] + [prefix[0]] == prefix;
    assert init[..0] + [prefix] == [prefix];
    assert Split(prefix, '\n') == [prefix];
  }

  /** `str` only grows: what is built after i turns begins what is built after k. */
  lemma {:induction false} HtmlGrows(literals: seq<string>, parts: seq<Interpolation>, i: nat, k: nat)
    requires |literals| == |parts| + 1 && i <= k <= |parts|
    ensures HtmlAfter(literals, parts, i) <= HtmlAfter(literals, parts, k)
  {
    if i < k {
      HtmlGrows(literals, parts, i, k - 1);
    }
  }

  /** Recorded offsets are non-decreasing in marker order. */
  lemma OffsetsNondecreasing(literals: seq<string>, parts: seq<Interpolation>)
    requires |literals| == |parts| + 1
    ensures var ps := PositionsAfter(literals, parts, |parts|);
      forall j, k :: 0 <= j < k < |ps| ==> ps[j].offset <= ps[k].offset
  {
    PositionsAtMarkers(literals, parts);
    var ps := PositionsAfter(literals, parts, |parts|);
    var idx := MarkerIndexes(parts);
    forall j, k | 0 <= j < k < |ps| ensures ps[j].offset <= ps[k].offset {
      HtmlGrows(literals, parts, idx[j], idx[k]);
      UnitsGrow(HtmlAfter(literals, parts, idx[j]), HtmlAfter(literals, parts, idx[k]));
    }
  }

  /** Reading the loop's html from the front: the concatenation of every literal
      with every non-marker value between them. */
  lemma {:induction false} HtmlIsConcat(literals: seq<string>, parts: seq<Interpolation>)
    requires |literals| == |parts| + 1
    ensures HtmlAfter(literals, parts, |parts|) == Concat(literals, parts)
  {
    if parts != [] {
      var n := |parts|;
      var lits, ps := literals[..n], parts[..n - 1];
      HtmlIsConcat(lits, ps);
      HtmlPrefix(literals, parts, lits, ps, n - 1);
      ConcatSnoc(lits, ps, parts[n - 1], literals[n]);
      assert lits + [literals[n]] == literals;
      assert ps + [parts[n - 1]] == parts;
    }
  }

  /** The first turns of the loop only see the first parts. */
  lemma {:induction false} HtmlPrefix(literals: seq<string>, parts: seq<Interpolation>,
                                      lits: seq<string>, ps: seq<Interpolation>, k: nat)
    requires |literals| == |parts| + 1 && |lits| == |ps| + 1
    requires k <= |ps| <= |parts| && lits <= literals && ps <= parts
    ensures HtmlAfter(literals, parts, k) == HtmlAfter(lits, ps, k)
  {
    if k > 0 {
      HtmlPrefix(literals, parts, lits, ps, k - 1);
    }
  }

  lemma {:induction false} ConcatSnoc(literals: seq<string>, parts: seq<Interpolation>, p: Interpolation, l: string)
    requires |literals| == |parts| + 1
    ensures Concat(literals + [l], parts + [p]) == Concat(literals, parts) + Piece(p) + l
  {
    if parts == [] {
      assert Concat([literals[0], l], [p]) == literals[0] + Piece(p) + Concat([l], []);
    } else {
      ConcatSnoc(literals[1..], parts[1..], p, l);
      assert (literals + [l])[1..] == literals[1..] + [l];
      assert (parts + [p])[1..] == parts[1..] + [p];
    }
  }
}
