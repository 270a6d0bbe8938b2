/** What the `<emu-table>` handler promises, stated over the functions that
    specify it: how `enter` and the constructor classify a table, what each
    row of an abstract-methods table does, what the whole loop keeps, and
    which biblio entries are registered. */
module TableProperties {
  import opened Text
  import opened SpecState
  import opened Tables

  // Table.enter and the constructor.

  /** An invalid `type` is reported and dropped: the table stays ordinary,
      no `<table>` is demanded, and nothing is recorded or registered. */
  lemma InvalidTypeDegrades(node: EmuTableElement, namespace: string, w0: seq<Warning>, e0: seq<DomEdit>, a0: seq<(BiblioEntry, string)>)
    requires Truthy(Attribute(node, "type")) && Attribute(node, "type").value != AbstractMethods
    ensures var o := TableOutcome(node, namespace, w0, e0, a0);
      o.tableType == Untyped && o.table != Missing(FirstFailing(node.children, 0, IsGenerated)) &&
      o.warnings == w0 + [InvalidTypeWarning(node, Attribute(node, "type").value)] &&
      o.methods == map[] && o.order == [] && o.edits == e0 && o.adds == a0 && o.error == None
  {
  }

  /** The inner table is the first element child that is not a generated
      caption or empty span, when that is a `<table>`. */
  lemma InnerTableFound(node: EmuTableElement, namespace: string, w0: seq<Warning>, e0: seq<DomEdit>, a0: seq<(BiblioEntry, string)>)
    ensures var o := TableOutcome(node, namespace, w0, e0, a0);
      o.table.Existing? <==>
        exists k :: 0 <= k < |node.children| && node.children[k].name == "TABLE" && NothingBut(node.children, k)
    ensures var o := TableOutcome(node, namespace, w0, e0, a0);
      o.table.Existing? ==>
        o.table.index < |node.children| && node.children[o.table.index].name == "TABLE" &&
        NothingBut(node.children, o.table.index)
  {
    var found := FirstFailing(node.children, 0, IsGenerated);
    if found.Some? {
      assert NothingBut(node.children, found.value);
    }
    forall k | 0 <= k < |node.children| && node.children[k].name == "TABLE" && NothingBut(node.children, k)
      ensures found == Some(k)
    {
      assert !IsGenerated(node.children[k]);
    }
  }

  /** Only generated elements come before child `k`. */
  predicate NothingBut(children: seq<TableChild>, k: nat)
  {
    forall j :: 0 <= j < k && j < |children| ==> IsGenerated(children[j])
  }

  /** A typed table with no inner `<table>` is reported and demoted, keeping
      what was found in its place; nothing is recorded or registered. */
  lemma TypedWithoutTable(node: EmuTableElement, namespace: string, w0: seq<Warning>, e0: seq<DomEdit>, a0: seq<(BiblioEntry, string)>)
    requires Attribute(node, "type") == Some(AbstractMethods)
    requires var found := FirstFailing(node.children, 0, IsGenerated);
      found.None? || node.children[found.value].name != "TABLE"
    ensures var o := TableOutcome(node, namespace, w0, e0, a0);
      o.tableType == Untyped && o.table == Missing(FirstFailing(node.children, 0, IsGenerated)) &&
      o.warnings == w0 + [TableMissingWarning(node, AbstractMethods)] &&
      o.methods == map[] && o.edits == e0 && o.adds == a0 && o.error == None
  {
  }

  /** An untyped table with no inner `<table>` silently gets a fresh one. */
  lemma UntypedGetsFreshTable(node: EmuTableElement, namespace: string, w0: seq<Warning>, e0: seq<DomEdit>, a0: seq<(BiblioEntry, string)>)
    requires Attribute(node, "type") != Some(AbstractMethods)
    requires var found := FirstFailing(node.children, 0, IsGenerated);
      found.None? || node.children[found.value].name != "TABLE"
    ensures var o := TableOutcome(node, namespace, w0, e0, a0);
      o.tableType == Untyped && o.table == Created &&
      o.warnings == w0 + (if Truthy(Attribute(node, "type")) then [InvalidTypeWarning(node, Attribute(node, "type").value)] else []) &&
      o.edits == e0 && o.adds == a0
  {
  }

  /** A typed table whose inner table was found but has no `of` is reported
      and demoted before any row is read. */
  lemma NoOfDegrades(node: EmuTableElement, namespace: string, w0: seq<Warning>, e0: seq<DomEdit>, a0: seq<(BiblioEntry, string)>)
    requires CheckEnter(node).tableType == AbstractMethodsTable
    requires !Truthy(Attribute(node, "of"))
    ensures var o := TableOutcome(node, namespace, w0, e0, a0);
      o.tableType == Untyped && o.of == Attribute(node, "of") &&
      o.warnings == w0 + [NoOfWarning(node)] &&
      o.methods == map[] && o.order == [] && o.edits == e0 && o.adds == a0 && o.error == None
  {
  }

  /** A table is classified as an abstract-methods table just when its type
      is `abstract methods`, its inner table was found and it has an `of`. */
  lemma AbstractMethodsIff(node: EmuTableElement, namespace: string, w0: seq<Warning>, e0: seq<DomEdit>, a0: seq<(BiblioEntry, string)>)
    ensures var o := TableOutcome(node, namespace, w0, e0, a0);
      o.tableType == AbstractMethodsTable <==>
        Attribute(node, "type") == Some(AbstractMethods) && o.table.Existing? && Truthy(Attribute(node, "of"))
  {
  }

  /** A typed table with an `of` and no caption gets the default caption as
      the first edit after the ones made before; with a caption, no
      attribute is ever set. */
  lemma CaptionDefault(node: EmuTableElement, namespace: string, w0: seq<Warning>, e0: seq<DomEdit>, a0: seq<(BiblioEntry, string)>)
    requires CheckEnter(node).tableType == AbstractMethodsTable && Truthy(Attribute(node, "of"))
    ensures var o := TableOutcome(node, namespace, w0, e0, a0);
      !Truthy(Attribute(node, "caption")) ==>
        |o.edits| > |e0| &&
        o.edits[..|e0| + 1] == e0 + [SetAttribute(TableNode(node.identity), "caption", "Abstract Methods of " + Attribute(node, "of").value)]
    ensures var o := TableOutcome(node, namespace, w0, e0, a0);
      Truthy(Attribute(node, "caption")) ==> e0 <= o.edits && NoAttributeEdit(o.edits[|e0|..])
  {
    var c := CheckEnter(node);
    CheckEnterTyped(node);
    var k := Construct(node, c.tableType);
    var p0 := Progress(map[], [], w0 + c.warnings + k.warnings, e0 + k.edits, None);
    var p := Process(node, c.table.index, p0);
    ProcessAppends(node, c.table.index, p0);
    if !Truthy(Attribute(node, "caption")) {
      assert p0.edits[..|e0| + 1] == e0 + k.edits;
      assert p.edits[..|e0| + 1] == p0.edits[..|e0| + 1];
    } else {
      assert p0.edits == e0;
    }
  }

  // One row of the declarations loop.

  /** A row with fewer than two cells is skipped with one warning on the row. */
  lemma ShortRowSkipped(table: nat, i: nat, row: Row, multi: bool)
    requires |row.cells| < 2
    ensures var o := RowStep(table, i, row, multi);
      o.Skipped? && |o.warned| == 1 && o.warned[0].kind == NodeWarning && o.warned[0].node == RowNode(table, i) &&
      RuleId(o.warned[0].diagnostic) == "emu-abstract-methods-invalid" &&
      MessageText(o.warned[0].diagnostic) == "<emu-table type=\"abstract methods\"> <tr>s must contain at least two <td>s"
  {
  }

  /** The children before `j` of a cell are all blank. */
  predicate LeadingBlank(cell: Cell, j: nat)
  {
    forall k :: 0 <= k < j && k < |cell.children| ==> cell.children[k].blank
  }

  /** The children from `d` up to `j` are deletions or text. */
  predicate DeletedRun(cell: Cell, d: nat, j: nat)
  {
    forall k :: d <= k < j && k < |cell.children| ==> IsDeletedOrText(cell.children[k])
  }

  /** Where the header of a row is, from the first non-blank child of its
      first cell: after a leading `<del>`, the first element that is not a
      `<del>` (none when only deletions follow); a leading `<ins>` itself;
      otherwise the cell. */
  lemma HeaderLocationMeaning(cell: Cell)
    ensures forall j: nat :: LocateHeader(cell) == Some(CellChild(j)) ==>
      j < |cell.children| &&
      ((LeadingBlank(cell, j) && !cell.children[j].blank && cell.children[j].name == "INS") ||
       (cell.children[j].isElement && cell.children[j].name != "DEL" &&
        exists d: nat :: d < j && LeadingBlank(cell, d) && !cell.children[d].blank && cell.children[d].name == "DEL" && DeletedRun(cell, d, j)))
    ensures LocateHeader(cell) == None <==>
      exists d: nat :: d < |cell.children| && LeadingBlank(cell, d) && !cell.children[d].blank && cell.children[d].name == "DEL" &&
        DeletedRun(cell, d, |cell.children|)
    ensures LocateHeader(cell) == Some(FirstCell) <==>
      forall d: nat :: d < |cell.children| && LeadingBlank(cell, d) && !cell.children[d].blank ==>
        cell.children[d].name != "DEL" && cell.children[d].name != "INS"
  {
    var first := FirstFailing(cell.children, 0, IsBlank);
    if first.Some? {
      var d := first.value;
      assert LeadingBlank(cell, d);
      if cell.children[d].name == "DEL" {
        var h := FirstFailing(cell.children, d, IsDeletedOrText);
        if h.Some? {
          assert DeletedRun(cell, d, h.value);
          assert !IsDeletedOrText(cell.children[h.value]);
          assert h.value != d;
        } else {
          assert DeletedRun(cell, d, |cell.children|);
        }
      }
    } else {
      forall e: nat | e < |cell.children| ensures cell.children[e].blank {
        assert IsBlank(cell.children[e]);
      }
    }
  }

  /** A located header that is neither a `<td>` nor an `<ins>` skips the row
      with one warning on the header naming what was found, lower-cased. */
  lemma MissingHeaderWarned(table: nat, i: nat, row: Row, multi: bool)
    requires |row.cells| >= 2 && LocateHeader(row.cells[0]).Some?
    requires var name := HeaderName(row.cells[0], LocateHeader(row.cells[0]).value); name != "TD" && name != "INS"
    ensures var o := RowStep(table, i, row, multi);
      var at := LocateHeader(row.cells[0]).value;
      o.Skipped? && |o.warned| == 1 && o.warned[0].node == HeaderNode(table, i, at) &&
      RuleId(o.warned[0].diagnostic) == "missing-header" &&
      MessageText(o.warned[0].diagnostic) == "could not locate header element; found <" + Lower(HeaderName(row.cells[0], at)) + ">"
  {
  }

  /** A row whose header is an accepted header is decided by the parser and
      the conversion: a parse failure passes on exactly the parser's own
      warnings, a `ParseError` gives one `type-parsing` warning positioned in
      the header source, anything else thrown ends the loop. */
  lemma HeaderOutcomes(table: nat, i: nat, row: Row, at: HeaderLocation, name: string, multi: bool)
    ensures var o := HeaderStep(table, i, row, at, name, multi);
      row.parse.ParseFailure? ==> o == Skipped(row.parse.diagnostics)
    ensures var o := HeaderStep(table, i, row, at, name, multi);
      row.parse.Parsed? && row.parse.conversion.TypeParseError? ==>
        o.Skipped? && |o.warned| == 1 && o.warned[0].kind == ContentsWarning &&
        RuleId(o.warned[0].diagnostic) == "type-parsing" && MessageText(o.warned[0].diagnostic) == row.parse.conversion.message &&
        o.warned[0].node == HeaderNode(table, i, at)
    ensures var o := HeaderStep(table, i, row, at, name, multi);
      o.Aborted? <==> row.parse.Parsed? && row.parse.conversion.InternalError?
    ensures var o := HeaderStep(table, i, row, at, name, multi);
      o.Aborted? ==> o.error == row.parse.conversion.message
  {
  }

  /** A `ParseError` at code-unit `offset` is reported at 1-based line
      "newlines before the offset plus one" and column "code units since the
      last newline plus one"; an offset past the end counts as the end. */
  lemma TypeParsingPosition(table: nat, i: nat, at: HeaderLocation, source: string, offset: nat, message: string)
    ensures var w := TypeParsingWarning(table, i, at, source, offset, message);
      var prefix := UnitPrefix(source, offset);
      w.line == Some(Count(prefix, '\n') + 1) &&
      w.column == Some(Units(prefix[|prefix| - TailLength(prefix, '\n')..]) + 1)
    ensures offset >= Units(source) ==> UnitPrefix(source, offset) == source
    ensures offset <= Units(source) ==> Units(UnitPrefix(source, offset)) + 1 >= offset
  {
    var prefix := UnitPrefix(source, offset);
    LineColumnMeaning(prefix);
    if prefix != source {
      var next := source[..|prefix| + 1];
      assert next[..|next| - 1] == prefix;
    }
  }

  /** A row records a method just when it has two cells, a located `<td>` or
      `<ins>` header, a successful parse and a successful conversion; the
      method is recorded under its parsed name with the row's id. */
  lemma RecordedIff(table: nat, i: nat, row: Row, multi: bool)
    ensures RowStep(table, i, row, multi).Recorded? <==>
      |row.cells| >= 2 && LocateHeader(row.cells[0]).Some? &&
      HeaderName(row.cells[0], LocateHeader(row.cells[0]).value) in {"TD", "INS"} &&
      row.parse.Parsed? && row.parse.conversion.Converted?
    ensures var o := RowStep(table, i, row, multi);
      o.Recorded? ==>
        o.name == row.parse.name && o.info.signature == row.parse.conversion.signature &&
        (o.info.rowId.None? <==> row.id == "") && (o.info.rowId.Some? ==> o.info.rowId.value == row.id)
  {
  }

  /** A recorded row without an id is warned about just when the body has
      more than one row. */
  lemma MissingIdIff(table: nat, i: nat, row: Row, multi: bool)
    requires RowStep(table, i, row, multi).Recorded?
    ensures var o := RowStep(table, i, row, multi);
      (|o.warned| == 1 <==> multi && row.id == "") && (o.warned == [] <==> !(multi && row.id == "")) &&
      (|o.warned| == 1 ==> o.warned[0].node == RowNode(table, i) && RuleId(o.warned[0].diagnostic) == "abstract-method-id")
  {
  }

  /** The paragraph is the sentence wrapped in `<ins>`…`</ins>` just when the
      header is an `<ins>`, and the bare sentence otherwise. */
  lemma ParagraphInserted(f: FormattedHeader, inserted: bool)
    ensures |ParagraphHtml(f, inserted)| >= 5
    ensures ParagraphHtml(f, inserted)[..5] == "<ins>" <==> inserted
    ensures !inserted ==> ParagraphHtml(f, inserted) == Sentence(f)
    ensures inserted ==> var p := ParagraphHtml(f, inserted);
      |p| >= 11 && p[5..|p| - 6] == Sentence(f) && p[|p| - 6..] == "</ins>"
  {
    assert Sentence(f)[..5] == "The a";
    if inserted {
      var p := ParagraphHtml(f, inserted);
      assert p == "<ins>" + Sentence(f) + "</ins>";
      assert p[5..|p| - 6] == Sentence(f);
    }
  }

  /** A recorded row's edits: the header rewritten just when the formatter
      gives a replacement, and last the paragraph, put first into the second
      cell of the row. No attribute is set. */
  lemma RowEditsShape(table: nat, i: nat, at: HeaderLocation, name: string, f: FormattedHeader)
    ensures var e := RowEdits(table, i, at, name, f);
      |e| == (if f.header.Some? then 2 else 1) &&
      e[|e| - 1] == InsertFirstChild(CellNode(table, i, 1), Paragraph(ParagraphHtml(f, name == "INS"))) &&
      (f.header.Some? ==> e[0] == SetInnerHtml(HeaderNode(table, i, at), f.header.value)) &&
      NoAttributeEdit(e)
  {
  }

  // The whole loop.

  predicate NoAttributeEdit(e: seq<DomEdit>)
  {
    forall k :: 0 <= k < |e| ==> !e[k].SetAttribute?
  }

  /** Rows only ever add warnings and edits after the ones made before, and
      only add to the method order. */
  lemma {:induction false} RunAppends(p0: Progress, steps: seq<RowOutcome>, k: nat)
    requires k <= |steps|
    ensures p0.warnings <= Run(p0, steps, k).warnings
    ensures p0.edits <= Run(p0, steps, k).edits
    ensures p0.order <= Run(p0, steps, k).order
    ensures (forall j :: 0 <= j < |steps| && steps[j].Recorded? ==> NoAttributeEdit(steps[j].edits)) ==>
      NoAttributeEdit(Run(p0, steps, k).edits[|p0.edits|..])
  {
    if k > 0 {
      RunAppends(p0, steps, k - 1);
      var p := Run(p0, steps, k - 1);
      assert p.edits[|p0.edits|..] + (if p.error.None? && steps[k - 1].Recorded? then steps[k - 1].edits else [])
          == Run(p0, steps, k).edits[|p0.edits|..];
    }
  }

  /** The loop over a table's body only appends, and sets no attribute. */
  lemma ProcessAppends(node: EmuTableElement, index: nat, p0: Progress)
    requires index < |node.children|
    ensures var p := Process(node, index, p0);
      p0.warnings <= p.warnings && p0.edits <= p.edits && p0.order <= p.order && NoAttributeEdit(p.edits[|p0.edits|..])
  {
    if node.children[index].tbody.Some? {
      var rows := node.children[index].tbody.value;
      var steps := Steps(node.identity, rows);
      forall j | 0 <= j < |steps| && steps[j].Recorded? ensures NoAttributeEdit(steps[j].edits) {
        assert steps[j] == RowStep(node.identity, j, rows[j], |rows| > 1);
      }
      RunAppends(p0, steps, |rows|);
    }
  }

  /** The info of the last row among the first `k` that recorded `name`. */
  function LastRecorded(steps: seq<RowOutcome>, k: nat, name: string): Option<MethodInfo>
    requires k <= |steps|
  {
    if k == 0 then None
    else if steps[k - 1].Recorded? && steps[k - 1].name == name then Some(steps[k - 1].info)
    else LastRecorded(steps, k - 1, name)
  }

  /** The loop's map holds a name just when it held it before or some row
      recorded it, and then the value of the last such row: a later row
      with the same name replaces an earlier one. */
  lemma {:induction false} LastWins(p0: Progress, steps: seq<RowOutcome>, k: nat, name: string)
    requires k <= |steps| && p0.error.None?
    requires forall j :: 0 <= j < k ==> !steps[j].Aborted?
    ensures Run(p0, steps, k).error.None?
    ensures name in Run(p0, steps, k).methods <==> name in p0.methods || LastRecorded(steps, k, name).Some?
    ensures LastRecorded(steps, k, name).Some? ==> Run(p0, steps, k).methods[name] == LastRecorded(steps, k, name).value
    ensures LastRecorded(steps, k, name).None? && name in p0.methods ==> Run(p0, steps, k).methods[name] == p0.methods[name]
  {
    if k > 0 {
      LastWins(p0, steps, k - 1, name);
    }
  }

  /** A row that throws ends the loop: the state is the one before it, with
      its error, whatever the later rows are. */
  lemma {:induction false} ThrowStops(p0: Progress, steps: seq<RowOutcome>, j: nat)
    requires j < |steps| && steps[j].Aborted? && p0.error.None?
    requires forall m :: 0 <= m < j ==> !steps[m].Aborted?
    ensures Run(p0, steps, |steps|) == Run(p0, steps, j).(error := Some(Rethrown(steps[j].error)))
  {
    LastWins(p0, steps, j, "");
    RunStoppedAt(p0, steps, j + 1, |steps|);
  }

  /** The entries registered for the methods: one `op` entry of kind
      `abstract method` per method, in insertion order, under the method's
      name, with the row's id, the table's id as `refId` and no effects. */
  lemma InnerEntriesMeaning(order: seq<string>, methods: map<string, MethodInfo>, refId: Option<string>, namespace: string)
    requires OrderMatches(order, methods)
    ensures var e := InnerEntries(order, methods, refId, namespace);
      |e| == |order| &&
      (forall k :: 0 <= k < |e| ==>
        e[k].1 == namespace && e[k].0.OpEntry? && e[k].0.aoid == order[k] && e[k].0.aoid in methods &&
        e[k].0.kind == "abstract method" && e[k].0.effects == [] && e[k].0.refId == refId && e[k].0.forType.None? &&
        e[k].0.id == methods[e[k].0.aoid].rowId && e[k].0.signature == methods[e[k].0.aoid].signature)
    ensures var e := InnerEntries(order, methods, refId, namespace);
      forall n :: n in methods ==> exists k :: 0 <= k < |e| && e[k].0.aoid == n
    ensures var e := InnerEntries(order, methods, refId, namespace);
      forall j, k :: 0 <= j < k < |e| ==> e[j].0.aoid != e[k].0.aoid
  {
    var e := InnerEntries(order, methods, refId, namespace);
    forall n | n in methods ensures exists k :: 0 <= k < |e| && e[k].0.aoid == n {
      var k :| 0 <= k < |order| && order[k] == n;
      assert e[k].0.aoid == n;
    }
  }
}
