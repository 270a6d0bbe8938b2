/** The `<emu-table>` handler: it validates the table's `type`, finds its
    inner `<table>`, and, for an "abstract methods" table, reads one method
    declaration per row, records it under its parsed name, rewrites the row's
    header, inserts a descriptive paragraph, and finally registers one `op`
    biblio entry per recorded method. */
module Tables {
  import opened Text
  import opened SpecState

  const AbstractMethods := "abstract methods"

  /** A child node of a row's first cell: its `nodeName`, whether it is an
      element, and whether its `textContent` trims to the empty string. */
  datatype ChildNode = ChildNode(name: string, isElement: bool, blank: bool)

  /** An element child of a `<tr>`. */
  datatype Cell = Cell(name: string, children: seq<ChildNode>)

  /** What converting a parsed header into a signature does: return it,
      throw a `ParseError` at an offset of the header source, or throw
      anything else. */
  datatype Conversion =
    | Converted(signature: Signature)
    | TypeParseError(offset: nat, message: string)
    | InternalError(message: string)

  /** What parsing the header source gives: a failure carrying the warnings
      reported for it, or the method's name and the conversion's outcome. */
  datatype HeaderParse =
    | ParseFailure(diagnostics: seq<Warning>)
    | Parsed(name: string, conversion: Conversion)

  /** The typeset pieces of a parsed header; `header` is the replacement for
      the header's content, if any. */
  datatype FormattedHeader = FormattedHeader(name: string, header: Option<string>, params: string, returnType: string)

  /** A `<tr>` of the table body: its `id` (empty when absent), its element
      children, and the outcomes of the header collaborators for its header. */
  datatype Row = Row(id: string, cells: seq<Cell>, source: string, parse: HeaderParse, format: FormattedHeader)

  /** An element child of the `<emu-table>`: its `nodeName`, whether its text
      is empty, and the rows of its `<tbody>` (None when it has none). */
  datatype TableChild = TableChild(name: string, textEmpty: bool, tbody: Option<seq<Row>>)

  /** The `<emu-table>` element: its identity, attributes and element children. */
  datatype EmuTableElement = EmuTableElement(identity: nat, attributes: map<string, string>, children: seq<TableChild>)

  datatype TableType = Untyped | AbstractMethodsTable

  /** The inner table: the element child at `index`, the non-table element (or
      nothing) found where the table should be, or a freshly created one. */
  datatype TableElement = Existing(index: nat) | Missing(found: Option<nat>) | Created

  datatype MethodInfo = MethodInfo(signature: Signature, rowId: Option<string>)

  /** The outcome of one row of the declarations loop. */
  datatype RowOutcome =
    | Skipped(warned: seq<Warning>)
    | Recorded(name: string, info: MethodInfo, warned: seq<Warning>, edits: seq<DomEdit>)
    | Aborted(error: string)

  /** The state the declarations loop changes, and the error it stopped with. */
  datatype Progress = Progress(
    methods: map<string, MethodInfo>, order: seq<string>,
    warnings: seq<Warning>, edits: seq<DomEdit>, error: Option<Fault>)

  /** Why the declarations loop stopped: the inner table has no `<tbody>`
      (ecmarkup's `processAbstractMethodsDeclarations` dereferences the missing element and throws a
      `TypeError`), or converting a header threw something other than a
      `ParseError`, which is rethrown. */
  datatype Fault = MissingTbody | Rethrown(message: string)

  function Attribute(node: EmuTableElement, name: string): Option<string>
  {
    if name in node.attributes then Some(node.attributes[name]) else None
  }

  /** JavaScript truthiness of an attribute value: present and not empty. */
  predicate Truthy(v: Option<string>)
  {
    v.Some? && v.value != ""
  }

  /** `traverseWhile` over siblings: the first index at or after `from`
      whose node `skip` rejects, or None when every node is skipped. */
  function FirstFailing<T>(xs: seq<T>, from: nat, skip: T -> bool): (r: Option<nat>)
    ensures r.None? ==> forall i :: from <= i < |xs| ==> skip(xs[i])
    ensures r.Some? ==> from <= r.value < |xs| && !skip(xs[r.value])
    ensures r.Some? ==> forall i :: from <= i < r.value ==> skip(xs[i])
    decreases |xs| - from
  {
    if from >= |xs| then None
    else if skip(xs[from]) then FirstFailing(xs, from + 1, skip)
    else Some(from)
  }

  // The warnings; their rule ids and messages are given by `RuleId` and `MessageText`.

  function InvalidTypeWarning(node: EmuTableElement, tableType: string): Warning
  {
    Warning(NodeWarning, InvalidTableType(tableType), TableNode(node.identity), None, None)
  }

  function TableMissingWarning(node: EmuTableElement, tableType: string): Warning
  {
    Warning(NodeWarning, TableMissing(tableType), TableNode(node.identity), None, None)
  }

  function NoOfWarning(node: EmuTableElement): Warning
  {
    Warning(NodeWarning, MissingOf, TableNode(node.identity), None, None)
  }

  function ShortRowWarning(table: nat, row: nat): Warning
  {
    Warning(NodeWarning, ShortRow, RowNode(table, row), None, None)
  }

  /** The header found is named by its lower-cased `nodeName`. */
  function MissingHeaderWarning(table: nat, row: nat, at: HeaderLocation, name: string): Warning
  {
    Warning(NodeWarning, MissingHeader(Lower(name)), HeaderNode(table, row, at), None, None)
  }

  /** A `ParseError` is reported at the line and column of its offset, in
      UTF-16 code units, into the header source (an offset past the end
      stands at the end). */
  function TypeParsingWarning(table: nat, row: nat, at: HeaderLocation, source: string, offset: nat, message: string): Warning
  {
    var prefix := UnitPrefix(source, offset);
    Warning(ContentsWarning, TypeParsing(message), HeaderNode(table, row, at),
            Some(LineOf(prefix)), Some(ColumnOf(prefix)))
  }

  function MissingIdWarning(table: nat, row: nat): Warning
  {
    Warning(NodeWarning, MissingRowId, RowNode(table, row), None, None)
  }

  // Table.enter and the constructor.

  /** Elements generated in front of the inner table: a caption, an empty span. */
  predicate IsGenerated(c: TableChild)
  {
    c.name == "EMU-CAPTION" || (c.name == "SPAN" && c.textEmpty)
  }

  datatype EnterCheck = EnterCheck(tableType: TableType, table: TableElement, warnings: seq<Warning>)

  /** `Table.enter` up to the construction: the validated type, the inner
      table, and the warnings. */
  function CheckEnter(node: EmuTableElement): EnterCheck
  {
    var t := Attribute(node, "type");
    var invalid := Truthy(t) && t.value != AbstractMethods;
    var typed := !invalid && Truthy(t);
    var w := if invalid then [InvalidTypeWarning(node, t.value)] else [];
    var found := FirstFailing(node.children, 0, IsGenerated);
    if found.Some? && node.children[found.value].name == "TABLE" then
      EnterCheck(if typed then AbstractMethodsTable else Untyped, Existing(found.value), w)
    else if typed then
      EnterCheck(Untyped, Missing(found), w + [TableMissingWarning(node, AbstractMethods)])
    else
      EnterCheck(Untyped, Created, w)
  }

  datatype Construction = Construction(tableType: TableType, of: Option<string>, warnings: seq<Warning>, edits: seq<DomEdit>)

  /** The constructor's `of` / caption / degrade logic. */
  function Construct(node: EmuTableElement, tableType: TableType): Construction
  {
    if tableType == Untyped then Construction(Untyped, None, [], [])
    else
      var of := Attribute(node, "of");
      if Truthy(of) then
        Construction(AbstractMethodsTable, of, [],
          if Truthy(Attribute(node, "caption")) then []
          else [SetAttribute(TableNode(node.identity), "caption", "Abstract Methods of " + of.value)])
      else
        Construction(Untyped, of, [NoOfWarning(node)], [])
  }

  // One row of processAbstractMethodsDeclarations.

  function IsBlank(c: ChildNode): bool { c.blank }

  function IsDeletedOrText(c: ChildNode): bool { !c.isElement || c.name == "DEL" }

  /** Where the header of a row whose first cell is `cell` is, or None when it
      is deleted with no element after it. */
  function LocateHeader(cell: Cell): Option<HeaderLocation>
  {
    var first := FirstFailing(cell.children, 0, IsBlank);
    if first.Some? && cell.children[first.value].name == "DEL" then
      var h := FirstFailing(cell.children, first.value, IsDeletedOrText);
      if h.None? then None else Some(CellChild(h.value))
    else if first.Some? && cell.children[first.value].name == "INS" then
      Some(CellChild(first.value))
    else
      Some(FirstCell)
  }

  /** The `nodeName` of the located header. */
  function HeaderName(cell: Cell, at: HeaderLocation): string
  {
    match at
    case FirstCell => cell.name
    case CellChild(j) => if j < |cell.children| then cell.children[j].name else ""
  }

  function Sentence(f: FormattedHeader): string
  {
    "The abstract method " + f.name + " takes " + f.params + " and returns " + f.returnType + "."
  }

  /** The generated paragraph's html: the sentence, inside `<ins>` when the header is an INS. */
  function ParagraphHtml(f: FormattedHeader, inserted: bool): string
  {
    if inserted then "<ins>" + Sentence(f) + "</ins>" else Sentence(f)
  }

  /** The edits made for a recorded row: the header rewritten when the
      formatter gives a replacement, then the paragraph put first in the
      second cell. */
  function RowEdits(table: nat, i: nat, at: HeaderLocation, name: string, f: FormattedHeader): seq<DomEdit>
  {
    (if f.header.Some? then [SetInnerHtml(HeaderNode(table, i, at), f.header.value)] else [])
    + [InsertFirstChild(CellNode(table, i, 1), Paragraph(ParagraphHtml(f, name == "INS")))]
  }

  /** What row `i` of a table body does; `multi` says the body has more than one row. */
  function RowStep(table: nat, i: nat, row: Row, multi: bool): RowOutcome
  {
    if |row.cells| < 2 then Skipped([ShortRowWarning(table, i)])
    else LocateStep(table, i, row, multi)
  }

  /** What a row with at least two cells does: its header is located and
      must be a `<td>` or an `<ins>`. */
  function LocateStep(table: nat, i: nat, row: Row, multi: bool): RowOutcome
    requires |row.cells| >= 2
  {
    match LocateHeader(row.cells[0])
    case None => Skipped([])
    case Some(at) =>
      var name := HeaderName(row.cells[0], at);
      if name != "TD" && name != "INS" then Skipped([MissingHeaderWarning(table, i, at, name)])
      else HeaderStep(table, i, row, at, name, multi)
  }

  /** What a row whose header `at` (named `name`) was accepted does: the
      parser's and the conversion's outcomes decide. */
  function HeaderStep(table: nat, i: nat, row: Row, at: HeaderLocation, name: string, multi: bool): RowOutcome
  {
    match row.parse
    case ParseFailure(d) => Skipped(d)
    case Parsed(mname, conversion) =>
      match conversion
      case TypeParseError(offset, message) =>
        Skipped([TypeParsingWarning(table, i, at, row.source, offset, message)])
      case InternalError(message) => Aborted(message)
      case Converted(signature) =>
        var rowId := if row.id == "" then None else Some(row.id);
        Recorded(mname, MethodInfo(signature, rowId),
                 if multi && rowId.None? then [MissingIdWarning(table, i)] else [],
                 RowEdits(table, i, at, name, row.format))
  }

  /** `methods.set(name, info)` on an insertion-ordered map: a new name goes
      last, a known one keeps its place and gets the new value. */
  function SetMethod(p: Progress, name: string, info: MethodInfo): Progress
  {
    p.(methods := p.methods[name := info], order := if name in p.methods then p.order else p.order + [name])
  }

  function Apply(p: Progress, o: RowOutcome): Progress
  {
    if p.error.Some? then p
    else
      match o
      case Skipped(w) => p.(warnings := p.warnings + w)
      case Recorded(name, info, w, e) =>
        var q := SetMethod(p.(warnings := p.warnings + w), name, info);
        q.(edits := q.edits + e)
      case Aborted(message) => p.(error := Some(Rethrown(message)))
  }

  /** What row `i` of a body does. */
  function StepOf(table: nat, rows: seq<Row>, i: nat): RowOutcome
    requires i < |rows|
  {
    RowStep(table, i, rows[i], |rows| > 1)
  }

  /** What each row of a body does. */
  function Steps(table: nat, rows: seq<Row>): (steps: seq<RowOutcome>)
    ensures |steps| == |rows|
  {
    seq(|rows|, i requires 0 <= i < |rows| => StepOf(table, rows, i))
  }

  /** The state after the first `k` row outcomes. */
  function Run(p0: Progress, steps: seq<RowOutcome>, k: nat): Progress
    requires k <= |steps|
  {
    if k == 0 then p0 else Apply(Run(p0, steps, k - 1), steps[k - 1])
  }

  /** The whole declarations loop over the body of inner table `index`. */
  function Process(node: EmuTableElement, index: nat, p0: Progress): Progress
    requires index < |node.children|
  {
    match node.children[index].tbody
    case None => p0.(error := Some(MissingTbody))
    case Some(rows) => Run(p0, Steps(node.identity, rows), |rows|)
  }

  /** The insertion order lists every key exactly once. */
  predicate OrderMatches(order: seq<string>, methods: map<string, MethodInfo>)
  {
    (forall i, j :: 0 <= i < j < |order| ==> order[i] != order[j]) &&
    (forall n :: n in methods ==> n in order) && (forall n :: n in order ==> n in methods)
  }

  /** The entry `defineInnerBiblioEntries` builds for a method. */
  function InnerEntry(name: string, info: MethodInfo, refId: Option<string>): BiblioEntry
  {
    OpEntry(name, "abstract method", info.rowId, refId, info.signature, [], None)
  }

  /** The `add` calls for the methods, in insertion order. */
  function InnerEntries(order: seq<string>, methods: map<string, MethodInfo>, refId: Option<string>, namespace: string): seq<(BiblioEntry, string)>
    requires forall n :: n in order ==> n in methods
  {
    seq(|order|, i requires 0 <= i < |order| => (InnerEntry(order[i], methods[order[i]], refId), namespace))
  }

  /** What entering an `<emu-table>` does to the document, from the spec's
      namespace and the warnings, edits and biblio calls made before. */
  datatype Outcome = Outcome(
    tableType: TableType, table: TableElement, of: Option<string>,
    methods: map<string, MethodInfo>, order: seq<string>,
    warnings: seq<Warning>, edits: seq<DomEdit>, adds: seq<(BiblioEntry, string)>, error: Option<Fault>)

  function TableOutcome(node: EmuTableElement, namespace: string, warnings0: seq<Warning>,
                        edits0: seq<DomEdit>, adds0: seq<(BiblioEntry, string)>): Outcome
  {
    var c := CheckEnter(node);
    CheckEnterTyped(node);
    var k := Construct(node, c.tableType);
    var w1, e1 := warnings0 + c.warnings + k.warnings, edits0 + k.edits;
    if k.tableType == Untyped then
      Outcome(Untyped, c.table, k.of, map[], [], w1, e1, adds0, None)
    else
      var p := Process(node, c.table.index, Progress(map[], [], w1, e1, None));
      RunKeepsOrder(node, c.table.index, Progress(map[], [], w1, e1, None));
      Outcome(AbstractMethodsTable, c.table, k.of, p.methods, p.order, p.warnings, p.edits,
              if p.error.None? then adds0 + InnerEntries(p.order, p.methods, Attribute(node, "id"), namespace) else adds0,
              p.error)
  }

  /** Only a table found as an element child is left typed by `enter`. */
  lemma CheckEnterTyped(node: EmuTableElement)
    ensures CheckEnter(node).tableType == AbstractMethodsTable ==>
      CheckEnter(node).table.Existing? && CheckEnter(node).table.index < |node.children| &&
      node.children[CheckEnter(node).table.index].name == "TABLE"
  {
  }

  // The state-keeping objects.

  class Table {
    const spec: Spec
    const node: EmuTableElement
    const table: TableElement
    var tableType: TableType
    var of: Option<string>
    /** `methods`, an insertion-ordered map: its values and its key order. */
    var methods: map<string, MethodInfo>
    var methodOrder: seq<string>
    /** The figure's id (the element's `id` attribute), the entries' `refId`. */
    const id: Option<string>

    ghost predicate Valid()
      reads this
    {
      OrderMatches(methodOrder, methods) &&
      (tableType == AbstractMethodsTable ==> table.Existing? && table.index < |node.children|)
    }

    /** The constructor up to the classification (the lines of ecmarkup's `Table`
        constructor that validate `of`, default the caption and degrade the type). */
    constructor (spec: Spec, node: EmuTableElement, table: TableElement, tableType: TableType)
      requires tableType == AbstractMethodsTable ==> table.Existing? && table.index < |node.children|
      modifies spec
      ensures Valid()
      ensures this.spec == spec && this.node == node && this.table == table
      ensures this.tableType == Construct(node, tableType).tableType && of == Construct(node, tableType).of
      ensures methods == map[] && methodOrder == [] && id == Attribute(node, "id")
      ensures spec.warnings == old(spec.warnings) + Construct(node, tableType).warnings
      ensures spec.domEdits == old(spec.domEdits) + Construct(node, tableType).edits
      ensures spec.biblioAdds == old(spec.biblioAdds) && spec.biblio == old(spec.biblio)
      ensures spec.xrefs == old(spec.xrefs) && spec.concreteMethodDfnsLists == old(spec.concreteMethodDfnsLists)
    {
      var t := tableType;
      var ofAttribute: Option<string> := None;
      if t == AbstractMethodsTable {
        ofAttribute := Attribute(node, "of");
        if Truthy(ofAttribute) {
          if !Truthy(Attribute(node, "caption")) {
            spec.domEdits := spec.domEdits
              + [SetAttribute(TableNode(node.identity), "caption", "Abstract Methods of " + ofAttribute.value)];
          }
        } else {
          spec.warnings := spec.warnings + [NoOfWarning(node)];
          t := Untyped;
        }
      }
      this.spec := spec;
      this.node := node;
      this.table := table;
      this.tableType := t;
      this.of := ofAttribute;
      this.methods := map[];
      this.methodOrder := [];
      this.id := Attribute(node, "id");
    }

    /** The constructor's last step: an abstract-methods table reads its rows
        and registers its methods; an error the loop hits propagates. */
    method Classify() returns (error: Option<Fault>)
      requires Valid() && methods == map[] && methodOrder == []
      modifies this`methods, this`methodOrder, spec`warnings, spec`domEdits, spec`biblioAdds
      ensures Valid()
      ensures tableType == Untyped ==>
        error == None && methods == map[] && methodOrder == [] &&
        spec.warnings == old(spec.warnings) && spec.domEdits == old(spec.domEdits) && spec.biblioAdds == old(spec.biblioAdds)
      ensures tableType == AbstractMethodsTable ==>
        var p := Process(node, table.index, Progress(map[], [], old(spec.warnings), old(spec.domEdits), None));
        methods == p.methods && methodOrder == p.order && spec.warnings == p.warnings &&
        spec.domEdits == p.edits && error == p.error &&
        spec.biblioAdds == if p.error.None? then old(spec.biblioAdds) + InnerEntries(p.order, p.methods, id, spec.namespace)
                           else old(spec.biblioAdds)
    {
      error := None;
      if tableType == AbstractMethodsTable {
        error := ProcessAbstractMethodsDeclarations();
        if error.None? {
          DefineInnerBiblioEntries();
        }
      }
    }

    method ProcessAbstractMethodsDeclarations() returns (error: Option<Fault>)
      requires Valid() && tableType == AbstractMethodsTable
      modifies this`methods, this`methodOrder, spec`warnings, spec`domEdits
      ensures Valid()
      ensures var p := Process(node, table.index, Progress(old(methods), old(methodOrder), old(spec.warnings), old(spec.domEdits), None));
        methods == p.methods && methodOrder == p.order && spec.warnings == p.warnings &&
        spec.domEdits == p.edits && error == p.error
    {
      var tbody := node.children[table.index].tbody;
      if tbody.None? {
        return Some(MissingTbody);
      }
      var rows := tbody.value;
      ghost var p0 := Progress(methods, methodOrder, spec.warnings, spec.domEdits, None);
      assert Process(node, table.index, p0) == Run(p0, Steps(node.identity, rows), |rows|);
      var i := 0;
      error := None;
      while i < |rows|
        invariant 0 <= i <= |rows|
        invariant Valid()
        invariant error == None
        invariant Run(p0, Steps(node.identity, rows), i) == Progress(methods, methodOrder, spec.warnings, spec.domEdits, None)
      {
        error := ProcessRow(rows, i);
        if error.Some? {
          RunStoppedAt(p0, Steps(node.identity, rows), i + 1, |rows|);
          return;
        }
        i := i + 1;
      }
      return None;
    }

    /** One turn of the declarations loop: an early return is the `continue` of
        ecmarkup's loop,
        a returned fault its rethrow. */
    method ProcessRow(rows: seq<Row>, i: nat) returns (error: Option<Fault>)
      requires Valid() && i < |rows|
      modifies this`methods, this`methodOrder, spec`warnings, spec`domEdits
      ensures Valid()
      ensures Progress(methods, methodOrder, spec.warnings, spec.domEdits, error)
           == Apply(Progress(old(methods), old(methodOrder), old(spec.warnings), old(spec.domEdits), None),
                    Steps(node.identity, rows)[i])
    {
      var multi := |rows| > 1;
      var tr := rows[i];
      assert Steps(node.identity, rows)[i] == RowStep(node.identity, i, tr, multi);
      error := None;
      if |tr.cells| < 2 {
        spec.warnings := spec.warnings + [ShortRowWarning(node.identity, i)];
        return;
      }
      var cell := tr.cells[0];
      var located := LocateHeader(cell);
      if located.None? {
        return;
      }
      var header := located.value;
      var name := HeaderName(cell, header);
      if name != "TD" && name != "INS" {
        spec.warnings := spec.warnings + [MissingHeaderWarning(node.identity, i, header, name)];
        return;
      }
      if tr.parse.ParseFailure? {
        spec.warnings := spec.warnings + tr.parse.diagnostics;
        return;
      }
      var signature: Signature;
      match tr.parse.conversion {
        case TypeParseError(offset, message) =>
          spec.warnings := spec.warnings + [TypeParsingWarning(node.identity, i, header, tr.source, offset, message)];
          return;
        case InternalError(message) =>
          return Some(Rethrown(message));
        case Converted(s) =>
          signature := s;
      }
      var rowId := if tr.id == "" then None else Some(tr.id);
      RecordRow(i, multi && rowId.None?, tr.parse.name, MethodInfo(signature, rowId), header, name, tr.format);
    }

    /** The end of a turn that converted its header: the missing-id warning
        and the `methods.set`, then the header rewrite and the paragraph. */
    method RecordRow(i: nat, warnId: bool, mname: string, info: MethodInfo, header: HeaderLocation, name: string, f: FormattedHeader)
      requires Valid()
      modifies this`methods, this`methodOrder, spec`warnings, spec`domEdits
      ensures Valid()
      ensures Progress(methods, methodOrder, spec.warnings, spec.domEdits, None)
           == Apply(Progress(old(methods), old(methodOrder), old(spec.warnings), old(spec.domEdits), None),
                    Recorded(mname, info, if warnId then [MissingIdWarning(node.identity, i)] else [],
                             RowEdits(node.identity, i, header, name, f)))
    {
      ghost var before := Progress(methods, methodOrder, spec.warnings, spec.domEdits, None);
      SetRecorded(i, warnId, mname, info);
      RewriteRow(i, header, name, f);
      ApplyRecorded(before, mname, info, if warnId then [MissingIdWarning(node.identity, i)] else [],
                    RowEdits(node.identity, i, header, name, f));
    }

    /** The missing-id warning and the `methods.set`. */
    method SetRecorded(i: nat, warnId: bool, mname: string, info: MethodInfo)
      requires Valid()
      modifies this`methods, this`methodOrder, spec`warnings
      ensures Valid()
      ensures spec.warnings == old(spec.warnings) + if warnId then [MissingIdWarning(node.identity, i)] else []
      ensures methods == old(methods)[mname := info]
      ensures methodOrder == if mname in old(methods) then old(methodOrder) else old(methodOrder) + [mname]
    {
      if warnId {
        spec.warnings := spec.warnings + [MissingIdWarning(node.identity, i)];
      }
      SetMethodKeepsOrder(Progress(methods, methodOrder, [], [], None), mname, info);
      if mname !in methods {
        methodOrder := methodOrder + [mname];
      }
      methods := methods[mname := info];
    }

    /** The header rewrite and the paragraph put first in the second cell. */
    method RewriteRow(i: nat, header: HeaderLocation, name: string, f: FormattedHeader)
      modifies spec`domEdits
      ensures spec.domEdits == old(spec.domEdits) + RowEdits(node.identity, i, header, name, f)
    {
      if f.header.Some? {
        spec.domEdits := spec.domEdits + [SetInnerHtml(HeaderNode(node.identity, i, header), f.header.value)];
      }
      var paraText := Sentence(f);
      if name == "INS" {
        paraText := "<ins>" + paraText + "</ins>";
      }
      spec.domEdits := spec.domEdits + [InsertFirstChild(CellNode(node.identity, i, 1), Paragraph(paraText))];
    }

    method DefineInnerBiblioEntries()
      requires Valid()
      modifies spec`biblioAdds
      ensures spec.biblioAdds == old(spec.biblioAdds) + InnerEntries(methodOrder, methods, id, spec.namespace)
    {
      var k := 0;
      while k < |methodOrder|
        invariant 0 <= k <= |methodOrder|
        invariant spec.biblioAdds == old(spec.biblioAdds) + InnerEntries(methodOrder[..k], methods, id, spec.namespace)
      {
        var name := methodOrder[k];
        var info := methods[name];
        assert InnerEntries(methodOrder[..k + 1], methods, id, spec.namespace)
            == InnerEntries(methodOrder[..k], methods, id, spec.namespace) + [(InnerEntry(name, info, id), spec.namespace)];
        spec.biblioAdds := spec.biblioAdds + [(InnerEntry(name, info, id), spec.namespace)];
        k := k + 1;
      }
      assert methodOrder[..k] == methodOrder;
    }
  }

  /** `Table.enter`: validate the type, find the inner table, construct
      and classify. The figure wrapping that follows is not part of this model. */
  method Enter(spec: Spec, node: EmuTableElement) returns (t: Table, error: Option<Fault>)
    modifies spec
    ensures fresh(t) && t.Valid() && t.spec == spec && t.node == node && t.id == Attribute(node, "id")
    ensures var o := TableOutcome(node, spec.namespace, old(spec.warnings), old(spec.domEdits), old(spec.biblioAdds));
      t.tableType == o.tableType && t.table == o.table && t.of == o.of &&
      t.methods == o.methods && t.methodOrder == o.order &&
      spec.warnings == o.warnings && spec.domEdits == o.edits && spec.biblioAdds == o.adds && error == o.error
    ensures spec.xrefs == old(spec.xrefs) && spec.concreteMethodDfnsLists == old(spec.concreteMethodDfnsLists)
    ensures spec.biblio == old(spec.biblio)
  {
    var tableType, tableEl := CheckTypeAndTable(spec, node);
    t := new Table(spec, node, tableEl, if tableType == Some(AbstractMethods) then AbstractMethodsTable else Untyped);
    error := t.Classify();
  }

  /** The checks `enter` makes before constructing: an invalid `type` is
      warned and dropped; a typed table without an inner `<table>` is warned
      and dropped, an untyped one gets a fresh table. */
  method CheckTypeAndTable(spec: Spec, node: EmuTableElement) returns (tableType: Option<string>, tableEl: TableElement)
    modifies spec`warnings
    ensures tableEl == CheckEnter(node).table
    ensures (if tableType == Some(AbstractMethods) then AbstractMethodsTable else Untyped) == CheckEnter(node).tableType
    ensures spec.warnings == old(spec.warnings) + CheckEnter(node).warnings
  {
    tableType := Attribute(node, "type");
    if Truthy(tableType) && tableType.value != AbstractMethods {
      spec.warnings := spec.warnings + [InvalidTypeWarning(node, tableType.value)];
      tableType := None;
    }
    var found := FirstFailing(node.children, 0, IsGenerated);
    tableEl := if found.Some? then Existing(found.value) else Missing(None);
    if found.None? || node.children[found.value].name != "TABLE" {
      if Truthy(tableType) {
        spec.warnings := spec.warnings + [TableMissingWarning(node, tableType.value)];
        tableType := None;
        tableEl := Missing(found);
      } else {
        tableEl := Created;
      }
    }
  }

  // Lemmas.

  /** Nothing happens once the loop has stopped on an error. */
  lemma {:induction false} RunStoppedAt(p0: Progress, steps: seq<RowOutcome>, k: nat, m: nat)
    requires k <= m <= |steps| && Run(p0, steps, k).error.Some?
    ensures Run(p0, steps, m) == Run(p0, steps, k)
  {
    if m > k {
      RunStoppedAt(p0, steps, k, m - 1);
    }
  }

  lemma ApplyRecorded(p: Progress, name: string, info: MethodInfo, w: seq<Warning>, e: seq<DomEdit>)
    requires p.error.None?
    ensures Apply(p, Recorded(name, info, w, e)) ==
      Progress(p.methods[name := info], if name in p.methods then p.order else p.order + [name],
               p.warnings + w, p.edits + e, None)
  {
  }

  /** A set on the insertion-ordered map keeps it well formed. */
  lemma SetMethodKeepsOrder(p: Progress, name: string, info: MethodInfo)
    requires OrderMatches(p.order, p.methods)
    ensures OrderMatches(SetMethod(p, name, info).order, SetMethod(p, name, info).methods)
  {
  }

  lemma {:induction false} RunKeepsOrderAt(p0: Progress, steps: seq<RowOutcome>, k: nat)
    requires k <= |steps| && OrderMatches(p0.order, p0.methods)
    ensures OrderMatches(Run(p0, steps, k).order, Run(p0, steps, k).methods)
  {
    if k > 0 {
      RunKeepsOrderAt(p0, steps, k - 1);
      ApplyKeepsOrder(Run(p0, steps, k - 1), steps[k - 1]);
    }
  }

  lemma ApplyKeepsOrder(p: Progress, o: RowOutcome)
    requires OrderMatches(p.order, p.methods)
    ensures OrderMatches(Apply(p, o).order, Apply(p, o).methods)
  {
    if p.error.None? && o.Recorded? {
      SetMethodKeepsOrder(p.(warnings := p.warnings + o.warned), o.name, o.info);
    }
  }

  /** The loop keeps the recorded methods and their order in step. */
  lemma RunKeepsOrder(node: EmuTableElement, index: nat, p0: Progress)
    requires index < |node.children| && OrderMatches(p0.order, p0.methods)
    ensures OrderMatches(Process(node, index, p0).order, Process(node, index, p0).methods)
  {
    if node.children[index].tbody.Some? {
      var rows := node.children[index].tbody.value;
      RunKeepsOrderAt(p0, Steps(node.identity, rows), |rows|);
    }
  }
}
