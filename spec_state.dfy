/** The parts of the document compiler's shared `spec` object that the table
    classifier and the concrete-method listing read and write: the warning
    sink, the biblio (written through `add`, read through two lookup maps),
    the pending lists of concrete-method listings and cross-references, and
    the document tree, whose mutations are recorded as a log of edits. */
module SpecState {

  datatype Option<T> = None | Some(value: T)

  /** Where the header of a table row was found inside the row's first cell. */
  datatype HeaderLocation = FirstCell | CellChild(index: nat)

  /** A node of the document that a warning or an edit refers to. Nodes of an
      `<emu-table>` are named by the table element's own identity `table`. */
  datatype NodeRef =
    | TableNode(table: nat)
    | RowNode(table: nat, row: nat)
    | HeaderNode(table: nat, row: nat, at: HeaderLocation)
    | CellNode(table: nat, row: nat, cell: nat)
    | ListingNode(listing: nat)
    | ListingXrefNode(listing: nat, item: nat)

  /** `type: 'node'` warnings point at a node; `type: 'contents'` ones at a
      line and column inside it. */
  datatype WarningKind = NodeWarning | ContentsWarning

  /** What a warning reports. The core's own warnings are named by their
      cause; a warning raised by a collaborator (the header parser) carries
      its rule id and message as given. */
  datatype Diagnostic =
    | InvalidTableType(tableType: string)
    | TableMissing(tableType: string)
    | MissingOf
    | ShortRow
    | MissingHeader(found: string)
    | TypeParsing(message: string)
    | MissingRowId
    | Reported(ruleId: string, message: string)

  /** The warning's `ruleId`. */
  function RuleId(d: Diagnostic): string
  {
    match d
    case InvalidTableType(_) => "emu-table-invalid-type"
    case TableMissing(_) => "emu-table-missing"
    case MissingOf => "emu-abstract-methods-invalid"
    case ShortRow => "emu-abstract-methods-invalid"
    case MissingHeader(_) => "missing-header"
    case TypeParsing(_) => "type-parsing"
    case MissingRowId => "abstract-method-id"
    case Reported(ruleId, _) => ruleId
  }

  /** The warning's `message`; `found` is already lower-cased. */
  function MessageText(d: Diagnostic): string
  {
    match d
    case InvalidTableType(t) => "<emu-table> has invalid type \"" + t + "\""
    case TableMissing(t) => "<emu-table type=\"" + t + "\"> must contain a <table> element"
    case MissingOf => "<emu-table type=\"abstract methods\"> must have an 'of' attribute"
    case ShortRow => "<emu-table type=\"abstract methods\"> <tr>s must contain at least two <td>s"
    case MissingHeader(found) => "could not locate header element; found <" + found + ">"
    case TypeParsing(message) => message
    case MissingRowId => "<tr>s which define abstract methods should have their own id"
    case Reported(_, message) => message
  }

  /** A reported warning: `ruleId` and `message` are `RuleId(diagnostic)` and
      `MessageText(diagnostic)`. */
  datatype Warning = Warning(
    kind: WarningKind, diagnostic: Diagnostic, node: NodeRef,
    line: Option<nat>, column: Option<nat>)

  /** A signature produced by the header parser; its structure belongs to
      the parser, which is not part of this model. */
  datatype Signature = Signature(text: string)

  /** The biblio entry kinds the core creates or reads. */
  datatype BiblioEntry =
    | OpEntry(aoid: string, kind: string, id: Option<string>, refId: Option<string>,
              signature: Signature, effects: seq<string>, forType: Option<string>)
    | ClauseEntry(id: Option<string>, refId: Option<string>, number: string)
    | OtherEntry(id: Option<string>, refId: Option<string>)

  /** The biblio as the listing reads it: entries by id, and op entries by
      (namespace, aoid) in registration order. */
  datatype BiblioIndex = BiblioIndex(
    byId: map<string, BiblioEntry>,
    byAoid: map<(string, string), seq<BiblioEntry>>)

  /** One `<li><emu-xref href=…>text</emu-xref></li>` of a listing. */
  datatype ListItem = ListItem(href: string, text: string)

  /** Elements the core creates and inserts. */
  datatype NewElement = Paragraph(html: string) | UnorderedList(items: seq<ListItem>)

  /** The mutations the core makes to the document tree. */
  datatype DomEdit =
    | SetAttribute(node: NodeRef, name: string, value: string)
    | SetInnerHtml(node: NodeRef, html: string)
    | InsertFirstChild(parent: NodeRef, child: NewElement)
    | AppendChild(parent: NodeRef, child: NewElement)

  /** The clause enclosing a node, as far as the listing uses it. */
  datatype ClauseContext = ClauseContext(id: string, namespace: string)

  /** A cross-reference queued for the second pass. */
  datatype XrefRecord = XrefRecord(node: NodeRef, parentClause: Option<ClauseContext>, namespace: string, href: string)

  /** An `<emu-concrete-method-dfns>` element captured by `enter`: its fields
      never change after construction. */
  datatype ConcreteMethodDfns = ConcreteMethodDfns(node: nat, forName: string, parentClause: Option<ClauseContext>)

  class Spec {
    /** The document's own namespace. */
    const namespace: string
    /** Every warning reported so far, in order. */
    var warnings: seq<Warning>
    /** Every `biblio.add(entry, namespace)` call so far, in order. */
    var biblioAdds: seq<(BiblioEntry, string)>
    /** The completed biblio that the second pass reads. */
    var biblio: BiblioIndex
    /** Every tree mutation so far, in order. */
    var domEdits: seq<DomEdit>
    /** `_xrefs`. */
    var xrefs: seq<XrefRecord>
    /** `_concreteMethodDfnsLists`. */
    var concreteMethodDfnsLists: seq<ConcreteMethodDfns>

    constructor (namespace: string, biblio: BiblioIndex)
      ensures this.namespace == namespace && this.biblio == biblio
      ensures warnings == [] && biblioAdds == [] && domEdits == [] && xrefs == [] && concreteMethodDfnsLists == []
    {
      this.namespace := namespace;
      this.biblio := biblio;
      warnings, biblioAdds, domEdits, xrefs, concreteMethodDfnsLists := [], [], [], [], [];
    }
  }
}
