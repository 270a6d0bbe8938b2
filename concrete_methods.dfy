/** The `<emu-concrete-method-dfns for=…>` builder: `enter` queues the
    element with its enclosing clause, and `build`, in the second pass,
    fills it with a list linking to every concrete definition of the
    abstract method `for` in the listing's namespace. */
module ConcreteMethods {
  import opened SpecState

  /** `enter`: the queued listing remembers the innermost enclosing clause,
      if any. */
  method Enter(spec: Spec, node: nat, forName: string, clauseStack: seq<ClauseContext>)
    modifies spec`concreteMethodDfnsLists
    ensures spec.concreteMethodDfnsLists == old(spec.concreteMethodDfnsLists) + [Queued(node, forName, clauseStack)]
  {
    var parentClause := if |clauseStack| > 0 then Some(clauseStack[|clauseStack| - 1]) else None;
    spec.concreteMethodDfnsLists := spec.concreteMethodDfnsLists + [ConcreteMethodDfns(node, forName, parentClause)];
  }

  /** The listing `enter` queues. */
  function Queued(node: nat, forName: string, clauseStack: seq<ClauseContext>): (d: ConcreteMethodDfns)
    ensures d.node == node && d.forName == forName
    ensures d.parentClause.None? <==> clauseStack == []
    ensures d.parentClause.Some? ==> d.parentClause.value == clauseStack[|clauseStack| - 1]
  {
    ConcreteMethodDfns(node, forName, if clauseStack == [] then None else Some(clauseStack[|clauseStack| - 1]))
  }

  /** The namespace the listing is resolved in: its clause's, else the document's. */
  function ListingNamespace(specNamespace: string, d: ConcreteMethodDfns): string
  {
    if d.parentClause.Some? then d.parentClause.value.namespace else specNamespace
  }

  /** `byAbstractMethodAoid(for, namespace) ?? []`. */
  function Definitions(biblio: BiblioIndex, forName: string, namespace: string): seq<BiblioEntry>
  {
    if (namespace, forName) in biblio.byAoid then biblio.byAoid[(namespace, forName)] else []
  }

  /** `def.id ?? def.refId`: the id an item links to. */
  function Anchor(def: BiblioEntry): Option<string>
  {
    if def.id.Some? then def.id else def.refId
  }

  /** The id of a definition resolves to a biblio entry. */
  predicate Declared(biblio: BiblioIndex, def: BiblioEntry)
  {
    Anchor(def).Some? && Anchor(def).value in biblio.byId
  }

  /** How many definitions are listed before one whose declaration is
      missing (reading its `number` throws), or all of them. */
  function Listed(biblio: BiblioIndex, defs: seq<BiblioEntry>): (n: nat)
    ensures n <= |defs|
    ensures forall k :: 0 <= k < n ==> Declared(biblio, defs[k])
    ensures n < |defs| ==> !Declared(biblio, defs[n])
  {
    var stop := FirstUndeclared(biblio, defs, 0);
    if stop.Some? then stop.value else |defs|
  }

  /** The first undeclared definition at or after `from`. */
  function FirstUndeclared(biblio: BiblioIndex, defs: seq<BiblioEntry>, from: nat): (r: Option<nat>)
    ensures r.None? ==> forall k :: from <= k < |defs| ==> Declared(biblio, defs[k])
    ensures r.Some? ==> from <= r.value < |defs| && !Declared(biblio, defs[r.value])
    ensures r.Some? ==> forall k :: from <= k < r.value ==> Declared(biblio, defs[k])
    decreases |defs| - from
  {
    if from >= |defs| then None
    else if Declared(biblio, defs[from]) then FirstUndeclared(biblio, defs, from + 1)
    else Some(from)
  }

  /** `${declaration.number}`: a declaration without a number prints as `undefined`. */
  function NumberText(declaration: BiblioEntry): string
  {
    if declaration.ClauseEntry? then declaration.number else "undefined"
  }

  /** `${def.for}`: the type a concrete definition is for, `undefined` when it has none. */
  function ForText(def: BiblioEntry): string
  {
    if def.OpEntry? && def.forType.Some? then def.forType.value else "undefined"
  }

  /** The item for a declared definition. */
  function Item(biblio: BiblioIndex, def: BiblioEntry): ListItem
    requires Declared(biblio, def)
  {
    ListItem("#" + Anchor(def).value, NumberText(biblio.byId[Anchor(def).value]) + " " + ForText(def))
  }

  /** The items of the first `n` definitions, all declared. */
  function Items(biblio: BiblioIndex, defs: seq<BiblioEntry>, n: nat): (items: seq<ListItem>)
    requires n <= |defs| && forall k :: 0 <= k < n ==> Declared(biblio, defs[k])
    ensures |items| == n
  {
    seq(n, k requires 0 <= k < n => Item(biblio, defs[k]))
  }

  /** The cross-reference queued for item `k` of listing `d`. */
  function ItemXref(d: ConcreteMethodDfns, namespace: string, k: nat, item: ListItem): XrefRecord
  {
    XrefRecord(ListingXrefNode(d.node, k), d.parentClause, namespace, item.href)
  }

  /** The cross-references queued for items. */
  function ItemXrefs(d: ConcreteMethodDfns, namespace: string, items: seq<ListItem>): (xs: seq<XrefRecord>)
    ensures |xs| == |items|
  {
    seq(|items|, k requires 0 <= k < |items| => ItemXref(d, namespace, k, items[k]))
  }

  /** Why `build` stopped: definition `index` names no declaration. */
  datatype ListingFault = MissingDeclaration(index: nat)

  /** `build`: one item and one queued cross-reference per definition, in
      order, and the list appended to the element; a definition whose
      declaration is missing throws after the earlier items' references
      were queued, and nothing is appended. */
  method Build(spec: Spec, d: ConcreteMethodDfns) returns (error: Option<ListingFault>)
    modifies spec`xrefs, spec`domEdits
    ensures var ns := ListingNamespace(spec.namespace, d);
      var defs := Definitions(spec.biblio, d.forName, ns);
      var n := Listed(spec.biblio, defs);
      (error.None? <==> n == |defs|) && (error.Some? ==> error.value == MissingDeclaration(n)) &&
      spec.xrefs == old(spec.xrefs) + ItemXrefs(d, ns, Items(spec.biblio, defs, n)) &&
      spec.domEdits == old(spec.domEdits) +
        (if error.None? then [AppendChild(ListingNode(d.node), UnorderedList(Items(spec.biblio, defs, n)))] else [])
  {
    var namespace := if d.parentClause.Some? then d.parentClause.value.namespace else spec.namespace;
    var definitions := if (namespace, d.forName) in spec.biblio.byAoid then spec.biblio.byAoid[(namespace, d.forName)] else [];
    ghost var xrefs0 := spec.xrefs;
    var ul: seq<ListItem> := [];
    for k := 0 to |definitions|
      invariant forall j :: 0 <= j < k ==> Declared(spec.biblio, definitions[j])
      invariant ul == Items(spec.biblio, definitions, k)
      invariant spec.xrefs == xrefs0 + ItemXrefs(d, namespace, ul)
      invariant spec.domEdits == old(spec.domEdits)
    {
      var def := definitions[k];
      var id := if def.id.Some? then def.id else def.refId;
      if id.None? || id.value !in spec.biblio.byId {
        assert Listed(spec.biblio, definitions) == k;
        return Some(MissingDeclaration(k));
      }
      var declaration := spec.biblio.byId[id.value];
      var href := "#" + id.value;
      var item := ListItem(href, NumberText(declaration) + " " + ForText(def));
      ul := ul + [item];
      assert ul == Items(spec.biblio, definitions, k + 1);
      spec.xrefs := spec.xrefs + [XrefRecord(ListingXrefNode(d.node, k), d.parentClause, namespace, href)];
      assert ItemXrefs(d, namespace, ul) == ItemXrefs(d, namespace, ul[..k]) + [ItemXref(d, namespace, k, item)];
    }
    assert Listed(spec.biblio, definitions) == |definitions|;
    spec.domEdits := spec.domEdits + [AppendChild(ListingNode(d.node), UnorderedList(ul))];
    return None;
  }

  /** No definitions, or a lookup that finds nothing, gives an empty list and
      queues no cross-reference. */
  lemma EmptyListing(biblio: BiblioIndex, d: ConcreteMethodDfns, namespace: string)
    requires (namespace, d.forName) !in biblio.byAoid
    ensures var defs := Definitions(biblio, d.forName, namespace);
      Listed(biblio, defs) == |defs| && Items(biblio, defs, Listed(biblio, defs)) == [] &&
      ItemXrefs(d, namespace, Items(biblio, defs, Listed(biblio, defs))) == []
  {
  }

  /** Every definition is listed just when every one's id resolves; item `k`
      then belongs to definition `k`. */
  lemma ListedIff(biblio: BiblioIndex, defs: seq<BiblioEntry>)
    ensures Listed(biblio, defs) == |defs| <==> forall k :: 0 <= k < |defs| ==> Declared(biblio, defs[k])
  {
  }

  /** Item `k` links to `#` and the definition's own id, or its `refId`
      when it has no id, and reads the number of the declaration with that
      id, a space and the type the definition is for. */
  lemma ItemMeaning(biblio: BiblioIndex, defs: seq<BiblioEntry>, n: nat, k: nat)
    requires n <= |defs| && (forall j :: 0 <= j < n ==> Declared(biblio, defs[j])) && k < n
    ensures var item := Items(biblio, defs, n)[k];
      |item.href| >= 1 && item.href[0] == '#' &&
      (defs[k].id.Some? ==> item.href[1..] == defs[k].id.value) &&
      (defs[k].id.None? ==> defs[k].refId.Some? && item.href[1..] == defs[k].refId.value) &&
      item.href[1..] in biblio.byId &&
      item.text == NumberText(biblio.byId[item.href[1..]]) + " " + ForText(defs[k])
  {
    var item := Items(biblio, defs, n)[k];
    assert item == Item(biblio, defs[k]);
    assert item.href[1..] == Anchor(defs[k]).value;
  }

  /** The references grow by exactly one per item; the reference for item `k`
      sits on that item's link, in the listing's clause and namespace, with
      the item's href. */
  lemma XrefsMatchItems(d: ConcreteMethodDfns, namespace: string, items: seq<ListItem>, k: nat)
    requires k < |items|
    ensures var xs := ItemXrefs(d, namespace, items);
      |xs| == |items| && xs[k].node == ListingXrefNode(d.node, k) && xs[k].href == items[k].href &&
      xs[k].parentClause == d.parentClause && xs[k].namespace == namespace
  {
  }

  /** A listing outside any clause is resolved in the document's namespace,
      one queued inside a stack of clauses in the innermost clause's. */
  lemma NamespaceOfQueued(specNamespace: string, node: nat, forName: string, clauseStack: seq<ClauseContext>)
    ensures ListingNamespace(specNamespace, Queued(node, forName, clauseStack)) ==
      if clauseStack == [] then specNamespace else clauseStack[|clauseStack| - 1].namespace
  {
  }
}
