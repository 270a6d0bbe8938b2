# ecmarkup core: abstract-methods tables, concrete-method listings, clause numbers, positioned templates

A Dafny model of four pieces of the ecmarkup specification compiler:

- **`<emu-table>`** (`Table.enter`, the `Table` constructor,
  `processAbstractMethodsDeclarations`, `defineInnerBiblioEntries`): the element's
  `type` is validated, the inner `<table>` is found past generated captions
  and empty spans (or created), and a table of type `abstract methods` with an
  `of` attribute reads one abstract-method declaration per body row, rewrites
  the header, inserts a descriptive paragraph and registers one `op` biblio
  entry per method.
- **`<emu-concrete-method-dfns for=…>`** (`ConcreteMethodDfns.enter` and
  `build`): the element is queued with its enclosing clause in the first
  pass; in the second it is filled with a list linking to every concrete
  definition of the abstract method, with one cross-reference queued per item.
- **The clause-number iterator**, as exercised by the clause-id test:
  decimal numbers by depth, letters for annexes at the top level.
- **The `positioned` / `multipositioned` template tags** of the test helpers,
  which assemble a template's html and record the offset, line and column of
  every interpolated location marker.

The shared `spec` object is the class `SpecState.Spec`: its warning sink
(`warnings`), the `biblio.add` calls (`biblioAdds`), the completed biblio the
second pass reads (`biblio`: entries by id and op entries by namespace and
aoid), the queued `_xrefs` and `_concreteMethodDfnsLists`, and every mutation
of the document tree as a log of edits (`domEdits`). Warnings carry a
`Diagnostic` whose `RuleId` and `MessageText` are ecmarkup's rule ids and
messages. The `Table` is a class whose `methods` map (an insertion-ordered
JavaScript `Map`, modelled as a map plus its key order) is filled in place by
the row loop. Each imperative method is specified by a function of the old
state (`Tables.TableOutcome`, `Tables.Process`, `Tables.Run`,
`ConcreteMethods.Items`, `TemplatePositions.HtmlAfter`,
`ClauseNumbers.Step`), and the properties are lemmas about those functions.

Files: `text.dfy` (string helpers: JavaScript `split`, UTF-16 lengths, line
and column, decimals, lower case), `spec_state.dfy`, `table.dfy`, `table_properties.dfy`,
`concrete_methods.dfy`, `clause_numbers.dfy`, `positioned.dfy`.

Two consequences of the code are worth stating, because they are easy to
miss:

- The table's methods are stored in a map keyed by name, so a later row
  with the same name replaces the earlier one, and one biblio entry is
  registered per distinct name (`TableProperties.LastWins`); none are
  registered at all when a row threw.
- The abstract-method entries are registered under the document's
  namespace, `spec.namespace` (src/Table.ts:165).

JavaScript strings are sequences of UTF-16 code units, while Dafny's `char`
is a Unicode scalar value. Every length, offset and column ecmarkup's code takes
with `length` is computed here with `Text.Units`, which counts a character
outside the Basic Multilingual Plane as two.

## Model

| member | source | states |
|---|---|---|
| Tables.Enter | src/Table.ts:169-209 | Entering an `<emu-table>` leaves the table object and the spec exactly as `TableOutcome` describes from the old warnings, edits and biblio calls; cross-references, queued listings and the completed biblio are untouched. |
| Tables.CheckTypeAndTable | src/Table.ts:170-199 | The type check and inner-table search append exactly the `enter` warnings and return the validated type and the inner table. |
| TableProperties.InvalidTypeDegrades | src/Table.ts:170-180 | A truthy `type` other than `abstract methods` gives one `emu-table-invalid-type` warning, an ordinary table, no missing-table warning, and no methods, edits or biblio entries. |
| TableProperties.InnerTableFound | src/Table.ts:182-187 | The inner table is found just when some child is a `<table>` with only generated captions or empty spans before it, and then it is that child. |
| TableProperties.TypedWithoutTable | src/Table.ts:187-195 | A typed table without an inner `<table>` gets one `emu-table-missing` warning and is demoted to an ordinary table; nothing is recorded. |
| TableProperties.UntypedGetsFreshTable | src/Table.ts:187-199 | An untyped table without an inner `<table>` gets a freshly created one and no missing-table warning. |
| TableProperties.NoOfDegrades | src/Table.ts:26-41 | A typed table without a truthy `of` gets one `emu-abstract-methods-invalid` warning and is demoted before any row is read; no edits, methods or entries. |
| TableProperties.AbstractMethodsIff | src/Table.ts:26-54 | A table ends up an abstract-methods table exactly when its type is `abstract methods`, the inner table was found, and it has an `of`. |
| TableProperties.CaptionDefault | src/Table.ts:29-32 | Without a caption the first new edit sets `caption` to `Abstract Methods of ` followed by `of`; with one, no attribute is ever set. |
| Tables.Table.constructor | src/Table.ts:19-49 | The new table's type, `of`, empty method map and id, and the spec's warnings and edits, are those of `Construct`; the biblio is untouched. |
| Tables.Table.Classify | src/Table.ts:51-54 | An ordinary table changes nothing; an abstract-methods table runs the row loop and, unless it threw, registers the entries for the methods in insertion order. |
| Tables.Table.ProcessAbstractMethodsDeclarations | src/Table.ts:57-151 | The loop leaves the methods, their order, the warnings and the edits equal to `Process` of the rows, and stops with its error; a missing `<tbody>` is a fault. |
| Tables.Table.ProcessRow | src/Table.ts:61-150 | One turn of the loop changes the state exactly as `Apply` of that row's outcome. |
| Tables.Table.RecordRow | src/Table.ts:126-149 | The end of a turn that converted its header changes the state exactly as `Apply` of the row's `Recorded` outcome: the missing-id warning when asked for, the map update, then the row's edits. |
| Tables.Table.SetRecorded | src/Table.ts:126-136 | The missing-id warning when asked for, and `methods.set`: a new name goes last in the order, a known one keeps its place. |
| Tables.Table.RewriteRow | src/Table.ts:138-149 | The edits appended are the header rewrite when there is one, then the paragraph. |
| Tables.Table.DefineInnerBiblioEntries | src/Table.ts:153-167 | The biblio calls grow by exactly `InnerEntries` of the methods, in insertion order, under the document's namespace. |
| TableProperties.ShortRowSkipped | src/Table.ts:62-70 | A row with fewer than two cells is skipped with exactly one `emu-abstract-methods-invalid` warning on the row, with ecmarkup's message. |
| TableProperties.HeaderLocationMeaning | src/Table.ts:72-87 | The header is, from the first non-blank child of the first cell: after a leading `<del>` the first element that is not a `<del>`, none when only deletions follow; a leading `<ins>` itself; otherwise the cell, in both directions. |
| TableProperties.MissingHeaderWarned | src/Table.ts:88-96 | A located header that is neither `TD` nor `INS` skips the row with one `missing-header` warning on it naming the lower-cased tag found. |
| TableProperties.HeaderOutcomes | src/Table.ts:98-124 | A parse failure passes on exactly the parser's own warnings; a `ParseError` gives one `type-parsing` contents warning with its message; the row aborts exactly when conversion throws anything else, with that error. |
| TableProperties.TypeParsingPosition | src/Table.ts:111-118 | The `type-parsing` warning's line is the number of newlines before the code-unit offset plus one and its column the code units since the last newline plus one; an offset past the end stands at the end, one inside the header source cuts at most one code unit short. |
| Text.UnitPrefix | src/Table.ts:111 | The header source cut at a code-unit offset is the longest prefix no longer than the offset. |
| TableProperties.RecordedIff | src/Table.ts:61-136 | A row records a method exactly when it has two cells, an accepted header, a successful parse and conversion; the method is recorded under the parsed name with the row's id, absent when the id is empty. |
| TableProperties.MissingIdIff | src/Table.ts:126-134 | A recorded row is warned `abstract-method-id` exactly when the body has more than one row and the row has no id. |
| TableProperties.ParagraphInserted | src/Table.ts:145-148 | For an `INS` header the paragraph is `<ins>`, then the whole generated sentence, then `</ins>`; otherwise it is the bare sentence, so it begins with `<ins>` exactly when the header is an `INS`. |
| TableProperties.RowEditsShape | src/Table.ts:143-149 | A recorded row rewrites the header only when the formatter gives a replacement, and its last edit puts the paragraph first into the row's second cell; no attribute is set. |
| TableProperties.RunAppends | src/Table.ts:61-150 | The loop only appends to the warnings, the edits and the method order, and sets no attribute. |
| TableProperties.ProcessAppends | src/Table.ts:57-151 | The same for the loop over a table's body. |
| TableProperties.LastWins | src/Table.ts:136 | Without errors, a name is in the map exactly when it was before or some row recorded it, and its value is that of the last such row. |
| TableProperties.ThrowStops | src/Table.ts:121-123 | A row that throws ends the loop: the final state is the state before that row, with its error, whatever rows follow. |
| Tables.RunStoppedAt | src/Table.ts:121-123 | Once the loop has an error, later rows change nothing. |
| Tables.RunKeepsOrder | src/Table.ts:136 | The method order lists every key of the map exactly once after the loop. |
| TableProperties.InnerEntriesMeaning | src/Table.ts:153-166 | One entry per method, in insertion order, none repeated and none missing: type `op`, kind `abstract method`, aoid the name, id the row id, refId the table id, the method's signature, no effects, the document's namespace. |
| ConcreteMethods.Enter | src/ConcreteMethodDfns.ts:23-29 | `enter` queues exactly one listing, after those already queued. |
| ConcreteMethods.Queued | src/ConcreteMethodDfns.ts:24-27 | The queued listing's clause is the top of the clause stack, and absent exactly when the stack is empty. |
| ConcreteMethods.NamespaceOfQueued | src/ConcreteMethodDfns.ts:33 | A listing resolves in its innermost clause's namespace, or the document's outside any clause. |
| ConcreteMethods.Build | src/ConcreteMethodDfns.ts:31-62 | `build` queues one cross-reference per listed definition, in order, and appends the list of their items; it fails exactly when a definition's declaration is missing, after queuing the earlier references and without appending. |
| ConcreteMethods.Listed | src/ConcreteMethodDfns.ts:39-46 | The listed definitions are the longest prefix whose ids all resolve. |
| ConcreteMethods.ListedIff | src/ConcreteMethodDfns.ts:39-46 | Every definition is listed exactly when every one's id resolves. |
| ConcreteMethods.EmptyListing | src/ConcreteMethodDfns.ts:35-37 | A lookup that finds nothing gives an empty list and no cross-references. |
| ConcreteMethods.ItemMeaning | src/ConcreteMethodDfns.ts:40-46 | Item `k` links to `#` and definition `k`'s id, or its refId when it has none, and reads that declaration's number, a space and the type the definition is for. |
| ConcreteMethods.XrefsMatchItems | src/ConcreteMethodDfns.ts:50-58 | One cross-reference per item, on that item's link, in the listing's clause and namespace, with its href. |
| ConcreteMethods.FirstUndeclared | src/ConcreteMethodDfns.ts:39-46 | The first definition at or after a point whose id does not resolve, with every one before it resolving. |
| ClauseNumbers.Step | test/clauseIds.ts:22-31 | A step keeps the counters above the node's depth, bumps the counter at that depth (or starts it at 1), drops every deeper one, and enters annex mode at the first top-level annex, never leaving it. |
| ClauseNumbers.ClauseNumberIterator.Next | test/clauseIds.ts:22-31 | One call moves the iterator by `Step` for the ancestor count and kind and returns the rendered number. |
| ClauseNumbers.GeneratingClauseIds | test/clauseIds.ts:22-31 | The ten calls of the clause-id test return `1`, `1.1`, `1.2`, `1.2.1`, `2`, `A`, `A.1`, `A.2`, `A.2.1`, `B`. |
| ClauseNumbers.NumberFour | test/clauseIds.ts:22-30 | A fresh iterator (or, for annexes, one past the second top-level clause) numbers a top-level node, two children and a grandchild as `1`, `1.1`, `1.2`, `1.2.1` (or `A`, `A.1`, `A.2`, `A.2.1`) and ends on the path `[1, 2, 1]`. |
| ClauseNumbers.ChildNumber | test/clauseIds.ts:23-25 | A child gets its parent's number, a dot and the next counter at its depth (1 for a first child); deeper levels are dropped, in both modes. |
| ClauseNumbers.TopLevelClause | test/clauseIds.ts:26 | A top-level clause bumps only the top counter. |
| ClauseNumbers.FirstAnnex | test/clauseIds.ts:27 | The first top-level annex is `A` whatever came before, and annex mode begins. |
| ClauseNumbers.NextAnnex | test/clauseIds.ts:31 | A later top-level annex takes the next letter. |
| ClauseNumbers.StepAdvances | test/clauseIds.ts:22-31 | Every step moves strictly forward in document order and never leaves annex mode. |
| ClauseNumbers.AdvancesStrict | test/clauseIds.ts:22-31 | Document order is a strict order, so numbering never revisits a state. |
| ClauseNumbers.LexBump | test/clauseIds.ts:22-31 | Bumping the counter at a depth, or opening a new level, gives a later path. |
| Text.DecimalRoundTrip | test/clauseIds.ts:22-31 | A counter's decimal rendering reads back as the counter. |
| TemplatePositions.Multipositioned | test/utils.ts:32-61 | Throws the at-least-once message exactly when no marker is interpolated; otherwise returns the html and positions of the loop's specification. |
| TemplatePositions.Positioned | test/utils.ts:20-30 | Succeeds exactly when the marker is interpolated once, returning that marker's position and the html; otherwise throws the exactly-once message. |
| TemplatePositions.ExactlyOnce | test/utils.ts:24-25 | The `indexOf` / `lastIndexOf` check holds exactly when there is one marker, at the first index. |
| TemplatePositions.IndexOf | test/utils.ts:24 | `indexOf` is -1 exactly when there is no marker, and otherwise the first marker's index. |
| TemplatePositions.LastIndexOf | test/utils.ts:25 | `lastIndexOf` is -1 exactly when there is no marker, and otherwise the last marker's index. |
| TemplatePositions.MarkerIndexes | test/utils.ts:36-39 | Every listed index is the index of a marker interpolation, and the list increases. |
| TemplatePositions.MarkerIndexesComplete | test/utils.ts:36-39 | Every marker interpolation's index is listed. |
| TemplatePositions.PositionCount | test/utils.ts:36-54 | There is one position per marker interpolation. |
| TemplatePositions.PositionsAtMarkers | test/utils.ts:49-54 | Position `j` is at the end of the html built before marker `j`: offset its length in UTF-16 code units, line its newlines plus one, column the code units since its last newline plus one. |
| TemplatePositions.PositionAtMarker | test/utils.ts:49-54 | The same statement for one marker `j`, from which the one for all markers is assembled. |
| TemplatePositions.AstralMarker | test/utils.ts:50-53 | A marker after one character outside the Basic Multilingual Plane stands at offset 2, line 1, column 3, as JavaScript's `length` gives. |
| TemplatePositions.OffsetsNondecreasing | test/utils.ts:47-58 | Recorded offsets never decrease. |
| TemplatePositions.HtmlGrows | test/utils.ts:47-58 | The html only grows from turn to turn. |
| TemplatePositions.HtmlIsConcat | test/utils.ts:47-58 | The html is every literal in order with every non-marker value between them. |
| Text.Split | test/utils.ts:51 | A one-character `split` always has at least one piece. |
| Text.SplitJoin | test/utils.ts:51 | Splitting on a character and joining again gives back the string. |
| Text.SplitCount | test/utils.ts:51-52 | A split has one more piece than there are separators. |
| Text.SplitLast | test/utils.ts:51-53 | The last piece of a split is the text after the last separator. |
| Text.LineColumnMeaning | test/utils.ts:51-53 | Line is the newline count plus one, column the length in code units after the last newline plus one. |
| Text.TailLengthMeaning | test/utils.ts:53 | The text after the last newline holds no newline and is either the whole string or follows a newline. |

## Left out

- Figure wrapping (`Figure.injectFigureElement`) and the figure base class: not part of this model; the table's id, the figure's id, is taken to be the element's `id` attribute.
- The header parser, `getHeaderSource`, `parsedHeaderToSignature`, `formatHeader` and `warnAllErrors` are not part of this model: their results for each row are inputs (`Row.parse`, `Row.format`), and a parse failure's warnings are given as already built.
- `offsetToLineAndColumn` is not part of this model; it is taken to count 1-based lines and columns, in UTF-16 code units, of the header source before the offset, with an offset past the end standing at the end and one inside a surrogate pair rounded down.
- `traverseWhile` is not part of this model; it is taken to return the first sibling, from the start, that the predicate rejects. Text nodes are skipped by `nextElementSibling`, which the model folds into the deletion predicate.
- The DOM is not modelled: a table's children, rows and cells are values, and every tree mutation (attribute, inner html, inserted paragraph, appended list) is an entry of an edit log; created elements are values without identity.
- Tables.Table.ProcessAbstractMethodsDeclarations: a missing `<tbody>` (ecmarkup dereferences null and throws a `TypeError`) is reported as the fault `MissingTbody`, like a rethrown conversion error.
- The biblio's `add` and its lookups (`byId`, `byAbstractMethodAoid`) are not part of this model: `add` calls are logged in order, and the second pass reads a fixed index of two maps.
- ConcreteMethods.Build: a missing declaration (which throws a `TypeError` when its `number` is read) is reported as the fault `MissingDeclaration`; a non-clause declaration or a definition without a `for` type renders as `undefined`, as JavaScript string interpolation does.
- ConcreteMethods.Enter: the element's `for` attribute is taken as present; the biblio's behaviour for a missing one is not part of this model.
- The `Xref` objects are recorded by their node, clause, namespace and href only; their resolution is not part of this model.
- `clauseNums.ts` is not part of this model: the iterator is modelled from the clause-id test. Numbering options read through `opts` and `hasAttribute` are not modelled.
- ClauseNumbers.ClauseNumberIterator.Next: requires the ancestor count not to exceed the current depth, which a pre-order walk of the document guarantees; a call that skips a level is not modelled.
- ClauseNumbers.Letter: an annex counter renders as the character with code 64 + n; a code in the surrogate range U+D800 to U+DFFF or beyond U+10FFFF renders as `?`, since it is no Dafny character. How `clauseNums.ts` renders counters past 26 is not part of this model.
- TemplatePositions.Multipositioned: the JavaScript runtime always passes one more literal than interpolations, which is its precondition; `String(value)` of a non-marker interpolation is given as the value's text.
- The rest of the test helpers (`assertError`, `assertLint` and the like), the baseline, build and command-line tests, and the type declarations are not part of this model.
- Text.Lower: lower-cases ASCII letters only; JavaScript's `toLowerCase` also maps non-ASCII letters, so a tag name with such letters is named differently in the `missing-header` message.
- Asynchrony of `enter` is not modelled: each call runs to completion.
