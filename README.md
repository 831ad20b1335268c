# Table column steps and input rules, modelled in Dafny

This project models two parts of the editor core of this ProseMirror fork.

**Table column steps** (`src/schema-table/index.js`) come first:

- `createTable` builds a table.
- `adjustColumns` bumps the `columns` attribute.
- `AddColumnStep` and `RemoveColumnStep` each model `create`, `apply`, `posMap`, `invert`, `map` and their JSON form. These are the two atomic steps that insert or delete one cell in every row of a table.

The document model underneath is the part of the document tree the steps rely on:

- immutable nodes;
- `nodeSize`;
- `Fragment.findIndex`;
- `Node.resolve` with the accessors of a resolved position;
- `Node.nodeAt`.

A position context ("zipper") is used to prove where a resolved position lies in the tree.

**The input-rule engine** (`src/inputrules/inputrules.js`) comes second:

- the `appliedInputRule` state field;
- `stringHandler`;
- the first-match-wins loop of `handleTextInput` over a window of at most 100 characters;
- `handleKeyDown`;
- the backspace undo of `maybeUndoInputRule`.

Here the document is the textblock the cursor is in, a sequence of one-position inline nodes. A step is a range replacement, and a transform records every step with the document it was applied to.

Code that works by looping is modelled as methods, each proved equal to a specification function:

- the row walks of `create`;
- the check loop and the rebuilding loops of `apply`;
- `posMap`, `invert` and the removal `map`;
- the rule loop;
- the reverse undo loop.

The properties are proved about the specification functions:

- `invert` undoes `apply` exactly, cell contents included;
- `apply` keeps a rectangular table rectangular;
- the position map accounts for exactly the size change;
- `map` composes;
- JSON round trips;
- first match wins;
- backspace right after a rule restores the typed text.

Files:

| file | module | contents |
|---|---|---|
| outcomes.dfy | Outcomes | `Option`, `Result`, and the error kinds (step failure, thrown exception) |
| json.dfy | JsonValues | plain JSON values |
| doc_model.dfy | DocModel | nodes, sizes, `findIndex`, `resolve`, `nodeAt` |
| contexts.dfy | Contexts | a node in its context; resolving through a context |
| table_spec.dfy | TableSpec | `adjustColumns`, `createTable`, the two steps as functions |
| table_sites.dfy | TableSites | where each cell boundary of a table resolves |
| apply_proofs.dfy | ApplyProofs | what a passing check loop means; when `apply` succeeds |
| invert_proofs.dfy | InvertProofs | row and table inverses; `invert` undoes `apply` |
| table_steps.dfy | TableSteps | the loops of the source as methods |
| table_lemmas.dfy | TableLemmas | rectangularity, position map vs size, `map` laws |
| create_proofs.dfy | CreateProofs | a created step applies to the document it was created from |
| step_json.dfy | StepJson | `toJSON`, the step registry, `fromJSON` |
| inputrules.dfy | InputRules | the input-rule engine |
| inputrule_proofs.dfy | InputRuleProofs | its properties |

## Model

| member | source | states |
|---|---|---|
| TableSpec.AdjustColumns | src/schema-table/index.js:73-77 | the copy keeps every attribute except `columns`, which becomes the old value plus `diff`, or NaN when the old one is missing |
| InvertProofs.AdjustColumnsInverse | src/schema-table/index.js:73-77 | adjusting by `diff` and then by `-diff` gives back the attributes, when `columns` is a number |
| TableSteps.CreateTable | src/schema-table/index.js:58-68 | the two loops build exactly the table that `NewTable` describes |
| TableLemmas.NewTableShape | src/schema-table/index.js:58-68 | the result is rectangular, with `rows` rows of `columns` copies of the cell, of the given types; supplied attributes are kept and `columns` is overridden |
| TableSteps.CellStart | src/schema-table/index.js:96-97 | the inner walk gives the row offset plus the sizes of the cells before `columnIndex`, and throws when the row is shorter |
| TableSteps.CreateAddStep | src/schema-table/index.js:92-103 | equals `CreateAdd`: the error of `nodeAt` outside the document or with no node, else one position per row |
| TableSteps.AddAtRows | src/schema-table/index.js:95-100 | each row's position is `tablePos + 2` plus the rows before plus the cells before the column, with the same cell for every row; throws when a row is too short |
| TableSteps.CreateRemoveStep | src/schema-table/index.js:185-195 | equals `CreateRemove`: start and end of the cell at `columnIndex` in every row |
| TableSteps.RemoveAtRows | src/schema-table/index.js:188-193 | `from[i]` is where row `i`'s cell starts, `to[i]` where it ends; throws when a row lacks the cell |
| Contexts.FramesTo | src/schema-table/index.js:95 | an element that `doc.nodeAt(tablePos)` finds sits in the document in the returned frames, and its content starts at `tablePos + 1` |
| CreateProofs.CreateAddApplies | src/schema-table/index.js:92-134 | an addition created for a table of at least one row, every row reaching `columnIndex`, applies to the same document and swaps the table, in its frames, for the table with the cell inserted at `columnIndex` of every row; a rectangular table stays rectangular with one column more |
| CreateProofs.CreateRemoveApplies | src/schema-table/index.js:185-223 | a removal created for a table of at least one row, every row holding a cell at `columnIndex`, applies to the same document and swaps the table, in its frames, for the table without that cell in every row; a rectangular table stays rectangular with one column less |
| TableSteps.CheckLoop | src/schema-table/index.js:106-121 | the check loop of `apply` computes `CheckRows` over the resolved positions |
| ApplyProofs.CheckRowsOk | src/schema-table/index.js:106-121 | the checks pass with anchor `a` iff there is a position, the first resolves, the table has one row per position, and every row agrees with `a` |
| ApplyProofs.CheckRowsNone | src/schema-table/index.js:106 | the loop finds no table exactly when the step has no positions |
| ApplyProofs.CheckRowsFrom | src/schema-table/index.js:117-119 | once the anchor is fixed, the loop succeeds iff every later row agrees with it |
| ApplyProofs.ApplySite | src/schema-table/index.js:106-121 | after passing checks, the table sits in the document at the anchor's position; the table has one row per position; position `i` is the boundary before cell `index` of row `i` |
| ApplyProofs.ApplyChecked | src/schema-table/index.js:123-223 | after passing checks, the anchor's table is plugged into the document by frames whose inner offset is `tablePos + 1`, and an addition's `apply` replaces the table by one with the column added, and throws when `cells` is shorter than the rows; a removal's `apply` replaces the table by one without the column |
| ApplyProofs.ApplyOnSite | src/schema-table/index.js:105-134 | the converse: positions at the same cell boundary of every row of a table make `apply` succeed with that table rebuilt |
| TableSteps.AddRow | src/schema-table/index.js:125-128 | the row loop inserts the cell before child `index`, or first when `index` is 0 |
| InvertProofs.AddedRowShape | src/schema-table/index.js:125-128 | the new row is the old content with the cell spliced in at `index`, `columns` plus one, and larger by the cell's size |
| TableSteps.AddRows | src/schema-table/index.js:123-131 | the table loop builds the added table, or throws when a row has no cell to insert |
| TableSteps.RemoveRow | src/schema-table/index.js:215-218 | the row loop drops child `index` |
| InvertProofs.RemovedRowShape | src/schema-table/index.js:215-218 | the new row is the old content without child `index`, `columns` minus one, and smaller by that cell's size |
| TableSteps.RemoveRows | src/schema-table/index.js:213-221 | the table loop builds the table without the column |
| TableSteps.ApplyStep | src/schema-table/index.js:105-224 | the `apply` method of either step equals `Apply` |
| InvertProofs.AddedRowInverse | src/schema-table/index.js:125-128 | removing the inserted cell gives back the row |
| InvertProofs.RemovedRowInverse | src/schema-table/index.js:215-218 | putting the removed cell back gives back the row |
| InvertProofs.AddedTableInverse | src/schema-table/index.js:123-131 | removing the added column gives back the table |
| InvertProofs.RemovedTableInverse | src/schema-table/index.js:213-221 | re-adding the removed cells gives back the table |
| TableLemmas.AddedTableRectangular | src/schema-table/index.js:123-131 | adding a column to a rectangular table keeps it rectangular, one column wider |
| TableLemmas.RemovedTableRectangular | src/schema-table/index.js:213-221 | removing a column every row has keeps the table rectangular, one column narrower |
| TableLemmas.ApplyKeepsRectangular | src/schema-table/index.js:105-134 | a successful `apply` swaps in a rectangular table one column wider or narrower, in the same place |
| TableSteps.PosMapRanges | src/schema-table/index.js:136-231 | the `posMap` loop gives one insertion range per position, of the cell's size, for an addition, and one deletion range per cell, of `to[i] - from[i]`, for a removal |
| TableLemmas.GrowthAdd | src/schema-table/index.js:136-141 | the ranges of an addition add up to the sizes of its cells |
| TableLemmas.GrowthRemove | src/schema-table/index.js:226-231 | the ranges of a removal take away the sizes of the cells it deletes |
| TableLemmas.ApplySizeMatchesPosMap | src/schema-table/index.js:136-141 | a successful `apply` changes the document's size by exactly what the position map says |
| TableLemmas.PlugSize | src/schema-table/index.js:132-133 | swapping the table subtree changes the document's size by the difference of the two tables' sizes |
| TableSteps.InvertStep | src/schema-table/index.js:143-154 | the `invert` method equals `Invert` |
| TableSteps.InvertAdd | src/schema-table/index.js:147-152 | `from[i]` is `positions[i]` shifted by the cells inserted in earlier rows, and `to[i]` adds this row's cell |
| TableSteps.InvertRemove | src/schema-table/index.js:237-243 | the cells are row `i`'s cell at `index`, each position shifted back by the cells removed before it |
| InvertProofs.FirstIsAnchor | src/schema-table/index.js:144-145 | the table `invert` reads from the first position is the table `apply` found |
| InvertProofs.InvertAtAdd | src/schema-table/index.js:143-154 | for an addition at column `j` of a table in frames `ctx`, the inverse's `from[i]` is where the inserted cell starts in row `i` of the rebuilt table and `to[i]` is where it ends |
| InvertProofs.InvertAtRemove | src/schema-table/index.js:233-244 | for a removal at column `j` of a table in frames `ctx`, the inverse re-inserts exactly column `j`, and `positions[i]` is boundary `j` of row `i` of the smaller table |
| InvertProofs.AddThenInvert | src/schema-table/index.js:143-154 | applying the inverse of a successful addition to its result gives back the document |
| InvertProofs.RemoveThenInvert | src/schema-table/index.js:233-244 | applying the inverse of a successful removal to its result gives back the document, cell contents included |
| TableLemmas.MapIdentity | src/schema-table/index.js:156-158 | mapping through the identity returns the same step; a removal comes back unchanged iff none of its cells is empty, and is dropped otherwise |
| TableLemmas.MapCompose | src/schema-table/index.js:246-255 | mapping through two edits in turn is mapping through their composition |
| TableSteps.MapRemove | src/schema-table/index.js:246-255 | the removal's `map` loop equals `Map`: null at the first collapsed cell |
| StepJson.StepId | src/schema-table/index.js:172 | the two step classes are registered under different identifiers, `addTableColumn` and `removeTableColumn` |
| StepJson.StepFromJson | src/schema-table/index.js:166-168 | a decoded step is of the class its `stepType` names; an identifier nobody registered is an error |
| StepJson.AddFromJson | src/schema-table/index.js:166-168 | `AddColumnStep.fromJSON` makes an addition |
| StepJson.RemoveFromJson | src/schema-table/index.js:257-259 | `RemoveColumnStep.fromJSON` makes a removal |
| StepJson.NodeRoundTrip | src/schema-table/index.js:163 | every cell comes back from its JSON form unchanged |
| StepJson.StepRoundTrip | src/schema-table/index.js:160-168 | every step comes back from its JSON form unchanged, so it applies, inverts and maps as the original did |
| InputRules.JsSlice | src/inputrules/inputrules.js:30 | `slice` within bounds is the substring |
| InputRules.AddStep | src/inputrules/inputrules.js:80 | `tr.step` succeeds exactly when the step applies, and keeps the transform a valid history |
| InputRules.ReplaceWith | src/inputrules/inputrules.js:35 | `replaceWith` puts the text in place of the range, as one more step, and refuses empty text |
| InputRules.StringHandlerAsWritten | src/inputrules/inputrules.js:24-36 | the handler as written makes one replace step from the state's document |
| InputRules.StringHandler | src/inputrules/inputrules.js:24-36 | the corrected handler makes one replace step from the state's document |
| InputRuleProofs.StringHandlerReplacesMatch | src/inputrules/inputrules.js:24-36 | the corrected handler leaves the text as typed up to group 1 (or the whole match), then the string, then the rest |
| InputRuleProofs.StringHandlerAsWrittenSlicesTooMuch | src/inputrules/inputrules.js:28-31 | after "zz", pasting "ab" under `/zza(b)$/` → "X" gives "zzzaX" as written and "zzaX" corrected |
| InputRules.TextBefore | src/inputrules/inputrules.js:56-57 | the rules see at most 100 characters before the cursor, then the typed text |
| InputRules.HandleTextInput | src/inputrules/inputrules.js:54-66 | the rule loop equals `TextInput` |
| InputRuleProofs.AllRulesDecline | src/inputrules/inputrules.js:58-65 | nothing is dispatched iff every rule declines |
| InputRuleProofs.FirstRuleWins | src/inputrules/inputrules.js:58-65 | when something is reported, it is the outcome of the first rule that does not decline: its exception or its transform |
| InputRuleProofs.StringRuleRecordsHistory | src/inputrules/inputrules.js:60-62 | a string rule that fires dispatches its transform with the record `{transform, from, to, text}` |
| InputRuleProofs.PendingRecordIsLastRuleTransform | src/inputrules/inputrules.js:44-50 | a record is pending iff the last transform or selection action was a transform carrying one; the pending record is that one |
| InputRules.KeyDown | src/inputrules/inputrules.js:68-71 | only key code 8 can act; with no record, nothing happens |
| InputRules.HandleKeyDown | src/inputrules/inputrules.js:68-71 | equals `KeyDown` |
| InputRules.MaybeUndoInputRule | src/inputrules/inputrules.js:75-85 | the undo method equals `UndoInputRule` |
| InputRuleProofs.InvertEditUndoes | src/inputrules/inputrules.js:80 | a step's inverse applied to its result gives back its input |
| InputRuleProofs.RewindRestores | src/inputrules/inputrules.js:79-80 | inverting a valid history's steps from last to first succeeds and returns to its first document |
| InputRuleProofs.UndoRestoresTypedText | src/inputrules/inputrules.js:75-85 | undo leaves the text as if the typed text had replaced the range in the document the rule saw, and clears the record |
| InputRuleProofs.RuleThenBackspace | src/inputrules/inputrules.js:54-85 | a string rule firing, then backspace, leaves the text as plain typing would have, with no record pending |
| InputRuleProofs.EmDashThenBackspace | src/inputrules/inputrules.js:54-85 | with `/--$/` → "—", typing "-" after "-" gives "—", and backspace gives back "--" |

## Left out

- Node types and parsing are not modelled:
  - `Table`, `TableRow` and `TableCell`;
  - `toDOM` and `matchDOMTag`;
  - `addTableNodes`.
- The table commands are not modelled: `addColumnBefore`, `addColumnAfter`, `removeColumn`, `addRowBefore`, `addRowAfter`, `removeRow`, `selectNextCell` and `selectPreviousCell`. They are UI commands built on the steps.
- Marks are not modelled. Nodes carry none, so `marksAt` and the marks of inserted text are absent.
- `createAndFill` and the content expressions are not modelled. `createTable` and `create` receive the row type and the cell as parameters.
- TableSpec.Count: row and column counts are whole numbers, and a negative count makes the loops run zero times. Fractional and NaN counts are not modelled.
- ApplyProofs.ApplyChecked: `StepResult.fromReplace` also checks the new table against its parent's content expression. That check is not modelled, so the model's `apply` succeeds wherever the source's position checks pass.
- TableSpec.InvertAt: the source reads a position past the end of `positions` or `from` as `undefined`. It builds an inverse holding NaN, which then fails when applied. The model reports `PositionUndefined` at `invert` instead.
- TableSpec.PosMap: requires the two arrays of the step to be equally long. Every constructor makes them so. With shorter `cells` the source would throw on a missing cell.
- TableSpec.Map: requires the same equal-length arrays.
- Exception messages are approximations of the JavaScript ones. The kind of error, thrown versus step failure, and where it arises are modelled.
- InvertProofs.AddThenInvert has two hypotheses: the table has a numeric `columns` on itself and on every row, with element rows and cells; and every inserted cell is an element node. That is what the schema of `addTableNodes` guarantees.
- InvertProofs.RemoveThenInvert has the same table hypothesis.
- CreateProofs.CreateAddApplies and CreateProofs.CreateRemoveApplies assume a table of at least one row whose rows and cells are elements, as the schema guarantees. For a table with no rows the created step has no positions, and its `apply` throws on the null table (see `ApplyProofs.CheckRowsNone`).
- TableLemmas.ApplySizeMatchesPosMap assumes the table's rows and cells are elements, as the schema guarantees.
- Atomicity needs no separate proof here. A failing `apply` returns an error value, and documents are immutable values.
- StepJson.NodeRoundTrip: the JSON form of a node is modelled on a self-describing encoding: `type`, `attrs`, and either `text` or `content`. Marks are omitted. `Node.toJSON` and `Schema.nodeFromJSON` are not part of this model. Unknown node types are not rejected, because there is no schema.
- StepJson.StepFromJson: the source copies `positions`, `from` and `to` through unchecked, and throws only when `cells` is not an array. The model rejects any field that is not an array of numbers or of node objects.
- The `Transform` class is modelled as a value. `tr.step` and `tr.replaceWith` return the extended transform instead of updating it in place.
- `onAction` is not called. The input-rule functions return the action they would dispatch, or `None` where they return false.
- The input rules work on the textblock the cursor is in:
  - a position is an offset into that textblock;
  - replace steps and their inverses are modelled on its inline content;
  - `ReplaceStep` in the full tree is not part of this model.
- A rule's regular expression is the function `exec` computes. A custom handler is a function returning a transform or nothing; exceptions thrown by custom handlers are not modelled.
- InputRuleProofs.StringHandlerReplacesMatch: holds when the match ends with the typed text and covers it, as a rule ending in `$` does.
- InputRuleProofs.RuleThenBackspace: holds for string rules. A custom handler's transform is not known to start from the current document.
- `handleTextInput` uses the corrected string handler (see Findings).
- InputRules.TextBefore: JavaScript measures `parentOffset`, the `MAX_MATCH` window, `match[0].length`, `match[1].length` and `text.length` in UTF-16 code units. The model counts one `char` per character. For text outside the Basic Multilingual Plane the 100-unit window therefore covers a different stretch, and the source can cut a surrogate pair in half, which the model never does.

## Findings

| source | as written | input that shows it | evidently intended | confidence | as-written member | corrected member |
|---|---|---|---|---|---|---|
| src/inputrules/inputrules.js:30 | when group 1 starts inside the typed text, `match[0].slice(start - realStart, …)` starts the slice at the length of the typed text before the group | text "zz", cursor after it, "ab" typed at once, rule `/zza(b)$/` with string "X": the result is "zzzaX" | prepend the typed text before the group, `match[0].slice(m0.length - text.length, m0.length - m1.length)`, giving "zzaX" | not executed | InputRuleProofs.StringHandlerAsWrittenSlicesTooMuch | InputRuleProofs.StringHandlerReplacesMatch |
