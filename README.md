# DOM-change reconciliation of prosemirror-view, in Dafny

This project models `src/domchange.js` of prosemirror-view. That file takes
edits the browser made directly to the editable DOM and turns them back into
document changes. Its parts:

- **The `DOMChange` session** (module `Session`). The view holds at most one
  active session. A session collects the document range touched by DOM
  mutations. It waits on a 50 ms timer, or for an input-method composition
  to end. Then it reads the change and ends.
- **The ranges to re-read** (module `Ranges`):
  - the span of the recorded mutations, widened to whole nodes below their
    deepest common ancestor (`changedRange`);
  - when nothing was recorded, a range around the selection
    (`rangeAroundSelection`, with the depth tests `isAtStart` and
    `isAtEnd`);
  - the widening step taken when the DOM between two positions cannot be
    parsed.
- **The comparison** (module `Diff`): `findDiff` and its correction. When an
  edit is ambiguous (inserting or deleting a token equal to its neighbour),
  the correction places the change at the user's previous cursor.
- **Typed text** (module `InlineText`): `uniformTextBetween`, the text
  between two positions, provided everything there is text under one mark
  set.
- **The decision** (module `Reconcile`), all of `readDOMChange` after
  parsing:
  - retry the parse over wider ranges;
  - compare the old range with the parsed content;
  - mark the change dirty unless it stays inside one text node;
  - recognise an Enter key;
  - map positions through changes made meanwhile;
  - choose between inserting text and replacing a slice.

Module `Document` is a minimal model of the document library's positions:

- a node tree with sizes;
- `findIndex`, `childBefore` and `resolve`;
- the resolved-position accessors `before`, `after`, `start`, `end`,
  `index`, `sharedDepth`, `sameParent` and `atNodeBoundary`.

These are proved consistent: a resolved path nests, and `sameParent` means
the same parent node.

The session is imperative, as in the source. `DOMChange` and `View` are
classes whose methods update `composing`, the collected span, the timer
flag, `view.inDOMChange` and the view's event log. The loops of `isAtStart`,
`isAtEnd`, the depth scan of `rangeAroundSelection`, the retry loop of
`readDOMChange` and the callback loop of `uniformTextBetween` are methods with
loops. Each is proved against a specification function, and the properties
are proved about those functions.

Two places where the code and its evident intent disagree are listed under
Findings. Each is modelled both ways, as written and as intended. The session
and the read run the code as written. The intended versions stand beside
them:

- the depth scan of `rangeAroundSelection` takes its start test as a
  parameter (`Ranges.StartTest`). `Session.ChangedRangeOf` runs it with
  `AsWritten`, the `isAtStart` that tests `index(0)` at every depth. With
  `Intended` it runs the corrected test. The containment lemmas hold for
  both;
- `Reconcile.ReadChange` uses `Diff.FindDiff` as written, which drops a
  first difference at position 0. `Reconcile.ReadChangeIntended` uses
  `Diff.FindDiffIntended`.

## Model

| member | source | states |
|---|---|---|
| Session.DOMChange.constructor | src/domchange.js:5-12 | a new session snapshots the view's state, has no range collected, and arms its timer exactly when not composing |
| Session.DOMChange.AddRange | src/domchange.js:14-22 | the first range is taken exactly; later ones give the minimum start and maximum end; the span stays the span of every range added so far (`Valid`) and nothing else changes |
| Session.SpanIsSmallest | src/domchange.js:14-22 | the collected span exists exactly when a range was added, contains every added range, and its start and end are attained by added ranges (the smallest interval holding all of them) |
| Session.SpanOrderIndependent | src/domchange.js:14-22 | adding the same ranges in any order gives the same span |
| Session.AddSpanGrows | src/domchange.js:14-22 | adding a range never shrinks the span, contains the added range, and keeps `from <= to` when the range and the span satisfy it |
| Session.DOMChange.ChangedRange | src/domchange.js:24-29 | the result is `ChangedRangeOf`: with nothing collected, the range around the selection with `isAtStart` as written; otherwise the span widened at the shared depth, which always exists; either contains its input and lies in the document |
| Session.DOMChange.Read | src/domchange.js:31-33 | no outcome when the changed range is missing, and otherwise only when the whole document fails to parse; an outcome is what `readDOMChange` gives on the changed range (`ReadsAs`): every range tried but the last fails to parse, and the outcome is `ReadChange` on the last; with a span collected and a document that parses, there is always an outcome; no action means nothing marked dirty |
| Session.DOMChange.Finish | src/domchange.js:35-41 | the timer is cleared; while composing nothing else happens; otherwise the change is read as `Read` states, and after it the session is removed from the view and the view hears the redraw mark and transaction of that outcome, then `endDOMChange` |
| Session.DOMChange.CompositionEnd | src/domchange.js:43-48 | a composing session stops composing and re-arms its timer; otherwise nothing changes |
| Session.DOMChange.Start | src/domchange.js:50-61 | the view's state never changes; with no active session, exactly one fresh session is installed, linked to the view, snapshotting its state, with no range added (`Valid`), its timer armed iff not composing, and `startDOMChange` with its id is announced; with one, no session is created, its ranges are kept, and a composing start only clears its timer and sets `composing` |
| Ranges.SpanRangeContains | src/domchange.js:24-29 | `[before(shared+1), after(shared+1)]` contains `[from, to]`, lies in the document, and stays inside the shared ancestor, which both ends resolve through |
| Ranges.IsAtEnd | src/domchange.js:119-123 | the early-exit loop answers exactly `AtEnd`: every child on the path from `depth` down is the last one, and the position ends its parent |
| Ranges.AtEndIsFlush | src/domchange.js:119-123 | a position is never closer to an ancestor's end than the closing tokens in between, and `AtEnd` holds exactly when it is that close |
| Ranges.IsAtStart | src/domchange.js:124-128 | the loop as written answers `AtStartAsWritten`: only `index(0)` is ever tested |
| Ranges.IsAtStartIntended | src/domchange.js:124-128 | the loop with `index(i)` answers exactly `AtStart`, the mirror of `AtEnd` |
| Ranges.AtStartIsFlush | src/domchange.js:124-128 | `AtStart` holds exactly when the position is as close to the ancestor's start as the opening tokens in between allow |
| Ranges.AtStartReportsLaterSibling | src/domchange.js:126 | in a quote holding two paragraphs, the start of the second paragraph passes the written test at depth 1 though it is not at the start of the quote |
| Ranges.AtStartMissesFirstChild | src/domchange.js:126 | in a document holding a paragraph then a quote, the start of the quote's first paragraph fails the written test though it is at the start of the quote |
| Ranges.AroundQuoteOfTwo | src/domchange.js:126-157 | for a blockquote of two paragraphs with the cursor at the start of the second, the range around the selection is the whole blockquote (0 to 8) as written, and the quote's content (1 to 7) with the intended test |
| Ranges.TextblockRangeSnaps | src/domchange.js:133-146 | in the textblock branch the range starts at the start of the child holding the selection start (or at the parent's start) and ends at the end of the child holding the selection end, and stays in the parent's content |
| Ranges.TextblockRangeInParent | src/domchange.js:133-146 | the same, naming the two children whose edges the range snaps to |
| Ranges.SnapOffsetsOnChildren | src/domchange.js:133-146 | the clamped and snapped offsets are a child's start strictly before the start offset, and the end of the child holding the end offset, both within the content |
| Ranges.TextblockRangeInDoc | src/domchange.js:133-146 | the textblock range contains the selection and lies in the document |
| Ranges.FromSide | src/domchange.js:148-153 | the start of the range holds the ancestor at `depth+1`, and moves back by one sibling exactly when the start test passes (the source's test is `index(0)` as written) and a previous sibling exists, landing at that sibling's start |
| Ranges.ToSide | src/domchange.js:148-155 | symmetrically, the end moves forward by one sibling exactly when the end is flush and a next sibling exists, landing at that sibling's end |
| Ranges.RangeAtDepthInDoc | src/domchange.js:147-157 | where the scan stops, its range holds both ends and lies in the document |
| Ranges.RangeAtDepthAround | src/domchange.js:147-157 | the range at a depth both ends reach runs from inside the document to before the start's ancestor at `depth+1`, and from after the end's ancestor to inside the document |
| Ranges.ScanFromContains | src/domchange.js:147-157 | whatever depth the scan stops at, its range holds the selection and lies in the document |
| Ranges.ScanFromAround | src/domchange.js:147-157 | any range the scan gives from any depth on holds the selection ends and lies in the document |
| Ranges.AroundSelectionContains | src/domchange.js:130-159 | the range around the selection holds the selection and lies in the document |
| Ranges.RangeAroundSelection | src/domchange.js:130-159 | the method computes `AroundSelection` with the given start test: the textblock branch, else the first depth where the scan stops; the result holds the selection and lies in the document |
| Ranges.ScanDepths | src/domchange.js:147-157 | the depth loop, calling `isAtStart` as written or as intended, computes `ScanFrom` from depth 0 |
| Ranges.WidenGrows | src/domchange.js:174-176 | one widening step contains the previous range and stays in the document; it leaves a range unchanged exactly when it is the whole document; an end at depth 0 goes straight to the document's edge |
| Reconcile.WidenTimes | src/domchange.js:171-177 | after any number of widening steps the range still contains the first one and lies in the document |
| Reconcile.ParseRange | src/domchange.js:171-177 | the retry loop tries exactly the successive widenings of the range; every try but the last fails to parse; it ends with a range that parses, lies in the document and contains the first one, or with the whole document failing |
| Reconcile.TraceIsWidenTimes | src/domchange.js:174-176 | the `i`-th range tried is the range widened `i` times |
| Reconcile.TraceGrows | src/domchange.js:174-176 | each range tried contains every range tried before it |
| Reconcile.ChangeInRange | src/domchange.js:180-181 | the change found, as written or as intended, lies in the re-read range on the old side and in the parsed content on the new side, and neither side runs backwards; as written it is the intended change or none |
| Reconcile.ReadChange | src/domchange.js:178-229 | there is no action exactly when the left scan finds no difference or finds it at position 0, and then nothing is marked dirty |
| Reconcile.ReadChangeIntended | src/domchange.js:178-229 | with `findDiff` as intended: no action exactly when the contents are equal, and then nothing is marked dirty |
| Reconcile.ChangeAtDocStartIsDropped | src/domchange.js:182 | a first difference at position 0 leaves nothing redrawn or dispatched as written, where the intended read acts; elsewhere the two reads agree |
| Reconcile.Redraw | src/domchange.js:184-191 | the change's old side is marked dirty exactly when the test at line 189 holds; a change left clean starts strictly inside a text child of its parent, and its old end lies in that parent at the same index (`InsideOneText`) |
| Reconcile.CleanChangeInsideText | src/domchange.js:184-191 | a change left clean starts strictly inside a text child of its parent, and its old end lies in that parent's content at the same index |
| Reconcile.Decide | src/domchange.js:188-224 | a found change always leads to an action; the dirty mark is the change's old side exactly when it is needed, and with no mark the change stays inside one text node |
| Reconcile.ActBetween | src/domchange.js:193-224 | the outcome is never empty; it is the Enter key exactly when the Enter heuristic holds and the host takes the key; the host takes typed text exactly when it did not take Enter, uniform text lies between the new ends of one textblock, and its handler accepts it at the mapped range; a dispatched step inserts text exactly when there is such text |
| Reconcile.DispatchMapsAlike | src/domchange.js:205-215 | the replaced range and both selection ends go through the same mapping; without one they are the change's positions and the range lies in the re-read range; with an order-preserving one the range still runs forwards |
| Reconcile.ReplaceSliceInParsed | src/domchange.js:223 | a replacement takes the parsed slice between the change's new ends, which lies inside the parsed content and runs forwards |
| Reconcile.InsertTextOnlyInTextblock | src/domchange.js:218-221 | text is inserted only when both new ends share a textblock parent, the host declined the text, and the text is what `uniformTextBetween` reads there |
| Reconcile.NoTypedTextReplaces | src/domchange.js:198-224 | without such text, the change becomes an Enter key or a replacement |
| Reconcile.TypingInPlainTextblock | src/domchange.js:218-221 | typing into a textblock holding one run of equally marked text inserts exactly the parsed text between the new ends, at the mapped old range, unless the host takes it |
| Reconcile.ReadDOMChange | src/domchange.js:169-229 | the whole read: the ranges tried, each the widening of the one before, all failing but the last; when a parse succeeded, the outcome `ReadChange` gives on the last range tried, which contains the first and has both ends in one parent (`ReadsAs`); no outcome only when the whole document fails to parse |
| Diff.Correct | src/domchange.js:248-258 | `start` never increases and either stays or lands on `preferedStart`, which happens exactly when that lies between the shorter side's end and `start`; the shorter side becomes empty at the new start; the length difference is kept; without overlap all three are unchanged |
| Diff.FindDiff | src/domchange.js:244-247 | as written: no change exactly when the left scan finds no difference or reports position 0 |
| Diff.FindDiffIntended | src/domchange.js:244-247 | no change exactly when the left scan finds no difference |
| Diff.FlatDiffReplays | src/domchange.js:244-260 | on flat contents that differ, replacing the change's old side by its new side of the new content rebuilds the new content |
| Diff.AmbiguousInsertFollowsCursor | src/domchange.js:248-252 | inserting an "a" into "aa" with the cursor at 1 is reported at 1 |
| Diff.ChangeAtZeroIsDropped | src/domchange.js:245-246 | as written, replacing "x" by "y" at position 0 is reported as no change; as intended it is the change from 0 to 1 |
| InlineText.UniformTextBetween | src/domchange.js:232-242 | the callback loop computes `UniformText`: the clipped texts of the counted visits when all are text under one mark set, otherwise none |
| InlineText.CountedSkips | src/domchange.js:235 | block nodes that start before `from` do not count |
| InlineText.NonTextHasNoUniformText | src/domchange.js:237 | a counted non-text visit gives no text |
| InlineText.MixedMarksHaveNoUniformText | src/domchange.js:238-239 | two counted text visits with different mark sets give no text |
| InlineText.RunVisitsText | src/domchange.js:240 | over a run of text children, the collected text is the slice of their concatenated text between the two positions |
| InlineText.UniformTextOfPlainRun | src/domchange.js:232-242 | in a textblock holding one run of equally marked text, the result is exactly the text between the two positions, whatever block ancestors are passed first |
| Document.SameParentSound | src/domchange.js:218 | two positions of one document that pass `sameParent` have the same depth and the same parent node |
| Document.SameParentPaths | src/domchange.js:218 | two resolved paths in one document whose parents start at the same position have the same depth and parent node |
| Document.BeforeAfter | src/domchange.js:28 | `before(d) <= pos <= after(d)`, strictly for a real ancestor, both inside the document |
| Document.ChildBefore | src/domchange.js:139-140 | `childBefore` gives the child that starts before the offset and reaches it, and its start |
| Document.EndsResolveAtRoot | src/domchange.js:175-176 | the document's two ends resolve at depth 0 |

## Left out

- `parseBetween` and `ruleFromNode` read the DOM and run the DOM parser. Both are a `parse` oracle that fails or gives a document and a selection.
- `findDiffStart` and `findDiffEnd` are library calls. They are a scan oracle whose results respect the library's bounds (`ScannerOk`). The flat-token versions in `Diff` check the correction against what it is for.
- `Selection.between`, `tr.insertText`, `tr.replace`, `tr.setSelection` and `scrollAction` build a transaction. The model records the step and selection but does not apply them.
- `doc.slice(range.from, range.to)` at line 180 builds the old content that is compared. The model takes its size to be `range.to - range.from`, i.e. takes the slice as closed. That holds because `parseBetween` (lines 72-74) fails unless both ends map into one DOM parent; the model states this of the parse oracle as `Reconcile.ParseInOneParent`, so the range read always has both ends in one parent. The DOM mapping behind it (`domFromPos`) is not part of this model.
- `parsed.slice` at line 223 builds the replacement; the model records its bounds (`ReplaceSliceInParsed`).
- `Selection.findFrom`, `handleKeyDown` with `enterEvent`, and `handleTextInput` belong to the host. They are the `Env` oracles `nextSelHead`, `handlesEnter` and `handlesText`.
- `nodesBetween` over the parsed document is the `Env` oracle `nodesBetween`. `InlineText.InlineVisits` models it only over the flat content of one textblock.
- `mapping.map` is an opaque function. `Mark.sameSet` is set equality.
- Timers are the `armed` flag, and a timer firing is not modelled: `Finish` is called directly. The random session id is a parameter.
- The session's `from` and `to` are one field `span`, since the source always sets them together.
- `view.state` is never updated by a dispatched transaction, and `docView.markDirty` is a `MarkDirty` event in the log.
- Ranges.ScanFrom: the model answers None once the scan passes the shallower end's depth. The source does one of two things there:
  - when the end is at most as deep as the start, the next step reads a property of a missing path entry (`$to.after(depth + 1)` or `$to.node(depth).isTextblock`) and throws;
  - when the start is strictly shallower, `$from.index(depth)` is `undefined`, so the loop stops. `$from.before(depth + 1)` then gives `undefined` without throwing, and `rangeAroundSelection` returns a range whose `from` is `undefined`. An example is a document of two paragraphs "a" and "bc" with a selection from 3 to 5.
- Session.DOMChange.Finish: it stops without further effect when `Read` has no outcome. That matches the source where the scan throws. Where the source reads on from an `undefined` start, what follows is not modelled. It also covers a parse that never succeeds, where the source loops forever.
- Reconcile.ParseRange: where the source retries the whole document forever, the model stops and answers None. No termination guarantee is claimed beyond the containment of each step.
- Reconcile.CleanChangeInsideText: does not prove that the old end lies in the same text node. The source compares `index()` of two positions that may sit at different depths when a textblock holds inline nodes with content.
- Reconcile.InsertTextOnlyInTextblock: states `sameParent` on the resolved ends. `Document.SameParentSound` then gives the same parent node.
- The document library is modelled only as far as positions need: no schema, no marks beyond a set per node, and no `resolve` cache.

## Findings

| source | as written | input that shows it | evidently intended | confidence | as-written member | corrected member |
|---|---|---|---|---|---|---|
| src/domchange.js:246 | `if (!start) return null` also treats a first difference at position 0 as no change | old content "x", new content "y", at position 0: the first difference is 0, so the edit is dropped | only a scan that finds no difference (null) means no change | not executed | Diff.FindDiff, Diff.ChangeAtZeroIsDropped, Reconcile.ReadChange, Reconcile.ChangeAtDocStartIsDropped | Diff.FindDiffIntended, Diff.FlatDiffReplays, Reconcile.ReadChangeIntended |
| src/domchange.js:126 | `isAtStart` tests `$pos.index(0)` at every depth of its loop | a quote holding two paragraphs, position 5 (start of the second paragraph), depth 1: the written test says "at start" | `$pos.index(i)`, mirroring `isAtEnd` | not executed | Ranges.IsAtStart, Ranges.AtStartReportsLaterSibling, Ranges.AroundQuoteOfTwo | Ranges.IsAtStartIntended, Ranges.AtStartIsFlush |
