# Verified models of the browser code in the API documentation site

The committed JavaScript bundles of the documentation site hold a text editor's
document model, a linter's scope manager, an XML document tree, a JSON5 reader and
printer, a query-string library, an exact decimal formatter and the schema walks of the
site itself.  This project models that code in Dafny and proves what it is for.

* **The document** (`Lines`, `Newlines`, `Deltas`, `Runs`, `Undo`, `Limits`, `Replica`,
  `Ranges`, `Document`, `Mirror`).  A document is an array of lines changed in place by deltas.
  Texts form a monoid under merging, and cutting, inserting and removing are stated in it;
  joining the lines maps it to strings, so every edit refines a splice of one flat string.
  Anchors, the splitter of large insertions, undo and the worker's replica are proved over
  whole runs of deltas.
* **Decimal formatting** (`Arithmetic`, `Decimal`, `Limbs`, `Rounding`, `Doubles`,
  `ToFixed`).  A double is taken apart by repeated halving and held in six limbs of base 10^7,
  multiplied and divided in place; a chain of truncating divisions is one correctly rounded
  result.
* **JSON5** (`Json5`, `Json5Parser`, `Json5Spelling`, `Json5Reading`, `Json5Complete`,
  `Json5Print`, `Json5Layout`, `Json5RoundTrip`).  The grammar as functions on the input still
  to be read, the parser on its shared cursor proved to compute them, and an independent
  definition of how values may be spelled: exactly the spellings are parsed.  The printer's
  text is given line by line, and is proved to be read back.
* **Document trees** (`Dom`, `DomSteps`, `DomEdit`, `DomRuns`, `DomTrees`, `DomNormalize`).
  Sibling lists with parent, child and sibling pointers and a cached child list, edited in
  place, over whole runs.
* **Scopes** (`Scopes`, `ScopeRuns`, `ScopeLaws`, `ScopeManager`).  A stack of scope objects; uses wait
  in a scope until it is unstacked and are then resolved or passed outwards.
* **Schema walks** (`Closure`, `Expansion`, `ExpansionLaws`, `ExpansionTree`).  The definitions an operation
  needs, and the tree of a model with its references expanded.
* **Encodings** (`CodeUnits`, `Percent`, `Base64`, `EncodingLaws`, `Qs`, `QsPaths`,
  `QsRoundTrip`, `QsLaws`).  Percent-encoded UTF-8, base 64, and query strings of nested data.

`Options` holds the one datatype for missing values.  Methods over heap objects are proved
against functions on values, and the laws are proved of those functions.  The modules whose
names end in `Laws`, with `Limits`, `Json5Complete` and `Json5Layout`, say what those functions
give in numbers and characters, without using their definitions.

## What the code does that its promises do not say

Each of these is proved, with its exact condition where one is stated.

* An insertion of more than 20000 lines whose number of lines is a multiple of 19999 leaves
  a stray line "undefined" when it is made in the last row, and a worker's replica drifts
  away from the document in any row, since the replica drops the empty last chunk.
* Undo fails for insertions of more than 20000 lines: the splitter overwrites the delta
  object with its last chunk, and that is what is reverted later.
* `replace` with a start column beyond the end of its line can insert elsewhere than it removed.
* A node that was removed keeps its links; inserting it again can break the list it was in.
* An index inside a two-character newline gives a position beyond the end of its line.
* A sign alone is parsed as the number 0, and an escape of fewer than four hexadecimal digits
  swallows the character behind it.
* JSON5 printing fails on objects with own members `valueOf` or `hasOwnProperty`, and
  parsing drops members called `__proto__`.
* The definitions kept for an operation can lack what a definition under the blank name mentions.
* The loop that expands a model goes on after a dictionary (`additionalProperties`) and looks
  for the dictionary's target among the definitions that follow, so a target that stands later
  adds its properties to the dictionary's own node.  Expansion may never end, and may go through
  a definition twice on one path, only with dictionaries.
* `encode` takes any surrogate together with whatever unit follows it.

## Model

| member | source | states |
|---|---|---|
| Lines.MergeAssociative | docs/static/js/chunk-0fd67716.d57e2c41.js:1 | Concatenation of texts, the operation behind every multi-line edit, is associative. |
| Lines.CutMerge | docs/static/js/chunk-0fd67716.d57e2c41.js:1 | Cutting a text at any valid position and merging the two pieces gives the text back. |
| Lines.MergeCut | docs/static/js/chunk-0fd67716.d57e2c41.js:1 | Conversely, the merge of two texts is cut into exactly those two at the end of the first. |
| Lines.BetweenCut | docs/static/js/chunk-0fd67716.d57e2c41.js:1 | The lines between two positions (`getLinesForRange`) are what must be walked to get from one to the other. |
| Lines.JoinMerge | docs/static/js/chunk-0fd67716.d57e2c41.js:1 | Joining with a newline turns merging of texts into concatenation of strings. |
| Lines.IndexIsLength | docs/static/js/chunk-0fd67716.d57e2c41.js:1 | The index of a position is the length of the joined text before it. |
| Lines.IndexMonotone | docs/static/js/chunk-0fd67716.d57e2c41.js:1 | With a newline of at least one character, indices order positions strictly, both ways. |
| Deltas.ApplyToLines | docs/static/js/chunk-0fd67716.d57e2c41.js:1 | `applyDelta`: the assignments and splices on the line array give the edit as a value, also for the two shapes that are not edits (an insertion of no lines, a removal whose end precedes its start) and for columns outside their line. |
| Deltas.NoOpChangesNothing | docs/static/js/chunk-0fd67716.d57e2c41.js:1 | A well-formed delta that `applyDelta` silently drops would have changed nothing. |
| Deltas.InsertIsSplice | docs/static/js/chunk-0fd67716.d57e2c41.js:1 | On the joined text an insertion is a splice at the index of its start. |
| Deltas.RemoveIsSplice | docs/static/js/chunk-0fd67716.d57e2c41.js:1 | On the joined text a removal deletes exactly the characters between the indices of its ends. |
| Deltas.InverseUndoes | docs/static/js/chunk-0fd67716.d57e2c41.js:1 | The delta that `revertDelta` builds is well formed for the edited text, and applying it restores the text. |
| Deltas.FilterIsSound | docs/static/js/chunk-0fd67716.d57e2c41.js:1 | The row filter of `Anchor.onChange` only skips anchors that the transform would leave alone. |
| Deltas.AnchorFollowsText | docs/static/js/chunk-0fd67716.d57e2c41.js:1 | After any well-formed edit an anchor is at a valid position, and its character index is the old one shifted exactly: up by the inserted length above the insertion point, and at it unless `$insertRight`; onto the start from inside a removal; down by the removed length behind it. |
| Runs.SplitEqualsOneShot | docs/static/js/chunk-0fd67716.d57e2c41.js:1 | For every chunk size of at least two, the chunks of `$splitAndapplyLargeDelta` followed by its last chunk leave the lines of the unsplit insertion, except that one stray line "undefined" is left at the end exactly when the chunk size divides the number of lines and the insertion row is the last row. |
| Runs.ChunksAreSmall | docs/static/js/chunk-0fd67716.d57e2c41.js:1 | No chunk of a split is itself large, so there is no recursive split; only the last can be dropped as a no-op. |
| Runs.EmptyTailMeansDivides | docs/static/js/chunk-0fd67716.d57e2c41.js:1 | The splitter ends with an empty chunk if and only if the chunk size divides the number of lines. |
| Runs.AppliedIsEdited | docs/static/js/chunk-0fd67716.d57e2c41.js:1 | `applyDelta` performs the edit a well-formed delta describes if and only if the delta is not one of the stray-line insertions. |
| Runs.SplitMovesAnchorsAlike | docs/static/js/chunk-0fd67716.d57e2c41.js:1 | An anchor that hears the chunk events one by one ends where the single unsplit event would have put it. |
| Runs.EventsMoveAnchor | docs/static/js/chunk-0fd67716.d57e2c41.js:1 | However `applyDelta` treats a delta (dropped, whole or split), an anchor moves as the whole edit says. |
| Runs.AnchorThroughApply | docs/static/js/chunk-0fd67716.d57e2c41.js:1 | The anchor law for `applyDelta` as a whole: valid afterwards, and shifted exactly on the joined text. |
| Undo.UndoOne | docs/static/js/chunk-0fd67716.d57e2c41.js:1 | `revertDelta` after `applyDelta` restores the lines if and only if the delta is undoable: not an insertion of more than 20000 lines, and not a removal of more whose re-insertion leaves a stray line. |
| Undo.AppliedCount | docs/static/js/chunk-0fd67716.d57e2c41.js:1 | How `applyDelta` changes the number of lines, for every delta it can be applied to. |
| Undo.RevertKeepsExcess | docs/static/js/chunk-0fd67716.d57e2c41.js:1 | A revert on a text with surplus lines never loses the surplus, and adds to it when the delta is not undoable. |
| Undo.UndoRun | docs/static/js/chunk-0fd67716.d57e2c41.js:1 | For every run of well-formed deltas `revertDeltas` after `applyDeltas` can be carried out, and it restores the original lines if and only if every delta of the run was undoable where it was applied. |
| Undo.StrayInsertion | docs/static/js/chunk-0fd67716.d57e2c41.js:1 | The concrete failure: 39998 lines inserted into an empty document leave a stray line, and reverting does not take them out again. |
| Undo.StrayRemoval | docs/static/js/chunk-0fd67716.d57e2c41.js:1 | The same for a removal: 39998 lines removed up to the last row do not come back as they were. |
| Limits.UpTo20000 | docs/static/js/chunk-0fd67716.d57e2c41.js:1 | A delta of at most 20000 lines is one change event, or none when it changes nothing; it leaves exactly the edited text and itself, and reverting it restores the lines. |
| Limits.Beyond20000 | docs/static/js/chunk-0fd67716.d57e2c41.js:1 | A longer insertion goes in chunks of 20000 lines: which lines each chunk has and where it is inserted. |
| Limits.WhatGoesWrong | docs/static/js/chunk-0fd67716.d57e2c41.js:1 | In numbers: a stray line is left exactly by insertions of more than 20000 lines, a multiple of 19999, in the last row; and exactly which deltas are not undone. |
| Replica.PackUnpack | docs/static/js/chunk-0fd67716.d57e2c41.js:1 | Packing change events as flat (start, lines) and (start, end) pairs and unpacking them gives each event back without the part that packing loses. |
| Replica.ReplicaOne | docs/static/js/chunk-0fd67716.d57e2c41.js:1 | Replaying the events of one `applyDelta`, whole or packed, on a replica with the same lines leaves the same lines, if and only if the delta is not a split insertion whose last chunk is empty. |
| Replica.ReplicaRun | docs/static/js/chunk-0fd67716.d57e2c41.js:1 | Replaying all events of a run in which no insertion ends in an empty chunk, whole or packed, gives the same lines. |
| Replica.EmptyChunkMissed | docs/static/js/chunk-0fd67716.d57e2c41.js:1 | The concrete failure: after 39998 lines are inserted into an empty document the replica has other lines. |
| Replica.EndsEmptyInNumbers | docs/static/js/chunk-0fd67716.d57e2c41.js:1 | In numbers: the insertions that a replica does not follow are those of more than 20000 lines, a multiple of 19999. |
| Newlines.SplitJoin | docs/static/js/chunk-0fd67716.d57e2c41.js:1 | Splitting a string at its line breaks and joining with a newline gives the string back if and only if every line break in it is that newline. |
| Newlines.JoinSplit | docs/static/js/chunk-0fd67716.d57e2c41.js:1 | Joining lines and splitting again gives the lines back if and only if no line contains a line break. |
| Ranges.LinesForRangeIsBetween | docs/static/js/chunk-0fd67716.d57e2c41.js:1 | Between two valid positions in order `getLinesForRange`, with its array slices and substrings, is the text between them. |
| Ranges.SliceFromEnd | docs/static/js/chunk-0fd67716.d57e2c41.js:1 | Outside the text `getLinesForRange` relies on `slice`, whose negative arguments count from the end. |
| Ranges.RemoveDeltaApplicable | docs/static/js/chunk-0fd67716.d57e2c41.js:1 | The delta of `remove` can be applied for any two points, and is an edit when the clipped ends are in order. |
| Ranges.InsertEffect | docs/static/js/chunk-0fd67716.d57e2c41.js:1 | Inserting at a valid position gives the text with the lines merged in, plus a stray line exactly for the stray-line insertions. |
| Ranges.RemoveEffect | docs/static/js/chunk-0fd67716.d57e2c41.js:1 | Removing between two valid positions in order gives the text without what lies between. |
| Ranges.InsertBeforeRow | docs/static/js/chunk-0fd67716.d57e2c41.js:1 | The shape `insertFullLines` uses before a row is insertion of whole lines. |
| Ranges.InsertAfterLast | docs/static/js/chunk-0fd67716.d57e2c41.js:1 | The shape it uses after the last row is appending whole lines. |
| Ranges.RemoveRows | docs/static/js/chunk-0fd67716.d57e2c41.js:1 | Each of the three ranges that `removeFullLines` chooses from removes exactly the rows, the last of them down to one empty line. |
| Ranges.ReplaceStart | docs/static/js/chunk-0fd67716.d57e2c41.js:1 | `replace` inserts where its removal took place if and only if its start lies beyond the last row, or not beyond the end of its line, or nothing was left behind the removed range on that line. |
| Ranges.ReplaceIsSplice | docs/static/js/chunk-0fd67716.d57e2c41.js:1 | `replace` is a splice of the joined text between the indices of the clipped ends if and only if the new text commutes with what lies between the places of removal and insertion, which is nothing exactly under the condition above. |
| Ranges.ReplaceMovesOn | docs/static/js/chunk-0fd67716.d57e2c41.js:1 | The concrete failure: a start behind the end of its line is clipped to the end of what the removal leaves there. |
| Ranges.ClipIsNearest | docs/static/js/chunk-0fd67716.d57e2c41.js:1 | `clippedPos` gives the nearest row and then the nearest column; an anchor in a negative row goes to the start instead. |
| Document.Anchor.constructor | docs/static/js/chunk-0fd67716.d57e2c41.js:1 | A new anchor is at its position clipped to the text. |
| Document.Anchor.OnChange | docs/static/js/chunk-0fd67716.d57e2c41.js:1 | The listener moves the anchor as filter and transform say. |
| Document.Document.FromText | docs/static/js/chunk-0fd67716.d57e2c41.js:1 | `new Document(text)`: the lines of the text, "\n" or its first line break as automatic newline, a stray line exactly in the stray case. |
| Document.Document.FromLines | docs/static/js/chunk-0fd67716.d57e2c41.js:1 | `new Document(lines)`: the lines, one empty line for an empty array. |
| Document.Document.CreateAnchor | docs/static/js/chunk-0fd67716.d57e2c41.js:1 | The anchor is registered and clipped. |
| Document.Document.Signal | docs/static/js/chunk-0fd67716.d57e2c41.js:1 | A change event reaches the log and every anchor exactly once. |
| Document.Document.ApplyDelta | docs/static/js/chunk-0fd67716.d57e2c41.js:1 | `applyDelta`: new lines, emitted events, every anchor, and the delta object as the call leaves it. |
| Document.Document.SplitAndApplyLargeDelta | docs/static/js/chunk-0fd67716.d57e2c41.js:1 | `$splitAndapplyLargeDelta`: terminates, applies all chunks but the last in order, and hands back the last. |
| Document.Document.FollowDelta | docs/static/js/chunk-0fd67716.d57e2c41.js:1 | The same as every other operation uses it: all that was added to the event log was heard by every anchor, in order. |
| Document.Document.RevertDelta | docs/static/js/chunk-0fd67716.d57e2c41.js:1 | `revertDelta` applies the inverse; its events, and the anchors that follow them. |
| Document.Document.ApplyDeltas | docs/static/js/chunk-0fd67716.d57e2c41.js:1 | `applyDeltas`: the run on the lines, its events, the anchors that follow them, and the delta objects left behind. |
| Document.Document.RevertDeltas | docs/static/js/chunk-0fd67716.d57e2c41.js:1 | `revertDeltas`: the run of inverses from the last delta to the first, its events, and the anchors that follow them. |
| Document.Document.ApplyAndRevert | docs/static/js/chunk-0fd67716.d57e2c41.js:1 | On the object itself: applying a run and reverting the delta objects it leaves restores the lines if and only if every delta was undoable. |
| Document.Document.InsertMergedLines | docs/static/js/chunk-0fd67716.d57e2c41.js:1 | Lines, events, returned end; anchors stay in the text. |
| Document.Document.Insert | docs/static/js/chunk-0fd67716.d57e2c41.js:1 | The text is split and inserted at the clipped position; newline detection only in a document of at most one line. |
| Document.Document.Remove | docs/static/js/chunk-0fd67716.d57e2c41.js:1 | For any two points; the text without what lies between when the clipped ends are in order. |
| Document.Document.InsertFullLines | docs/static/js/chunk-0fd67716.d57e2c41.js:1 | Whole lines before a row, negative and oversized rows clipped. |
| Document.Document.RemoveFullLines | docs/static/js/chunk-0fd67716.d57e2c41.js:1 | Whole rows removed and returned, never the last remaining line; also what happens when the first row comes after the last. |
| Document.Document.RemoveNewLine | docs/static/js/chunk-0fd67716.d57e2c41.js:1 | Joins a row with the next, nothing if there is none. |
| Document.Document.SetValue | docs/static/js/chunk-0fd67716.d57e2c41.js:1 | `setValue` replaces everything by the lines of the text. |
| Document.Document.SetThenGet | docs/static/js/chunk-0fd67716.d57e2c41.js:1 | A text that is set and read again in the automatic newline mode comes back if and only if all its line breaks are the same. |
| Document.FirstBreakMeans | docs/static/js/chunk-0fd67716.d57e2c41.js:1 | The newline that is detected is the first of `\r\n`, `\r` and `\n` in the text, and `\n` if there is none. |
| Document.Document.Replace | docs/static/js/chunk-0fd67716.d57e2c41.js:1 | The outcomes of `replace` for any two points, with the position it returns; the insertion is clipped against the text after the removal. |
| Document.Document.PositionToIndex | docs/static/js/chunk-0fd67716.d57e2c41.js:1 | `positionToIndex`, with its row limit and start row, counts whole rows before the position. |
| Document.Document.IndexToPosition | docs/static/js/chunk-0fd67716.d57e2c41.js:1 | `indexToPosition` finds the row that contains the index, or the end. |
| Document.Document.PositionRoundTrip | docs/static/js/chunk-0fd67716.d57e2c41.js:1 | A valid position survives the trip to its index and back. |
| Document.PositionAtUnique | docs/static/js/chunk-0fd67716.d57e2c41.js:1 | The position of an index is unique. |
| Document.IndexRoundTrip | docs/static/js/chunk-0fd67716.d57e2c41.js:1 | Every index up to the text length comes back from its position; the position is one of the text if and only if the index is not inside a newline; with a newline of one character it always is, and larger indices give the end. |
| Document.PositionMonotone | docs/static/js/chunk-0fd67716.d57e2c41.js:1 | A larger index has a later position, also among the indices inside a newline: the map from indices is strictly monotone too. |
| Document.InsideNewline | docs/static/js/chunk-0fd67716.d57e2c41.js:1 | With a newline of two characters every text of several lines has an index whose position is none of the text. |
| Mirror.Mirror.SetValue | docs/static/js/chunk-0fd67716.d57e2c41.js:1 | The replica takes over a whole value. |
| Mirror.Mirror.OnDeltas | docs/static/js/chunk-0fd67716.d57e2c41.js:1 | A message of whole deltas is applied as a run. |
| Mirror.Mirror.OnPairs | docs/static/js/chunk-0fd67716.d57e2c41.js:1 | A message of pairs is applied as the run it unpacks to. |
| Mirror.Mirror.Receive | docs/static/js/chunk-0fd67716.d57e2c41.js:1 | What the replica makes of a sent queue: the client (`$sendDeltaQueue`, in docs/static/js/chunk-vendors.9a4add2b.js) replaces a long one by the whole value and sends any other as pairs. |
| Mirror.Mirror.Replicate | docs/static/js/chunk-0fd67716.d57e2c41.js:1 | A replica in step stays in step through apply, queue, send and receive, when no insertion ends in an empty chunk and a whole value has no line breaks inside its lines. |
| Decimal.Repeat | docs/static/js/chunk-0c58d94d.d009b662.js:2 | The `repeat` polyfill by binary doubling is repetition, for every count below 2^32. |
| Decimal.PowerTimes | docs/static/js/chunk-0c58d94d.d009b662.js:2 | The power helper by squaring is multiplication by a power. |
| Decimal.NumeralDenotes | docs/static/js/chunk-0c58d94d.d009b662.js:2 | The numeral of a number consists of digits that denote it. |
| Decimal.NumeralAppend | docs/static/js/chunk-0c58d94d.d009b662.js:2 | Appending a zero-padded block of digits multiplies by the power and adds. |
| Limbs.Accumulator.MultiplyAdd | docs/static/js/chunk-0c58d94d.d009b662.js:2 | `m`: the six limbs, of which the lowest may hold a half, hold the product plus the addend; no intermediate value leaves what a double represents exactly, and no carry is lost. |
| Limbs.Accumulator.Divide | docs/static/js/chunk-0c58d94d.d009b662.js:2 | `g`: the limbs hold the truncated quotient, for every divisor up to 2^23; a half is dropped with the remainder. |
| Limbs.Accumulator.ToText | docs/static/js/chunk-0c58d94d.d009b662.js:2 | `w`: the limbs read as the decimal numeral without leading zeros. |
| Rounding.FloorOfRounded | docs/static/js/chunk-0c58d94d.d009b662.js:2 | Why `Math.floor(r / e)` is an integer quotient: for integers below 2^53, rounding the quotient to a double never takes it past an integer. |
| Doubles.Log2 | docs/static/js/chunk-0c58d94d.d009b662.js:2 | The logarithm by repeated division is the binary one rounded down, and 0 below 2. |
| Doubles.Decompose | docs/static/js/chunk-0c58d94d.d009b662.js:2 | Taking a double apart: the exponent and the mantissa come out exactly, with half the mantissa in the last binade above 1e-21, which is scaled like the one above it. |
| Doubles.HugeInNumbers | docs/static/js/chunk-0c58d94d.d009b662.js:2 | In numbers: which doubles are at least 10^21. |
| ToFixed.ScaleUp | docs/static/js/chunk-0c58d94d.d009b662.js:2 | The multiplications by 10^7 and the rest give the product with 10^d. |
| ToFixed.ShiftDown | docs/static/js/chunk-0c58d94d.d009b662.js:2 | The chain of truncating divisions by 2^23 and the rest is one truncating division by the power of two. |
| ToFixed.RoundingStep | docs/static/js/chunk-0c58d94d.d009b662.js:2 | Adding one to the doubled quotient and halving rounds half up. |
| ToFixed.HalfUpIsNearest | docs/static/js/chunk-0c58d94d.d009b662.js:2 | Rounding half up gives the integer for which n/10^d - x is as close to zero as possible, the larger of two (section 20.1.3.3 of ECMA-262, ES2015). |
| ToFixed.NearestUnique | docs/static/js/chunk-0c58d94d.d009b662.js:2 | There is only one such integer. |
| ToFixed.PointPlaced | docs/static/js/chunk-0c58d94d.d009b662.js:2 | Slicing or padding the numeral around the point writes that integer with d fraction digits. |
| ToFixed.FixedShape | docs/static/js/chunk-0c58d94d.d009b662.js:2 | The text has exactly d digits after the point, no superfluous leading zero, and digits that denote the integer. |
| ToFixed.ToFixed | docs/static/js/chunk-0c58d94d.d009b662.js:2 | `toFixed` for every double: range error, "NaN", the host text from 10^21 on, and otherwise the nearest integer, the larger on ties, with sign and point. |
| Json5RoundTrip.EscapeRead | docs/static/js/app.0f2f48b5.js:1 | Every escape the printer writes is read back as the one code unit it stands for. |
| Json5RoundTrip.QuoteRead | docs/static/js/app.0f2f48b5.js:1 | Every quoted string is read back, whatever its code units. |
| Json5RoundTrip.KeyIsQuoted | docs/static/js/app.0f2f48b5.js:1 | Keys are printed quoted, words or not. |
| Json5RoundTrip.RoundTrip | docs/static/js/app.0f2f48b5.js:1 | For every plain value and whitespace indent: printing fails if and only if an object has an own member that hides a method the printer calls; the text is parsed to the value without `__proto__` members; so to the value itself if and only if there are none. |
| Json5RoundTrip.Unfaithful | docs/static/js/app.0f2f48b5.js:1 | The concrete failures: an object with a member `valueOf` cannot be printed, one with a member `__proto__` comes back empty. |
| Json5Parser.Parser.Advance | docs/static/js/app.0f2f48b5.js:1 | `u()` moves the cursor by one code unit, and stays at the end. |
| Json5Parser.Parser.Skip | docs/static/js/app.0f2f48b5.js:1 | `u(c)` moves past `c`; at any other character, or at the end, it fails and leaves the cursor where it is. |
| Json5Parser.Parser.ReadComment | docs/static/js/app.0f2f48b5.js:1 | A comment, read in place, ends behind its first line feed, carriage return or end of text, or behind the first star and slash; a slash before anything else fails, and so does a block comment that is never closed. |
| Json5Parser.Parser.ReadWhite | docs/static/js/app.0f2f48b5.js:1 | White characters and comments are skipped to the first character that is neither; fails exactly when a comment does. |
| Json5Parser.Parser.ReadHex | docs/static/js/app.0f2f48b5.js:1 | The value of up to four hexadecimal digits; any other character ends the escape early and becomes the current one, and the value always fits a code unit. |
| Json5Parser.Parser.ReadString | docs/static/js/app.0f2f48b5.js:1 | The string between equal quotes with its escapes resolved: a backslash before a line feed, a carriage return or both continues the line; a bare line feed, an unknown escape and a missing closing quote fail. |
| Json5Parser.Parser.ReadIdentifier | docs/static/js/app.0f2f48b5.js:1 | The longest word of letters, digits, `_` and `$` that does not begin with a digit; fails exactly when there is none. |
| Json5Parser.Parser.ReadWord | docs/static/js/app.0f2f48b5.js:1 | `true`, `false`, `null`, `Infinity` and `NaN`, chosen by the first letter; what stands behind the last letter is not looked at. |
| Json5Parser.Parser.ReadNumeral | docs/static/js/app.0f2f48b5.js:1 | The longest unsigned numeral, hexadecimal after `0x`, else digits, fraction and exponent, any of which may be missing; a zero before a digit fails. |
| Json5Parser.Parser.ReadNumber | docs/static/js/app.0f2f48b5.js:1 | A sign, a word or a numeral, and their value: whole numbers of up to 15 digits exactly, longer numerals as a number object with their text, the rest as the host converts them. |
| Json5Parser.Parser.ReadKey | docs/static/js/app.0f2f48b5.js:1 | A quoted string, or else a word, as the key. |
| Json5Parser.Parser.ReadMember | docs/static/js/app.0f2f48b5.js:1 | Key, colon and value with whitespace and comments around each. |
| Json5Parser.Parser.ReadObject | docs/static/js/app.0f2f48b5.js:1 | Members between commas, of which one may trail; a later member with the same key replaces the earlier one, and a member `__proto__` is dropped. |
| Json5Parser.Parser.ReadArray | docs/static/js/app.0f2f48b5.js:1 | Values between commas, of which one may trail; two commas in a row fail. |
| Json5Parser.Parser.ReadValue | docs/static/js/app.0f2f48b5.js:1 | After whitespace, the object, array, string, number or word that the first character announces, with the rest of the text behind it. |
| Json5Parser.Parse | docs/static/js/app.0f2f48b5.js:1 | `parse` on the shared cursor computes the grammar, for every text; it terminates. |
| Json5Reading.SpellingParsed | docs/static/js/app.0f2f48b5.js:1 | Every spelling of a value (blanks and comments between tokens, either quote, every escape and line continuation, every form of number, words as keys, a trailing comma) is parsed to what it means. |
| Json5Complete.ParsedIffSpelled | docs/static/js/app.0f2f48b5.js:1 | A text is parsed if and only if it is such a spelling, and then to its meaning: digits alone to an integer, more than 15 characters to a number that keeps its text, other numerals to the number of the host with that sign and text. |
| Json5Layout.StringPrinted | docs/static/js/app.0f2f48b5.js:1 | Strings and keys are printed between quotation marks; which characters become which escapes. |
| Json5Layout.NumberPrinted | docs/static/js/app.0f2f48b5.js:1 | Integers are printed as their decimal digits, without a leading zero. |
| Json5Layout.PrintedInLines | docs/static/js/app.0f2f48b5.js:1 | With an indent the text of a value is its lines, each behind the indent as often as it is deep: brackets end a line or stand on their own, parts are one deeper, commas stand behind all but the last. |
| Json5Layout.PrintedTogether | docs/static/js/app.0f2f48b5.js:1 | Without an indent it is the same lines without breaks and blanks. |
| Json5Layout.PrintFails | docs/static/js/app.0f2f48b5.js:1 | Printing fails on objects with a member `valueOf` or `hasOwnProperty`, at any depth, and on nothing else. |
| Dom.WithoutAt | docs/static/js/chunk-214218f0.92c7a521.js:1 | Taking a node out of a child sequence leaves the rest in order. |
| Dom.RemovedWorld | docs/static/js/chunk-214218f0.92c7a521.js:1 | The pointer updates of `_removeChild` keep first, last, sibling and parent links and child lists describing one same sequence at every node, if and only if the node is a child, or its links say nothing that the lists do not say; then they take exactly that node out. |
| Dom.SplicedWorld | docs/static/js/chunk-214218f0.92c7a521.js:1 | The pointer updates of `_insertBefore` keep that at every node and put the block, in order, in front of the reference child or at the end. |
| DomSteps.AfterInsertWorld | docs/static/js/chunk-214218f0.92c7a521.js:1 | An insertion as a whole: the invariant, every list and every parent afterwards. |
| DomEdit.Rebuild | docs/static/js/chunk-214218f0.92c7a521.js:1 | `_onUpdateChild` reads the child list off the links again. |
| DomEdit.RemoveChild | docs/static/js/chunk-214218f0.92c7a521.js:1 | `_removeChild` on the heap: all links, the invariant, the child sequence, the child in no list. |
| DomEdit.Leave | docs/static/js/chunk-214218f0.92c7a521.js:1 | The first step of every insertion takes the node out of wherever it is. |
| DomEdit.InsertBefore | docs/static/js/chunk-214218f0.92c7a521.js:1 | `_insertBefore` on the heap, for a node or a fragment, fresh, attached or removed before: all links, the invariant, the child sequence of every node, and the parents that stay. |
| DomEdit.AppendSingleChild | docs/static/js/chunk-214218f0.92c7a521.js:1 | `_appendSingleChild`: the same links as `_insertBefore` without a reference child, although it only pushes to the child list. |
| DomEdit.AppendIsSplice | docs/static/js/chunk-214218f0.92c7a521.js:1 | Its pointer assignments are those of a splice at the end. |
| DomEdit.ReplaceChild | docs/static/js/chunk-214218f0.92c7a521.js:1 | `replaceChild`: the new nodes stand where the old child stood, or at the end when there is none. |
| DomRuns.RunKeeps | docs/static/js/chunk-214218f0.92c7a521.js:1 | After every legal run of insertions, removals and replacements the pointers of all nodes describe exactly the lists that the same run makes of plain lists, and the nodes that are gone are those it says. |
| DomRuns.FreeRunIsLegal | docs/static/js/chunk-214218f0.92c7a521.js:1 | Every run on the lists in which no gone node comes back is legal, whatever links the gone nodes have kept. |
| DomRuns.GoneNodeBreaks | docs/static/js/chunk-214218f0.92c7a521.js:1 | Why gone nodes may not come back: once another node stands where a removed one stood, taking the removed one out of its former list would break that list. |
| DomRuns.BeforeItself | docs/static/js/chunk-214218f0.92c7a521.js:1 | Why a node may not be its own reference child: its links would describe no list that it is in. |
| DomTrees.ContentKept | docs/static/js/chunk-214218f0.92c7a521.js:1 | `normalize` keeps every character, every other node, and where the characters stand between them, at every depth. |
| DomTrees.NormalHasNoAdjacentTexts | docs/static/js/chunk-214218f0.92c7a521.js:1 | After it no two text nodes follow each other at any depth. |
| DomTrees.NormalFixed | docs/static/js/chunk-214218f0.92c7a521.js:1 | It leaves a tree as it is if and only if no two text nodes follow each other. |
| DomNormalize.Normalize | docs/static/js/chunk-214218f0.92c7a521.js:1 | `normalize` on the heap: terminates, builds exactly that tree out of the old nodes, keeps the sibling-list invariant everywhere and changes nothing outside the tree. |
| DomNormalize.MergeText | docs/static/js/chunk-214218f0.92c7a521.js:1 | One round: the following text node is removed and its data appended. |
| ScopeManager.Manager.constructor | docs/static/js/chunk-0fd67716.d57e2c41.js:1 | A new scope manager has the global scope only. |
| ScopeManager.Manager.Stack | docs/static/js/chunk-0fd67716.d57e2c41.js:1 | `stack`: the new scope is on top, `_current` is the top, `_currentFunctBody` the innermost function body or the global scope, parents are linked. |
| ScopeManager.Manager.Unstack | docs/static/js/chunk-0fd67716.d57e2c41.js:1 | `unstack`: uses are resolved or passed on, labels hoisted, the pointers kept as above, and at the global scope the globals in use and the implied globals are recorded. |
| ScopeManager.Manager.ResolveUses | docs/static/js/chunk-0fd67716.d57e2c41.js:1 | Its first loop, over the used names. |
| ScopeManager.Manager.HoistLabels | docs/static/js/chunk-0fd67716.d57e2c41.js:1 | Its second loop, over the labels, although the test it makes reads the table it writes. |
| ScopeManager.Manager.FindBody | docs/static/js/chunk-0fd67716.d57e2c41.js:1 | `findLastIndex` finds the innermost function body or the global scope. |
| ScopeManager.Manager.FunctHasLabel | docs/static/js/chunk-0fd67716.d57e2c41.js:1 | `funct.has`, with its options, searches up to the parameters of the current function. |
| ScopeLaws.HasMeans | docs/static/js/chunk-0fd67716.d57e2c41.js:1 | `funct.has` finds a name exactly when some scope declares it from which no parameter list separates the innermost scope. |
| ScopeManager.Manager.Use | docs/static/js/chunk-0fd67716.d57e2c41.js:1 | `block.use`: the token waits in the current scope; a parameter it refers to is used. |
| ScopeManager.Manager.Modify | docs/static/js/chunk-0fd67716.d57e2c41.js:1 | `block.modify` records in the current scope. |
| ScopeManager.Manager.Reassign | docs/static/js/chunk-0fd67716.d57e2c41.js:1 | `block.reassign` records a modification and a reassignment. |
| ScopeManager.Manager.AddLabel | docs/static/js/chunk-0fd67716.d57e2c41.js:1 | `addlabel`: block scoped or not, exported or not. |
| ScopeManager.Manager.AddParam | docs/static/js/chunk-0fd67716.d57e2c41.js:1 | `addParam`: a repeated parameter changes nothing. |
| ScopeLaws.UseMarks | docs/static/js/chunk-0fd67716.d57e2c41.js:1 | `block.use` marks as used exactly the parameter it refers to, one that the parameter list before the current function body declares and no block on the way hides; no other label changes. |
| ScopeLaws.ParameterOverRun | docs/static/js/chunk-0fd67716.d57e2c41.js:1 | Over any run a label is no longer unused exactly when some use in it referred to it as a parameter; nothing else of it changes. |
| ScopeLaws.ParameterStillUnused | docs/static/js/chunk-0fd67716.d57e2c41.js:1 | From `addParam` to the end of its scope: a parameter is still unused if and only if no use referred to it and its own scope holds none of its name. |
| ScopeLaws.UsageRecorded | docs/static/js/chunk-0fd67716.d57e2c41.js:1 | What `block.use`, `block.modify` and `block.reassign` write down: one list of one usage of the innermost scope grows. |
| ScopeLaws.DeclarationKind | docs/static/js/chunk-0fd67716.d57e2c41.js:1 | A block-scoped declaration is meant for the innermost scope, any other for the current function body. |
| ScopeLaws.LabelsAfterClose | docs/static/js/chunk-0fd67716.d57e2c41.js:1 | The labels around an unstacked scope, one by one: which leave their block, and how they are marked. |
| ScopeLaws.UsagesAfterClose | docs/static/js/chunk-0fd67716.d57e2c41.js:1 | The usages around an unstacked scope, one by one: joined, passed on or marked as made only in a function. |
| ScopeRuns.StepKeeps | docs/static/js/chunk-0fd67716.d57e2c41.js:1 | Every operation keeps the invariant: each use waits in at most one scope, under its own name, and no scope it came through declares the name. |
| ScopeRuns.OutcomeIsLexical | docs/static/js/chunk-0fd67716.d57e2c41.js:1 | At any time of any run a use is either decided, as the lexical rule says, or waits in exactly one scope. |
| ScopeRuns.EveryUseDecided | docs/static/js/chunk-0fd67716.d57e2c41.js:1 | When all scopes are unstacked every use was decided exactly once: by the innermost enclosing scope that declares its name when it is unstacked, or by none. |
| ScopeRuns.VarStaysVisible | docs/static/js/chunk-0fd67716.d57e2c41.js:1 | A label scoped to the function stays visible to `funct.has` when its block is unstacked. |
| ScopeRuns.LetIsGone | docs/static/js/chunk-0fd67716.d57e2c41.js:1 | A block-scoped label or an exception is gone with its block. |
| ScopeRuns.BodyMoves | docs/static/js/chunk-0fd67716.d57e2c41.js:1 | How opening and unstacking move the innermost function body. |
| ScopeRuns.OpenedAndClosed | docs/static/js/chunk-0fd67716.d57e2c41.js:1 | A scope in which nothing happened leaves no trace. |
| Closure.KeptIsReachable | docs/static/js/app.0f2f48b5.js:1 | The names kept for an operation are, each once, exactly those reachable from what it mentions, on any graph of definitions. |
| Closure.KeptIsReferred | docs/static/js/app.0f2f48b5.js:1 | All kept names are referred to, directly or through definitions; they are all that are referred to, and every name a kept definition mentions is kept, if and only if the definition of the blank name is missing, not reached, or mentions only what is reached without it. |
| Closure.BlankNotFollowed | docs/static/js/app.0f2f48b5.js:1 | The concrete failure: a definition under the blank name is not looked into. |
| Closure.Found.Collect | docs/static/js/app.0f2f48b5.js:1 | `Ee` with its shared array is the depth-first visit; it terminates on cycles. |
| Closure.Found.ReadOperation | docs/static/js/app.0f2f48b5.js:1 | `readOpenApiSpeciOAS2`: the kept object has exactly the reachable names, a missing definition as missing; walking only the first names found is enough. |
| Expansion.EndsIff | docs/static/js/app.0f2f48b5.js:1 | The recursion of `Ae` ends if and only if no chain of nested calls, followed through the definitions, comes back to a definition with the same names on its path. |
| Expansion.ModelsEnd | docs/static/js/app.0f2f48b5.js:1 | So without dictionaries (`additionalProperties`) it ends on any graph of references, and expands no definition twice on one path. |
| Expansion.SelfDictionaryLoops | docs/static/js/app.0f2f48b5.js:1 | A concrete failure: a dictionary of itself is expanded without end. |
| Expansion.LaterTargetLoops | docs/static/js/app.0f2f48b5.js:1 | Another: a dictionary whose target stands later among the definitions adds the properties of the target to its own node, and so without end. |
| Expansion.RunExpands | docs/static/js/app.0f2f48b5.js:1 | What it builds is fully expanded: each node has the child of every step of the loop over the definitions, and none only where its reference is on its own path or leads nowhere. |
| Expansion.ExpandedIsRun | docs/static/js/app.0f2f48b5.js:1 | Any finite fully expanded tree is the one it builds. |
| Expansion.RepeatlessIff | docs/static/js/app.0f2f48b5.js:1 | In such a tree no definition is expanded twice on one path, if and only if no chain of nested calls goes back, through a dictionary that stands before its target, to a definition on its path; the child of a dictionary starts a new path. |
| Expansion.DictionaryRepeats | docs/static/js/app.0f2f48b5.js:1 | A concrete finite tree in which one is. |
| ExpansionTree.Expand | docs/static/js/app.0f2f48b5.js:1 | `Ae` on the heap, its loop going on after a dictionary with the name of the target: the children appended to the node, and all below them, are that tree, in fresh objects. |
| ExpansionTree.AddProperty | docs/static/js/app.0f2f48b5.js:1 | One property: its node, type, reference and children. |
| ExpansionLaws.StepShown | docs/static/js/app.0f2f48b5.js:1 | Every child shows its property or dictionary: name, type ("array", or the reference, or its own), path and level below its parent, schema mark unless the reference is a basic type, and what it is expanded for. |
| ExpansionLaws.EveryNode | docs/static/js/app.0f2f48b5.js:1 | So does every node of the tree, and each comes from a definition. |
| ExpansionLaws.StepsAre | docs/static/js/app.0f2f48b5.js:1 | What a node gets: the properties of a model in order; the child of a dictionary, and then what its target gets if that stands later. |
| ExpansionLaws.ChildrenOfModel | docs/static/js/app.0f2f48b5.js:1 | The children of a model node are its properties in order, each expanded for its reference. |
| ExpansionLaws.ChildrenOfDictionary | docs/static/js/app.0f2f48b5.js:1 | A dictionary node begins with the child of the dictionary; more children come only from a target that stands later. |
| Base64.Encode | docs/static/js/app.0f2f48b5.js:1 | `base64Encode` is the encoding of section 4 of RFC 4648 of the low bytes of the string. |
| Base64.RoundTrip | docs/static/js/app.0f2f48b5.js:1 | A strict decoder gives those bytes back; the length is four for each three bytes begun; they are the string if and only if each code unit fits a byte. |
| EncodingLaws.Alphabet | docs/static/js/app.0f2f48b5.js:1 | The digits are the capital letters, the small letters, the decimal digits, `+` and `/`. |
| EncodingLaws.OnlyDigits | docs/static/js/app.0f2f48b5.js:1 | The strict decoder takes these digits and nothing else. |
| EncodingLaws.Vectors | docs/static/js/app.0f2f48b5.js:1 | The test vectors in section 10 of RFC 4648. |
| Percent.Encode | docs/static/js/chunk-0c58d94d.d009b662.js:2 | `encode` is the percent-encoded UTF-8 (section 3 of RFC 3629, sections 2.1 and 2.3 of RFC 3986) of the code points it sees. |
| Percent.EncodedIsPercentText | docs/static/js/chunk-0c58d94d.d009b662.js:2 | Only unreserved characters and percent triplets come out. |
| Percent.SeenIsText | docs/static/js/chunk-0c58d94d.d009b662.js:2 | The code points it sees are those of the string if and only if the string is well-formed UTF-16. |
| Percent.DecodeEncode | docs/static/js/chunk-0c58d94d.d009b662.js:2 | `decode` after `encode` gives the string back if and only if it is well-formed UTF-16; any other comes back with its surrogates re-paired. |
| Percent.LoneSurrogate | docs/static/js/chunk-0c58d94d.d009b662.js:2 | The concrete failure: a lone surrogate takes the unit after it along. |
| EncodingLaws.AsciiEncoded | docs/static/js/chunk-0c58d94d.d009b662.js:2 | Letters, digits, `-`, `.`, `_` and `~` stand for themselves, any other ASCII character for a percent sign and two upper-case hexadecimal digits. |
| EncodingLaws.ManyBytes | docs/static/js/chunk-0c58d94d.d009b662.js:2 | Characters beyond ASCII become the triplets of two or three bytes. |
| EncodingLaws.SurrogateTakesNext | docs/static/js/chunk-0c58d94d.d009b662.js:2 | A surrogate and whatever follows it make one code point; at the end of the string a 0 is read. |
| EncodingLaws.PlusIsSpace | docs/static/js/chunk-0c58d94d.d009b662.js:2 | `decode` reads a plus sign as a space. |
| EncodingLaws.BrokenIsKept | docs/static/js/chunk-0c58d94d.d009b662.js:2 | `decode` keeps text with an escape that breaks off. |
| QsPaths.PartsAre | docs/static/js/chunk-0c58d94d.d009b662.js:2 | `stringify` writes one parameter for each leaf, under the name of the path to it. |
| QsLaws.Written | docs/static/js/chunk-0c58d94d.d009b662.js:2 | The text of an object, cut at its ampersands, of which there is one fewer than leaves, is for each leaf from left to right its name (`a[b][0]`, percent-encoded), one equals sign and its value. |
| QsLaws.IndexDigits | docs/static/js/chunk-0c58d94d.d009b662.js:2 | The key of an array item is its index in decimal. |
| QsPaths.NameParsed | docs/static/js/chunk-0c58d94d.d009b662.js:2 | Key splitting and nesting turn the name of a path into the value with one leaf at its end. |
| QsPaths.NameInjective | docs/static/js/chunk-0c58d94d.d009b662.js:2 | Different paths have different names, so no two parameters are combined. |
| QsRoundTrip.PartRead | docs/static/js/chunk-0c58d94d.d009b662.js:2 | One `key=value` is cut and decoded to key and value. |
| QsLaws.ParameterRead | docs/static/js/chunk-0c58d94d.d009b662.js:2 | Any parameter is cut at its equals sign and both sides are decoded; without one the value is empty. |
| QsLaws.RepeatedName | docs/static/js/chunk-0c58d94d.d009b662.js:2 | The values of a repeated name are read as an array, in order. |
| QsLaws.MergedItem | docs/static/js/chunk-0c58d94d.d009b662.js:2 | An item with an index that is merged into an array: two objects at one index are merged, a hole is filled, and where anything else stands it comes last. |
| QsLaws.MergedText | docs/static/js/chunk-0c58d94d.d009b662.js:2 | A text that is merged into an array, a text or an object. |
| QsLaws.IndexLimit | docs/static/js/chunk-0c58d94d.d009b662.js:2 | Numerals up to 20 are array indices, larger ones keys of objects. |
| QsLaws.DeepName | docs/static/js/chunk-0c58d94d.d009b662.js:2 | Of a longer path six keys are read; the rest becomes one key, brackets and all. |
| QsLaws.MemberRefused | docs/static/js/chunk-0c58d94d.d009b662.js:2 | A name that begins with a member of every object, or has one in its first brackets, is dropped. |
| QsLaws.FirstThousand | docs/static/js/chunk-0c58d94d.d009b662.js:2 | Parameters beyond the 1000th are not read. |
| QsRoundTrip.Rebuilt | docs/static/js/chunk-0c58d94d.d009b662.js:2 | Merging the values of the leaves one after the other, in order, gives the whole tree. |
| QsRoundTrip.CompactKept | docs/static/js/chunk-0c58d94d.d009b662.js:2 | `compact` leaves it as it is. |
| QsRoundTrip.RoundTrip | docs/static/js/chunk-0c58d94d.d009b662.js:2 | `parse` gives back what `stringify` was given: non-empty nested objects and arrays of well-formed strings, at most six keys on a path, 21 items in an array and 1000 leaves, under non-empty bracket-free keys that are no `Object.prototype` names and, below the root, no array indices. |
| QsRoundTrip.EmptyIsLost | docs/static/js/chunk-0c58d94d.d009b662.js:2 | Why they must not be empty: an empty object or array under any key is not written at all. |

## Left out

- Document.Document.PositionToIndex: states the count of whole rows before the position; that it is the inverse of `indexToPosition` is stated by `PositionRoundTrip` and `IndexRoundTrip`.
- Mirror.Mirror.Replicate: one batch of events is sent at once; timers and the message channel are left out.
- ToFixed.ToFixed: a double is its 53-bit mantissa and exponent; products and quotients with powers of two, which are exact, are taken over the reals. The host's text from 10^21 on is not modelled.
- Json5RoundTrip.RoundTrip: conversion of fractions, exponents and hexadecimal numerals by the host is a parameter; integer-like keys are not moved to the front, and minus zero is not told from zero.
- Json5Parser.Parse: says whether parsing fails, not with which message, line or column; the reviver is left out.
- The printer's replacer, `toJSON`, indents other than whitespace and the check for circular values.
- DomEdit.InsertBefore: the reference child must be a child of the parent, and another node than the inserted one; that the inserted node is no ancestor of the parent is not needed for what is proved. The cached child list of a fragment is not kept up by the source and not claimed.
- DomNormalize.Normalize: the tree below the node, in which no node occurs twice, is a ghost argument.
- Document nodes with their root element, attributes, namespaces, cloning, serialization and live lists other than the counter they compare.
- ScopeManager.Manager.Unstack: without its warnings, `useOutsideOfScope` reports, unused-label lists and tokens marked to be forgiven; the order in which names are enumerated is arbitrary, and nothing stated depends on it.
- ScopeManager.Manager.ResolveUses: without its warnings, as for `Unstack`.
- ScopeManager.Manager.AddParam: without its warnings and the mark on a repeated parameter, which only a warning reads.
- ScopeManager.Manager.AddLabel: without its warnings and break labels; the table of exported names is fixed.
- Closure.Found.ReadOperation: a definition's text is its list of mentioned names; the pattern that finds them is left out, as is the variant for OpenAPI 3, which looks names up elsewhere.
- ExpansionTree.Expand: where the recursion ends, since a stack overflow is not modelled; identifiers, descriptions, examples, `required` and the reference type computed for a property are left out, and a node without children has an empty list instead of none.
- Base64.Encode: joined bits are added, since they never overlap; likewise `Percent.Encode`.
- Percent.Encode: UTF-8 only; the ISO-8859-1 branches call the host. The host's `decodeURIComponent` is given as a specification.
- QsRoundTrip.RoundTrip: one way only, with the conditions above; which other trees happen to survive is not characterised. Default options only, enumeration in insertion order.
- Qs.Merge: on values, so that it writes into its target, and the sharing this creates, are not captured.
- The Java services and the contract scripts: loops that delegate to code not in the repository's bundles, with little to state.
- The JSHint parser and its warnings, highlighters, folding, XML and CSS formatting, and the user interface: large, without a crisp law.
