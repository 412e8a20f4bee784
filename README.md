# ot-es.js core, modelled in Dafny

ot-es.js is an ES-module port of ot.js, a library for Operational Transformation (OT) of plain text. Several people edit one document at once. Every edit is a *text operation*: a run of `retain(n)`, `insert(s)` and `delete(n)` primitives that walks the document from left to right.

- A central **server** keeps the authoritative document and its history of accepted operations. It rebases any operation made at an old revision through the operations accepted since then.
- Each **client** is a small state machine with five states: Synchronized, AwaitingConfirm, AwaitingWithBuffer, Stale and StaleWithBuffer. At most one of its operations is in flight at a time, and it buffers further local edits until that operation is acknowledged.
- Around these sit:
  - the operation algebra: builder, apply, invert, compose, transform, JSON encoding and the undo heuristics;
  - selections;
  - wrapped operations, which carry metadata such as the selection before and after an edit;
  - the undo manager;
  - the undo-recording part of the editor client.

The project models all of these as Dafny values, functions, lemmas and classes, and proves the laws the library relies on:

- **apply on lengths:** an operation applies exactly to documents of its base length and yields its target length;
- **invert:** applying the inverse undoes the operation;
- **compose:** the composition does the same as both operations in order;
- **transform:** the two transformed operations meet in the same document, and the two composed paths are the same operation;
- **JSON:** decoding an encoded operation gives it back;
- **server:** an accepted operation keeps the history and the document consistent, and reaches the document its author reaches;
- **client:** each state stays consistent with the server's document;
- **undo:** the stacks stay within their limit and keep undoing to the right document after remote edits.

## Layout

| file | module | models |
|---|---|---|
| wrappers.dfy | Wrappers | `Option` and `Result`: the thrown errors |
| text_operation.dfy | TextOperation | primitives, normal form, lengths, the builder step `Add`, `apply` |
| builder.dfy | Building | the mutating builder object (`retain`, `insert`, `delete`) |
| compose.dfy | Composition | `compose` |
| transform.dfy | Transformation | `transform` |
| convergence.dfy | Convergence | the structural transform law `a ∘ b' = b ∘ a'` |
| invert.dfy | Inversion | `invert` |
| json.dfy | JsonValues, OperationJson | `toJSON` and `fromJSON` |
| display.dfy | Display | `toString` |
| heuristics.dfy | Heuristics | `isNoop`, `shouldBeComposedWith`, `shouldBeComposedWithInverted`, and the mirror law between them |
| selection.dfy | Selections | `Range` and `Selection`: transform, `createCursor`, `somethingSelected`, `compose`, `fromJSON` |
| meta.dfy | Metadata | metadata values and the `invert`, `compose` and `transform` methods of `SelfMeta`, `OtherMeta` and `Selection` |
| wrapped_operation.dfy | WrappedOperations | `WrappedOperation` |
| history.dfy | Rebasing | rebasing an operation through a run of concurrent operations |
| server.dfy | ServerModel | `Server` |
| client.dfy | ClientModel | the client state machine, as functions and as the `Client` class |
| client_scenario.dfy | ClientScenario | the client test's first AwaitingConfirm exchange, worked through the transform |
| undo.dfy | Undo | `UndoManager` and its stacks |
| editor_client.dfy | EditorClientModel | `onChange`, `applyUnredo` and `sendSelection` of `EditorClient` |

### How the source was read

- **Text operations, selections and the undo manager.** `common/text-operation.js`, `common/selection.js` and `browser/undo-manager.js` are not part of this model's source files. These three are modelled from their tests: `test/jests/text-operation.test.js`, `test/jests/selection.test.js` and `test/jests/undomanager.test.js`. Where a test fixes only part of a behaviour, the model follows ot.js's published algorithms, and the table cites the test lines that pin it down.
- **Normal form.** An operation is always kept in the builder's normal form:
  - no zero-length primitive;
  - no two neighbours of the same kind;
  - never an insert directly after a delete.

  `TextOp` is that subset of `seq<Prim>`. Equality of operations (`equals`) is therefore plain equality.
- **Errors.** Every `throw` becomes a `Failure` of a `Result` or an `Option` error value.
- **Callbacks.** The client's callbacks `sendOperation`, `applyOperation` and `getOperations` become `Effect` values, appended to an `effects` log field.
- **`fromJSON` and the empty list.** The JSON round trip (test/jests/text-operation.test.js:134-142) decodes the encoding of every operation, the empty one included. So the model decodes `[]` to the empty operation.
- **The undo manager.** Its behaviour is read off test/jests/undomanager.test.js:
  - an `add` made from inside `performUndo`'s callback lands on the redo stack, so after the first undo both stacks hold one entry (lines 60-65); likewise an `add` from inside `performRedo` lands on the undo stack (lines 72-73);
  - the redo stack is emptied by an `add` in normal mode (lines 75-77), and only by that;
  - a composed `add` replaces the top entry by its composition with the new operation, so the three inserts of lines 75-80 undo together, back to "LoremIpsum" (lines 79-82).

## Model

| member | source | states |
|---|---|---|
| TextOperation.Apply | test/jests/text-operation.test.js:42-49 | `apply` succeeds exactly on documents of the base length, and the result has the target length; any other document is a base-length error |
| TextOperation.BaseLength | test/jests/text-operation.test.js:11-27 | defines the base length: retains and deletes count their characters, inserts none (`AddLengths` and `Build` state how the builder changes it) |
| TextOperation.TargetLength | test/jests/text-operation.test.js:11-27 | defines the target length: retains and inserts count their characters, deletes none |
| TextOperation.ApplyTo | test/jests/text-operation.test.js:42-49 | the walk `apply` performs on a document of the base length; its result has the target length (`ApplyConcat` and `BuildApply` relate it to the other operations) |
| TextOperation.Build | test/jests/text-operation.test.js:29-40 | feeding primitives to the builder gives a normalized operation with the same base and target lengths |
| TextOperation.BuildApply | test/jests/text-operation.test.js:62-78 | normalizing never changes what an operation does to a document |
| TextOperation.BuildNormalized | test/jests/text-operation.test.js:70-78 | an operation already in normal form is rebuilt unchanged, so two operations are equal exactly when their primitive lists are |
| TextOperation.AddLengths | test/jests/text-operation.test.js:11-27 | each builder call adds the primitive's base and target lengths to the operation's |
| TextOperation.Add | test/jests/text-operation.test.js:80-108 | defines one builder call: a zero-length primitive is dropped, one of the same kind as the last is merged into it, and an insert after a delete goes before it (its laws are `AddLengths`, `AddNormalized` and `AddApply`) |
| TextOperation.AddNormalized | test/jests/text-operation.test.js:80-108 | each builder call keeps the operation in normal form |
| TextOperation.AddApply | test/jests/text-operation.test.js:80-108 | merging, dropping zero-length primitives and moving an insert before a delete are invisible to `apply`: the operation with the primitive added does what the old one does, followed by the primitive |
| TextOperation.SnocNormalized | test/jests/text-operation.test.js:80-108 | a primitive appended keeps the normal form exactly when it is non-empty and may follow the last primitive |
| Building.OperationBuilder.constructor | test/jests/text-operation.test.js:6-14 | a new operation is empty, with base and target length 0 |
| Building.OperationBuilder.Retain | test/jests/text-operation.test.js:15-17 | `retain(n)` is the builder step for `Retain(n)`; it adds `n` to both lengths and keeps the normal form |
| Building.OperationBuilder.Insert | test/jests/text-operation.test.js:18-20 | `insert(s)` is the builder step for `Insert(s)`; it adds `|s|` to the target length only |
| Building.OperationBuilder.Delete | test/jests/text-operation.test.js:24-26 | `delete(n)` deletes `|n|` characters, so `delete(-1)` is `delete(1)`; it adds `|n|` to the base length only |
| Building.OperationBuilder.DeleteText | test/jests/text-operation.test.js:35-38 | `delete(str)` deletes `|str|` characters |
| Building.LengthsExample | test/jests/text-operation.test.js:11-27 | the lengths after `retain(5)`, `insert("abc")`, `retain(2)` and `delete(2)` are 5/5, 5/8, 7/10 and 9/10 |
| Building.ChainingExample | test/jests/text-operation.test.js:29-40 | the chained calls with zero-length arguments leave three primitives |
| Building.MergingExample | test/jests/text-operation.test.js:80-108 | successive retains, inserts and deletes merge into the last primitive, e.g. `"abc"` then `"xyz"` gives `"abcxyz"` |
| Building.EqualsLeft | test/jests/text-operation.test.js:71 | `delete(1).insert("lo").retain(2).retain(3)` builds insert `lo`, delete 1, retain 5 |
| Building.EqualsRight | test/jests/text-operation.test.js:72 | `delete(-1).insert("l").insert("o").retain(5)` builds the same three primitives |
| Building.EqualsExample | test/jests/text-operation.test.js:70-74 | `delete(1).insert("lo").retain(2).retain(3)` equals `delete(-1).insert("l").insert("o").retain(5)`; an insert after a delete moves in front of it |
| Building.EqualsDiffers | test/jests/text-operation.test.js:75-77 | after one more delete on one side and one more retain on the other, the two are different |
| Composition.Compose | test/jests/text-operation.test.js:208-229 | `compose` succeeds exactly when the first target length is the second base length; the result has the first's base length and the second's target length |
| Composition.ComposeApply | test/jests/text-operation.test.js:208-229 | applying `a.compose(b)` equals applying `a` then `b` |
| Composition.ComposeRaw | test/jests/text-operation.test.js:208-229 | defines the compose walk before normalization; `ComposeApply` proves it does `a` then `b` |
| Transformation.Transform | test/jests/text-operation.test.js:231-250 | `transform` succeeds exactly on operations with the same base length; `a'` applies after `b`, `b'` applies after `a`, and both give the same length |
| Transformation.TransformApply | test/jests/text-operation.test.js:231-250 | `b'` applied after `a` and `a'` applied after `b` give the same document |
| Transformation.TransformRaw | test/jests/text-operation.test.js:231-250 | defines the transform walk before normalization: inserts of `a` go first, each side retains over the other side's inserts, and a delete on both sides is dropped; `TransformApply` proves the walk converges |
| Convergence.TransformCompose | test/jests/text-operation.test.js:231-250 | `a.compose(b')` and `b.compose(a')` are the same operation, not only the same on every document |
| Inversion.Invert | test/jests/text-operation.test.js:51-60 | the inverse's base length is the target length; its target length is the base length whenever the document is long enough |
| Inversion.InvertApply | test/jests/text-operation.test.js:51-60 | the inverse applied after the operation gives back the original document; the lengths are swapped |
| Inversion.InvertRaw | test/jests/text-operation.test.js:51-60 | defines the inverting walk: retains kept, inserts deleted, deletes re-inserting the characters they removed; `InvertApply` and `InvertRawFlipped` state what it does |
| OperationJson.ToJson | test/jests/text-operation.test.js:134-142 | one JSON element per primitive, each decoding back to that primitive |
| OperationJson.EncodePrim | test/jests/text-operation.test.js:134-142 | defines one element of `toJSON`: a retain as its positive count, an insert as its string, a delete as its negated count; `ToJson` and `JsonRoundTrip` prove each decodes back |
| OperationJson.FromJson | test/jests/text-operation.test.js:144-161 | decoding succeeds exactly when every element is a non-zero number or a string; otherwise it fails at the first bad element, with everything before it valid |
| OperationJson.DecodeElem | test/jests/text-operation.test.js:144-161 | defines what one element of `fromJSON` means: a positive number retains, a negative one deletes, a string inserts, anything else is unknown; `FromJson` and `FromJsonRejects` state the list decoder built on it |
| OperationJson.FromJsonBuild | test/jests/text-operation.test.js:144-149 | a list that decodes is the builder applied to its primitives |
| OperationJson.JsonRoundTrip | test/jests/text-operation.test.js:134-142 | `fromJSON(toJSON(o))` equals `o` |
| OperationJson.FromJsonExample | test/jests/text-operation.test.js:144-149 | `[2, -1, -1, 'cde']` decodes to three primitives with base length 4 and target length 5 |
| OperationJson.FromJsonRejects | test/jests/text-operation.test.js:151-160 | appending an object or `null` makes decoding fail as an unknown operation at that index |
| Display.PrimString | test/jests/text-operation.test.js:124-132 | definition: how one primitive is written out (its examples are `PrimStringExamples`) |
| Display.ToString | test/jests/text-operation.test.js:124-132 | definition: the primitives written out and joined by `", "`, the empty operation as the empty text |
| Display.ToStringConcat | test/jests/text-operation.test.js:124-132 | writing out two non-empty operations one after the other gives the two texts joined by `", "` |
| Display.ToStringFromFront | test/jests/text-operation.test.js:124-132 | `toString` equals an independent join that starts at the first primitive and recurses on the rest |
| Display.ToStringEnds | test/jests/text-operation.test.js:124-132 | the text starts with the first primitive's text and ends with the last one's |
| Display.PrimStringExamples | test/jests/text-operation.test.js:124-132 | a retain prints as `retain n`, an insert as `insert 's'`, a delete as `delete n` |
| Display.ToStringExample | test/jests/text-operation.test.js:124-132 | the example operation prints as `retain 2, insert 'lorem', delete 5, retain 5` |
| Heuristics.NoopIffRetainsOnly | test/jests/text-operation.test.js:110-122 | a normalized operation is a no-op exactly when it only retains |
| Heuristics.NoopApply | test/jests/text-operation.test.js:110-122 | a no-op leaves every document it applies to unchanged |
| Heuristics.NoopExample | test/jests/text-operation.test.js:110-122 | empty and retain-only operations are no-ops; adding an insert ends that |
| Heuristics.IsNoop | test/jests/text-operation.test.js:110-122 | defines `isNoop`: the empty operation or one retain; `NoopIffRetainsOnly`, `NoopApply` and `NoopEdits` characterize it |
| Heuristics.SimpleOp | test/jests/text-operation.test.js:163-191 | the primitive found is one of the operation's primitives, and every other primitive is a retain |
| Heuristics.SimpleOpComplete | test/jests/text-operation.test.js:163-191 | a normalized operation with one insert or delete and only retains otherwise is simple |
| Heuristics.SimpleInsertApply | test/jests/text-operation.test.js:163-191 | a simple insert puts its text at its start index |
| Heuristics.SimpleDeleteApply | test/jests/text-operation.test.js:182-190 | a simple delete removes its characters from its start index on |
| Heuristics.StartIndex | test/jests/text-operation.test.js:163-191 | defines `getStartIndex`: the length of a leading retain, else 0; `SimpleInsertApply` and `SimpleDeleteApply` show it is where a simple operation edits |
| Heuristics.ShouldBeComposedWith | test/jests/text-operation.test.js:163-191 | defines `shouldBeComposedWith`: no-ops compose; otherwise two simple inserts where the second continues the first, or two simple deletes where the second is a backspace or a forward delete at the same place; its cases are `ComposedWithNoop`, `ComposedInserts` and `ComposedDeletes` |
| Heuristics.ShouldBeComposedWithInverted | test/jests/text-operation.test.js:193-206 | defines `shouldBeComposedWithInverted`, the same test for operations given as inverses; `ComposedWithMirror` relates it to `ShouldBeComposedWith` |
| Heuristics.ComposedWithNoop | test/jests/text-operation.test.js:167-170 | a no-op composes with anything, either way round |
| Heuristics.ComposedInserts | test/jests/text-operation.test.js:172-180 | an insert that continues the previous one composes; one that does not, or one after an added delete, does not compose |
| Heuristics.ComposedDeletes | test/jests/text-operation.test.js:182-190 | a backspace and a forward delete compose with the previous delete; a delete elsewhere does not |
| Heuristics.InvertRawFlipped | test/jests/text-operation.test.js:197-203 | on a document at least as long as the base length, inverting turns each retain into itself, each insert into a delete of its length and each delete into an insert of as many characters, in place |
| Heuristics.BuildFlipped | test/jests/text-operation.test.js:197-203 | the builder merges nothing in such a flipped sequence, so the number of inserts and deletes is kept |
| Heuristics.InvertEdits | test/jests/text-operation.test.js:197-203 | an operation and its inverse have the same number of inserts and deletes |
| Heuristics.NoopEdits | test/jests/text-operation.test.js:110-122 | a normalized operation is a no-op exactly when it has no insert or delete |
| Heuristics.SimpleEdits | test/jests/text-operation.test.js:163-191 | a normalized operation that is not a no-op is simple exactly when it has one insert or delete |
| Heuristics.InvertSimple | test/jests/text-operation.test.js:197-203 | the inverse of a simple operation is simple, with its edit flipped and the same start index |
| Heuristics.InvertShape | test/jests/text-operation.test.js:197-203 | inverting keeps no-ops no-ops and simple operations simple, and keeps every other operation not simple |
| Heuristics.ComposedWithMirror | test/jests/text-operation.test.js:193-206 | for `a` applying to a document and `b` after it, `a.shouldBeComposedWith(b)` equals `b⁻¹.shouldBeComposedWithInverted(a⁻¹)`, each inverse taken on the document its operation applied to |
| Selections.IndexShift | test/jests/selection.test.js:25-35 | moving an offset is a translation in the offset computed so far |
| Selections.TransformIndex | test/jests/selection.test.js:25-41 | defines `transformIndex`; its laws are `TransformIndexStep`, `TransformIndexNonNegative`, `TransformIndexMonotone`, `TransformIndexBounds` and `TransformIndexRetains` |
| Selections.TransformRange | test/jests/selection.test.js:25-35 | defines `Range.transform`: a collapsed range is transformed once, any other end by end; `TransformSelectionSpec` states that both ends are transformed either way |
| Selections.TransformIndexStep | test/jests/selection.test.js:25-41 | an offset moves past an insert at or before it, and collapses to the start of a delete that covers it |
| Selections.TransformIndexNonNegative | test/jests/selection.test.js:37-41 | a non-negative offset stays non-negative |
| Selections.TransformIndexMonotone | test/jests/selection.test.js:25-35 | transforming keeps the order of offsets |
| Selections.TransformIndexBounds | test/jests/selection.test.js:25-41 | an offset within the document stays within the result, and the end maps to the end |
| Selections.TransformIndexRetains | test/jests/selection.test.js:25-35 | a retain-only operation moves no offset |
| Selections.TransformSelection | test/jests/selection.test.js:25-41 | transforming keeps the number of ranges |
| Selections.TransformSelectionSpec | test/jests/selection.test.js:25-41 | transforming maps every range, in order, to its two transformed ends; only cursors stay only cursors; a forward range stays forward |
| Selections.TransformSelectionWithin | test/jests/selection.test.js:25-41 | a selection of the base document becomes a selection of the target document |
| Selections.TransformSelectionNoop | test/jests/selection.test.js:25-35 | a retain-only operation leaves a selection as it is |
| Selections.CreateCursor | test/jests/selection.test.js:6-8 | `createCursor(p)` is a single empty range at `p`, so nothing is selected |
| Selections.ComposeSelection | test/jests/selection.test.js:44-48 | `compose(other)` is `other` |
| Selections.SelectionFromJson | test/jests/selection.test.js:10-16 | `fromJSON` keeps the ranges in order with their anchors and heads, and reads a list exactly when every element is a range |
| Selections.CreateCursorExample | test/jests/selection.test.js:6-8 | `createCursor(5)` is the selection of the one range (5, 5) |
| Selections.FromJsonExample | test/jests/selection.test.js:10-16 | the test's JSON decodes to the ranges (3, 5) and (11, 23) |
| Selections.RangeFromJson | test/jests/selection.test.js:10-16 | reads one `{anchor, head}` object with numbers as a range; `SelectionFromJson` states what the list decoder builds from it |
| Selections.SomethingSelectedExample | test/jests/selection.test.js:18-23 | two cursors select nothing; the range (7, 10) selects something |
| Selections.SomethingSelected | test/jests/selection.test.js:18-23 | defines `somethingSelected`: some range is not collapsed; `CreateCursor` and `TransformSelectionSpec` use it |
| Selections.TransformExample | test/jests/selection.test.js:25-35 | through `retain(3).insert('lorem').delete(2).retain(42)`, the ranges (3, 7) and (19, 21) become (8, 10) and (22, 24) |
| Selections.TransformDeleteAllExample | test/jests/selection.test.js:37-41 | deleting the whole document collapses both ranges to (0, 0) |
| Selections.ComposeExample | test/jests/selection.test.js:44-48 | a range composed with a cursor gives the cursor |
| Metadata.IndexKeyInjective | src/common/wrapped-operation.js:22-28 | distinct array indices are distinct property names |
| Metadata.Indexed | src/common/wrapped-operation.js:22-28 | the own properties of an array are exactly its index names, each holding its element |
| Metadata.OwnProps | src/common/wrapped-operation.js:21-28 | defines the own enumerable properties `_copy` walks, per kind of metadata value; `Indexed` and `Copy` state what they are for arrays and records |
| Metadata.SelectionAfterOf | src/browser/editor-client.js:146-148 | reads `other.selectionAfter` as `SelfMeta.compose` and `applyUnredo` (lines 271-277) do; `ComposeMethod` and `ApplyUnredo` state the selection it gives for a `SelfMeta` |
| Metadata.InvertMethod | src/browser/editor-client.js:142-144 | only a `SelfMeta` has `invert`, and it swaps the selections before and after |
| Metadata.ComposeMethod | src/browser/editor-client.js:146-148 | `SelfMeta.compose` keeps its own selection before and takes the other's selection after; `Selection.compose` gives the other |
| Metadata.TransformOptional | src/browser/editor-client.js:150-155 | a missing selection stays missing, and a present one stays present |
| Metadata.TransformMethod | src/browser/editor-client.js:128-133 | `OtherMeta.transform` keeps the client id and transforms the selection if there is one; `SelfMeta.transform` transforms both selections, keeping missing ones missing |
| Metadata.SelfMetaLaws | src/browser/editor-client.js:142-155 | for `SelfMeta`, inverting twice is the identity, compose is associative, inverting a composition composes the inverses in reverse order, and transform distributes over compose |
| WrappedOperations.WrappedApply | src/common/wrapped-operation.js:8-10 | `apply` forwards to the wrapped operation |
| WrappedOperations.InvertMeta | src/common/wrapped-operation.js:12-19 | metadata with an `invert` method is inverted; any other metadata is kept |
| WrappedOperations.WrappedInvert | src/common/wrapped-operation.js:12-19 | defines `invert`: the wrapped operation inverted, the metadata through `InvertMeta`; `WrappedInvertSpec` proves it undoes the original |
| WrappedOperations.WrappedInvertSpec | src/common/wrapped-operation.js:12-19 | the inverted wrapped operation undoes the original; `SelfMeta` swaps its selections; plain-object metadata is kept |
| WrappedOperations.Copy | src/common/wrapped-operation.js:22-28 | copying gives the union of the keys, with the source's values winning |
| WrappedOperations.ComposeMeta | src/common/wrapped-operation.js:30-39 | non-object metadata gives the other's; metadata with `compose` uses it; other objects give the union of both properties, the second's values winning |
| WrappedOperations.WrappedCompose | src/common/wrapped-operation.js:41-46 | composing succeeds exactly when the lengths fit, with the metadata composed |
| WrappedOperations.WrappedComposeApply | test/jests/wrapped-operation.test.js:48-63 | the composed wrapped operation applies like the two in order |
| WrappedOperations.ComposeMetaExample | test/jests/wrapped-operation.test.js:48-63 | `{a: 1, b: 2}` composed with `{a: 3, c: 4}` is `{a: 3, b: 2, c: 4}` |
| WrappedOperations.TransformMeta | src/common/wrapped-operation.js:48-55 | metadata with a `transform` method is transformed; any other metadata is kept |
| WrappedOperations.TransformAsWritten | src/common/wrapped-operation.js:57-64 | the static `transform` as written always throws: a length error for different base lengths, and otherwise a TypeError for the missing `_transformMeta` |
| WrappedOperations.TransformAsWrittenThrows | test/jests/wrapped-operation.test.js:107-128 | as written, the test's two cursor edits cannot be transformed |
| WrappedOperations.WrappedTransform | src/common/wrapped-operation.js:57-64 | the corrected `transform` succeeds exactly on equal base lengths; it transforms the wrapped operations and each side's metadata against the other side's operation |
| WrappedOperations.WrappedTransformApply | test/jests/wrapped-operation.test.js:88-105 | the transformed wrapped operations converge, and plain-object metadata passes through unchanged |
| WrappedOperations.TransformCursorExample | test/jests/wrapped-operation.test.js:107-128 | after the corrected transform, `b'` turns `a("Loorem ipsum")` into `"Lorem Ipsum"`; `a'` carries cursor 1 and `b'` carries cursor 7 |
| WrappedOperations.CursorsMoved | test/jests/wrapped-operation.test.js:107-128 | cursor 8 moves to 7 when `a` deletes index 1; cursor 1 is untouched by `b` |
| WrappedOperations.CursorTransformed | test/jests/wrapped-operation.test.js:107-128 | `b` transformed against `a` is `retain(6).insert("I").delete(1).retain(4)` |
| Rebasing.ApplyAll | src/server/server.js:23-32 | an empty run leaves the document as it is; applying a run fails only on a length mismatch |
| Rebasing.Rebase | src/server/server.js:23-29 | rebasing through no operations changes nothing; otherwise the rebased operation starts where the last concurrent one ends, and there is one transformed concurrent operation per original |
| Rebasing.RebasePrefixFails | src/server/server.js:26-29 | once a prefix of the run fails to transform, the whole run fails |
| Rebasing.RebaseApply | src/server/server.js:23-32 | rebasing converges: the rebased operation after the run gives the same document as the transformed run after the operation |
| Rebasing.ApplyAllConcat | src/server/server.js:23-32 | applying a concatenated run applies one part, then the other |
| ServerModel.RefusedOnlyGrowth | src/server/server.js:34-38 | only a numeric cap refuses, and only an edit that grows the document past the cap |
| ServerModel.Server.constructor | src/server/server.js:4-10 | a new server has the given document, the given history or an empty one, and no cap |
| ServerModel.Server.SetDocumentMaxLength | src/server/server.js:12-14 | sets the cap and changes nothing else |
| ServerModel.Server.ReceiveOperation | src/server/server.js:17-46 | a revision outside the history throws with nothing changed; otherwise the operation is rebased through `operations[revision..]` and applied; a refused edit returns nothing; an accepted one becomes the document's new state, is appended as the one new history entry and is returned |
| ServerModel.RebaseThrough | src/server/server.js:26-29 | the loop keeps the first component of each transform and computes exactly `Rebase` |
| ServerModel.AcceptConverges | test/jests/client-server.test.js:118-119 | for a history that applies and an operation made at an earlier revision, the rebased operation applies; the extended history leads to the new document; the author's missed operations, transformed, lead there too |
| ClientModel.BufferedRebase | src/browser/client.js:105-118 | the interleaved loop of `StaleWithBuffer.applyOperations` fails only on a length mismatch |
| ClientModel.BufferedRebaseSpec | src/browser/client.js:105-118 | the interleaved loop rebases the acknowledged operation through the missed ones, and the buffer through their rebased forms |
| ClientModel.ApplyClientInFlight | src/browser/client.js:9-13 | an edit is sent only from Synchronized, and then becomes the one operation in flight; other states send nothing |
| ClientModel.ApplyServerInFlight | src/browser/client.js:15-33 | a server operation sends nothing and keeps the in-flight count |
| ClientModel.ServerAckInFlight | src/browser/client.js:35-43 | an acknowledgement succeeds exactly when an operation is in flight; it releases that operation and sends at most the buffer, which becomes the new outstanding operation |
| ClientModel.ReconnectInFlight | src/browser/client.js:49-53 | reconnecting resends the in-flight operation if there is one |
| ClientModel.ApplyServerRevision | src/browser/client.js:15-19 | the stale states reject server operations; the others throw "Invalid revision." exactly when a revision is skipped, and otherwise take the new revision |
| ClientModel.ApplyClientConsistent | src/browser/client.js:57-62 | a local edit keeps the client consistent with the server and applies nothing locally |
| ClientModel.ApplyServerConsistent | src/browser/client.js:190-217 | in the non-stale states, a server operation applied as the effects say keeps the client consistent with the new server document |
| ClientModel.ServerAckConsistent | src/browser/client.js:219-228 | an acknowledgement moves the server document past the outstanding operation; a skipped revision goes stale, keeping the revision and storing the acknowledgement revision |
| ClientModel.StaleCatchUp | src/browser/client.js:149-159 | after the missed operations, a stale client's document is the rebased acknowledgement applied to the server's document |
| ClientModel.StaleWithBufferCatchUp | src/browser/client.js:105-118 | after the missed operations, the rebased buffer is exactly what the client's document adds to the server's |
| ClientModel.ClientSelectionWithin | src/browser/client.js:277-285 | `transformSelection` maps a selection of the server's document to one of the client's document |
| ClientModel.BufferedPrefixFails | src/browser/client.js:107-114 | once a prefix of the missed operations fails, the interleaved loop fails |
| ClientModel.ApplyClientStep | src/browser/client.js:9-188 | defines `applyClient` in every state: Synchronized sends and awaits, AwaitingConfirm and Stale start a buffer, the buffered states compose onto it; `ApplyClientInFlight` and `ApplyClientConsistent` state its laws |
| ClientModel.ApplyServerStep | src/browser/client.js:15-217 | defines `applyServer` in every state: the stale states refuse, a skipped revision throws, otherwise the operation is applied, through the outstanding operation and the buffer when there are any; `ApplyServerRevision`, `ApplyServerInFlight`, `ApplyServerConsistent` and `AwaitingConfirmScenario` state its laws |
| ClientModel.ServerAckStep | src/browser/client.js:35-228 | defines `serverAck` in every state: states without a pending operation throw, a skipped revision goes stale and asks for the missed operations, otherwise the buffer (if any) is sent; `ServerAckInFlight` and `ServerAckConsistent` state its laws |
| ClientModel.ReconnectEffects | src/browser/client.js:273-275 | defines what `serverReconnect` sends: the outstanding operation in the states with `resend` (lines 49-53 and 234-238), nothing otherwise; `ReconnectInFlight` states it |
| ClientModel.ClientTransformSelection | src/browser/client.js:45-232 | defines `transformSelection` per state: through the outstanding operation, then the buffer, and the identity in the states without one; `ClientSelectionWithin` states its law |
| ClientModel.Client.constructor | src/browser/client.js:246-249 | a new client is Synchronized at the given revision |
| ClientModel.Client.ApplyClient | src/browser/client.js:256-258 | the state, revision and effects after `applyClient` are those of the current state's transition |
| ClientModel.Client.ApplyServer | src/browser/client.js:261-263 | the state, revision and effects after `applyServer` are those of the current state's transition |
| ClientModel.Client.ServerAck | src/browser/client.js:269-271 | the state, revision and effects after `serverAck` are those of the current state's transition |
| ClientModel.Client.ServerReconnect | src/browser/client.js:273-275 | only the states with `resend` send again, at the current revision; nothing else changes |
| ClientModel.Client.ApplyOperations | src/browser/client.js:265-267 | non-stale states throw; Stale becomes Synchronized at the stored revision, applying the transformed missed operations; StaleWithBuffer becomes AwaitingConfirm with the rebased buffer and sends it |
| ClientModel.Client.StaleApplyOperations | src/browser/client.js:149-159 | the loop rebases the acknowledged operation in place; on failure it stops where the transform failed |
| ClientModel.Client.BufferedApplyOperations | src/browser/client.js:105-118 | the loop rebases the acknowledged operation and the buffer in place, then sends the buffer; on failure it stops where the loop failed |
| ClientModel.Client.TransformSelection | src/browser/client.js:283-285 | delegates to the state: the identity in Synchronized and the stale states, through the outstanding operation (then the buffer) otherwise |
| ClientScenario.TransformScenario | test/jests/client.test.js:66-72 | `retain(11).insert(" ")` transformed against `retain(5).insert(" ").retain(6)` gives `retain(12).insert(" ")` and `retain(5).insert(" ").retain(7)` |
| ClientScenario.AppliedScenario | test/jests/client.test.js:66-67 | the transformed server edit turns "lorem Dolor " into "lorem  Dolor " |
| ClientScenario.AwaitingConfirmScenario | test/jests/client.test.js:66-72 | at revision 2, awaiting `retain(11).insert(" ")`, `applyServer(3, …)` keeps the client awaiting confirmation of `retain(12).insert(" ")` at revision 3 and applies the transformed edit |
| EditorClientModel.OnChangeCompose | src/browser/editor-client.js:291-302 | composing is never asked for on an empty undo stack, always when either side is a no-op, and the recorded metadata is (after, before) |
| EditorClientModel.OnChange | src/browser/editor-client.js:291-302 | defines what `onChange` hands the undo manager: the inverse with the selections swapped, composed when the stack is non-empty and the heuristics accept; `OnChangeCompose`, `UndoRedoRestores` and `ComposedUndo` state its laws |
| EditorClientModel.ApplyUnredo | src/browser/editor-client.js:271-277 | `applyUnredo` records the entry's inverse, applies the entry, shows the selection it carries as "after" and passes the operation to the client |
| EditorClientModel.UndoRedoRestores | src/browser/editor-client.js:271-302 | undoing a recorded edit restores the document and the selection before it; redoing then restores the edited document and the selection after it |
| EditorClientModel.ComposedUndo | src/browser/editor-client.js:291-302 | two edits composed into one undo entry are undone together, back to the first selection |
| EditorClientModel.SendSelection | src/browser/editor-client.js:320-323 | a selection is sent except while a buffer waits |
| Undo.PushCappedSpec | test/jests/undomanager.test.js:106-116 | a capped push puts the operation on top, grows the stack by one up to the limit, and keeps the newest entries |
| Undo.PushCapped | test/jests/undomanager.test.js:106-116 | defines a capped push: the entry goes on top, and the bottom entry is dropped once the stack would exceed the limit; `PushCappedSpec` and `PushAllBound` state its laws |
| Undo.Limit | test/jests/undomanager.test.js:106-116 | defines the limit `maxItems || 50`: a missing or zero `maxItems` means 50; `MaxItemsExample` and the constructor use it |
| Undo.NormalAdd | test/jests/undomanager.test.js:75-95 | without composing, `add` pushes with the cap; composing replaces the top entry with the operation composed with it, failing only when lengths do not fit |
| Undo.PushAllBound | test/jests/undomanager.test.js:106-116 | after any number of adds the stack holds the newest `min(count, limit)` of them |
| Undo.MaxItemsExample | test/jests/undomanager.test.js:106-116 | 100 adds with limit 42 leave exactly 42 entries |
| Undo.Keep | test/jests/undomanager.test.js:57-70 | no no-op is kept on a stack |
| Undo.StackThrough | test/jests/undomanager.test.js:57-70 | transforming a stack keeps no no-op, never grows it, and fails only on a length mismatch |
| Undo.Unwind | test/jests/undomanager.test.js:60-70 | undoing a stack from the top down fails only on a length mismatch |
| Undo.TransformStack | test/jests/undomanager.test.js:19-22 | the loop from the top down computes exactly `StackThrough` |
| Undo.StackThroughUnwind | test/jests/undomanager.test.js:57-70 | after a remote edit, the transformed stack undoes the edited document to the remote edit's transform applied to what the old stack reached |
| Undo.NormalAddUnwind | test/jests/undomanager.test.js:11-17 | recording an edit's inverse keeps the stack undoing from the edited document; it leads to the same place unless the cap evicted the oldest entry |
| Undo.UndoManager.constructor | test/jests/undomanager.test.js:46-47 | a new manager cannot undo or redo, is in neither mode, and has limit `maxItems || 50` |
| Undo.UndoManager.Add | test/jests/undomanager.test.js:49-65 | while undoing, the operation goes to the redo stack; while redoing, to the undo stack; otherwise `add` pushes or composes, empties the redo stack and makes undo possible |
| Undo.UndoManager.Transform | test/jests/undomanager.test.js:19-22 | both stacks are transformed against the remote operation, undo stack first |
| Undo.UndoManager.PerformUndo | test/jests/undomanager.test.js:29-36 | an empty stack throws and leaves the manager undoing; otherwise the top entry is popped and given to the callback, whose add goes to the redo stack, and the mode returns to normal |
| Undo.UndoManager.PerformRedo | test/jests/undomanager.test.js:37-44 | an empty stack throws and leaves the manager redoing; otherwise the top entry is popped and given to the callback, whose add goes to the undo stack, and the mode returns to normal |

## Left out

- The socket.io, AJAX and CodeMirror adapters, the socket.io server wrapper, the DOM, and colour arithmetic: these are I/O and floating point.
- `EventEmitter`: `Server` inherits from it but never emits anything.
- The `OtherClient` user interface, the client list and `OtherMeta.fromJSON`: DOM and JSON plumbing around the selection decoding already modelled.
- `fromJSON` inside `applyOperations` (src/browser/client.js:108, 152) refers to an undefined global. The model takes operations that are already decoded. Its `head` argument is unused, as in the source.
- `applyOperations` in the states that lack it is a failure (`NotAFunction`), the model of the TypeError JavaScript raises.
- Randomised sampling in the tests (`h.randomOperation`, `Math.random`): the laws are stated for all inputs instead.
- Multi-client convergence over the test network channels: the model proves each step instead. `AcceptConverges` covers the server step, and the `Consistent` lemmas cover the client steps.
- The concrete scenario strings of the undo manager test, and of the client test after its first AwaitingConfirm exchange: the general lemmas of `Undo` and `ClientModel` are proved instead.
- Undo.UndoManager: its entries are text operations, as in its test, not wrapped operations; the metadata part of undo entries is modelled in `EditorClientModel`.
- Undo.UndoManager.PerformUndo: `isUndoing()` and `isRedoing()` while the callback runs are observed only through the stack that receives the callback's `add`, by way of the `respond` parameter.
- OperationJson.FromJson: JSON numbers are integers; retain or delete counts that are not integers are outside the model.
- Selections.SelectionFromJson: lists whose elements are not all `{anchor, head}` objects with numbers give `None`; the source would build ranges with undefined offsets.
- Metadata: user-supplied metadata objects with arbitrary `invert`, `compose` or `transform` methods (wrapped-operation.test.js:35-46, 65-86) are left out. Only the methods of `SelfMeta`, `OtherMeta` and `Selection` are modelled.
- Lengths and offsets are counted in Unicode characters (Dafny's `char`), not in the UTF-16 code units of JavaScript's `.length` and `slice`. For text outside the Basic Multilingual Plane every length and offset therefore differs: `apply`'s base-length test, the target length an `insert` adds, the characters `invert` slices off for a delete, `transformIndex`, and the server's `documentMaxLength` test (src/server/server.js:35-36). For example, JavaScript applies `retain(2)` to "😀", while the model sees a document of length 1. Text within that plane counts the same way in both.
- Metadata.SelectionAfterOf: when `other` is `null` or `undefined` the source throws a TypeError; the model reads the selection as missing. The editor client only ever composes `SelfMeta` entries.
- Negative retains and other inputs the builder would normalise differently are not representable: `retain` takes a `nat`.
- `SimpleTextOperation`: its source is not part of this model, and neither the client nor the server uses it.
- The `equals` method of operations is plain equality of normalized primitive lists (see `BuildNormalized`).

## Findings

| source | as written | input that shows it | evidently intended | confidence | as-written member | corrected member |
|---|---|---|---|---|---|---|
| src/common/wrapped-operation.js:57-64 | `transform` is a static arrow, so `this` inside it is the class. `_transformMeta` is an instance method on the prototype, so `this._transformMeta(...)` throws a TypeError on every call with fitting operations. | the two cursor edits of wrapped-operation.test.js:107-128 (`retain(1).delete(1).retain(10)` and `retain(7).delete(1).insert("I").retain(4)`) | transform each side's metadata with the instance helper, so that `a'` keeps cursor 1 and `b'` carries cursor 7 | not executed | WrappedOperations.TransformAsWritten, WrappedOperations.TransformAsWrittenThrows | WrappedOperations.WrappedTransform, WrappedOperations.WrappedTransformApply |
