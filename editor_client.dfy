/**
 * The part of the editor client that decides what goes onto the undo
 * stack.  A local edit is recorded as its inverse carrying the selections
 * after and before it, composed into the top entry when the two edits belong
 * together; undoing or redoing an entry applies it, records its own inverse,
 * restores the selection it carries and hands the operation to the client.
 * The selection is not sent while edits wait in the buffer.
 */
module EditorClientModel {
  import opened Wrappers
  import opened TextOperation
  import opened Composition
  import opened Inversion
  import opened Selections
  import opened Metadata
  import opened WrappedOperations
  import opened Heuristics
  import opened ClientModel

  /** What `onChange` hands the undo manager's `add`. */
  datatype UndoRecord = UndoRecord(entry: Wrapped, compose: bool)

  /**
   * `onChange`: the inverse of the edit, with the selection after the edit
   * to show before undoing and the selection before it to show after; it is
   * composed into the top entry only when there is one and the inverse
   * should be composed, as an inverse, with that entry's operation.
   */
  function OnChange(undoStack: seq<Wrapped>, inverse: TextOp, before: Option<Selection>, after: Option<Selection>): UndoRecord {
    UndoRecord(Wrapped(inverse, MSelf(after, before)),
               undoStack != [] && ShouldBeComposedWithInverted(inverse, undoStack[|undoStack| - 1].wrapped))
  }

  /** Composing is only ever asked for against a top entry the heuristics accept, and never on an empty stack. */
  lemma OnChangeCompose(undoStack: seq<Wrapped>, inverse: TextOp, before: Option<Selection>, after: Option<Selection>)
    ensures undoStack == [] ==> !OnChange(undoStack, inverse, before, after).compose
    ensures undoStack != [] && IsNoop(inverse) ==> OnChange(undoStack, inverse, before, after).compose
    ensures undoStack != [] && IsNoop(undoStack[|undoStack| - 1].wrapped) ==> OnChange(undoStack, inverse, before, after).compose
    ensures OnChange(undoStack, inverse, before, after).entry.meta == MSelf(after, before)
  {
  }

  /** What `applyUnredo` does with an undo or redo entry. */
  datatype Unredo = Unredo(
    recorded: Wrapped,              // given to the undo manager's `add`
    document: string,               // the editor's text afterwards
    selection: Option<Selection>,   // the editor's selection afterwards
    sent: TextOp)                   // given to `applyClient`

  /**
   * `applyUnredo`: records the entry's inverse against the current text,
   * applies the entry, takes the selection it carries as the one to show
   * after it, and passes the operation on to the client.
   */
  function ApplyUnredo(operation: Wrapped, doc: string): (r: Result<Unredo, OpError>)
    ensures r.Success? <==> Apply(operation.wrapped, doc).Success?
    ensures r.Success? ==>
      && r.value.recorded == WrappedInvert(operation, doc)
      && r.value.document == Apply(operation.wrapped, doc).value
      && r.value.sent == operation.wrapped
      && (operation.meta.MSelf? ==> r.value.selection == operation.meta.after)
  {
    var text :- Apply(operation.wrapped, doc);
    Success(Unredo(WrappedInvert(operation, doc), text, SelectionAfterOf(operation.meta), operation.wrapped))
  }

  /**
   * Undo, then redo, of a recorded edit: undoing the entry `onChange` records
   * gives back the text and the selection from before the edit, and redoing
   * the entry that undo records gives back the text and the selection after
   * it. The redo entry undoes the undo.
   */
  lemma UndoRedoRestores(edit: TextOp, doc: string, before: Option<Selection>, after: Option<Selection>, stack: seq<Wrapped>)
    requires Apply(edit, doc).Success?
    ensures var entry := OnChange(stack, Invert(edit, doc), before, after).entry;
      var undone := ApplyUnredo(entry, Apply(edit, doc).value);
      && undone.Success?
      && undone.value.document == doc
      && undone.value.selection == before
      && var redone := ApplyUnredo(undone.value.recorded, doc);
      && redone.Success?
      && redone.value.document == Apply(edit, doc).value
      && redone.value.selection == after
  {
    var edited := Apply(edit, doc).value;
    var inv := Invert(edit, doc);
    InvertApply(edit, doc);
    InvertApply(inv, edited);
  }

  /**
   * An edit composed into the top entry: undoing the composed entry takes
   * the text back past both edits and shows the selection from before the
   * earlier one.
   */
  lemma ComposedUndo(first: TextOp, second: TextOp, doc: string,
                     before1: Option<Selection>, after1: Option<Selection>,
                     before2: Option<Selection>, after2: Option<Selection>)
    requires Apply(first, doc).Success? && Apply(second, Apply(first, doc).value).Success?
    ensures var d1 := Apply(first, doc).value;
      var d2 := Apply(second, d1).value;
      var top := OnChange([], Invert(first, doc), before1, after1).entry;
      var entry := OnChange([top], Invert(second, d1), before2, after2).entry;
      var composed := WrappedCompose(entry, top);
      && composed.Success?
      && composed.value.meta == MSelf(after2, before1)
      && ApplyUnredo(composed.value, d2).Success?
      && ApplyUnredo(composed.value, d2).value.document == doc
      && ApplyUnredo(composed.value, d2).value.selection == before1
  {
    var d1 := Apply(first, doc).value;
    var d2 := Apply(second, d1).value;
    InvertApply(first, doc);
    InvertApply(second, d1);
    ComposeApply(Invert(second, d1), Invert(first, doc), d2);
  }

  /** `sendSelection`: the selections sent to the server; none while edits wait in the buffer. */
  function SendSelection(state: ClientState, selection: Option<Selection>): (sent: seq<Option<Selection>>)
    ensures sent == [] <==> state.AwaitingWithBuffer?
    ensures sent != [] ==> sent == [selection]
  {
    if state.AwaitingWithBuffer? then [] else [selection]
  }
}
