/**
 * The undo manager: a stack of operations that undo the user's edits (each
 * entry applies to the document the entry above it leaves), a stack of
 * operations that redo undone edits, and a mode telling whether an undo or a
 * redo is in progress.  Edits recorded during an undo land on the redo
 * stack, and the other way round; edits recorded otherwise may be composed
 * into the top entry and clear the redo stack.  A remote edit is folded into
 * both stacks by transforming every entry against it.
 */
module Undo {
  import opened Wrappers
  import opened TextOperation
  import opened Composition
  import opened Transformation
  import opened Inversion
  import opened Heuristics

  datatype Mode = Normal | Undoing | Redoing

  /** Why an undo manager call throws. */
  datatype UndoError =
    | UndoNotPossible
    | RedoNotPossible

  /** `maxItems || 50`: no limit, or a zero one, means 50. */
  function Limit(maxItems: Option<int>): int {
    if maxItems.Some? && maxItems.value != 0 then maxItems.value else 50
  }

  // ---------------------------------------------------------------------
  // The stacks as values.
  // ---------------------------------------------------------------------

  /** The top of a stack is its last element. */
  function Top(stack: seq<TextOp>): TextOp
    requires stack != []
  {
    stack[|stack| - 1]
  }

  function Pop(stack: seq<TextOp>): seq<TextOp>
    requires stack != []
  {
    stack[..|stack| - 1]
  }

  /** Pushes an entry; when the stack is then longer than the limit, its bottom entry is dropped. */
  function PushCapped(stack: seq<TextOp>, op: TextOp, maxItems: int): seq<TextOp> {
    if |stack| + 1 > maxItems then (stack + [op])[1..] else stack + [op]
  }

  /** Within the limit, a capped push keeps the newest entries, never more than the limit, the pushed one on top. */
  lemma PushCappedSpec(stack: seq<TextOp>, op: TextOp, maxItems: int)
    requires 1 <= maxItems && |stack| <= maxItems
    ensures |PushCapped(stack, op, maxItems)| == if |stack| < maxItems then |stack| + 1 else maxItems
    ensures Top(PushCapped(stack, op, maxItems)) == op
    ensures PushCapped(stack, op, maxItems) == (stack + [op])[|stack| + 1 - |PushCapped(stack, op, maxItems)|..]
  {
  }

  /**
   * What an `add` outside an undo or a redo makes of the undo stack: when
   * composing is asked for and there is a top entry, the new operation is
   * composed with it (the new, undone first, then the old); otherwise the
   * operation is pushed, within the limit.
   */
  function NormalAdd(stack: seq<TextOp>, op: TextOp, composing: bool, maxItems: int): (r: Result<seq<TextOp>, OpError>)
    ensures r.Failure? ==> composing && stack != [] && r.error == ComposeLengthMismatch
    ensures r.Success? && composing && stack != [] ==>
      |r.value| == |stack| && Pop(r.value) == Pop(stack) && Compose(op, Top(stack)) == Success(Top(r.value))
    ensures !(composing && stack != []) ==> r == Success(PushCapped(stack, op, maxItems))
  {
    if composing && stack != [] then
      var c :- Compose(op, Top(stack));
      assert Pop(Pop(stack) + [c]) == Pop(stack);
      Success(Pop(stack) + [c])
    else Success(PushCapped(stack, op, maxItems))
  }

  /** The undo stack after adding each of `ops` in turn to an empty manager, none of them composed. */
  function PushAll(ops: seq<TextOp>, maxItems: int): seq<TextOp>
    decreases |ops|
  {
    if ops == [] then []
    else PushCapped(PushAll(ops[..|ops| - 1], maxItems), ops[|ops| - 1], maxItems)
  }

  /** However many edits are recorded, the undo stack holds at most `maxItems`: the newest ones. */
  lemma {:induction false} PushAllBound(ops: seq<TextOp>, maxItems: int)
    requires 1 <= maxItems
    ensures |PushAll(ops, maxItems)| == if |ops| <= maxItems then |ops| else maxItems
    ensures PushAll(ops, maxItems) == ops[|ops| - |PushAll(ops, maxItems)|..]
    decreases |ops|
  {
    if ops != [] {
      var init, x := ops[..|ops| - 1], ops[|ops| - 1];
      PushAllBound(init, maxItems);
      var s := PushAll(init, maxItems);
      PushCappedSpec(s, x, maxItems);
      SuffixSnoc(ops, |init| - |s|);
    }
  }

  lemma SuffixSnoc<T>(xs: seq<T>, k: nat)
    requires k < |xs|
    ensures xs[..|xs| - 1][k..] + [xs[|xs| - 1]] == xs[k..]
    ensures (xs[k..])[1..] == xs[k + 1..]
  {
  }

  /** One hundred edits with a limit of 42 leave 42 on the undo stack. */
  lemma MaxItemsExample(ops: seq<TextOp>)
    requires |ops| == 100
    ensures |PushAll(ops, Limit(Some(42)))| == 42
  {
    PushAllBound(ops, 42);
  }

  // ---------------------------------------------------------------------
  // Transforming the stacks against a remote edit.
  // ---------------------------------------------------------------------

  /** An entry that became a no-op is dropped. */
  function Keep(op: TextOp): (r: seq<TextOp>)
    ensures forall i | 0 <= i < |r| :: !IsNoop(r[i])
  {
    if IsNoop(op) then [] else [op]
  }

  /**
   * `transformStack` as a value: from the top entry down, each entry is
   * transformed against the remote operation, which is itself moved below
   * that entry; entries that became no-ops are dropped.  Gives the new stack
   * and the remote operation as it stands below the whole stack.
   */
  function StackThrough(stack: seq<TextOp>, op: TextOp): (r: Result<(seq<TextOp>, TextOp), OpError>)
    ensures stack == [] ==> r == Success(([], op))
    ensures r.Failure? ==> r.error == TransformLengthMismatch
    ensures r.Success? ==> |r.value.0| <= |stack|
    ensures r.Success? ==> forall i | 0 <= i < |r.value.0| :: !IsNoop(r.value.0[i])
    decreases |stack|
  {
    if stack == [] then Success(([], op))
    else
      var pair :- Transform(Top(stack), op);
      var below :- StackThrough(Pop(stack), pair.1);
      Success((below.0 + Keep(pair.0), below.1))
  }

  /** What is left to do after the part of the stack below index `i` is transformed. */
  function Below(r: Result<(seq<TextOp>, TextOp), OpError>, above: seq<TextOp>): Result<(seq<TextOp>, TextOp), OpError> {
    if r.Failure? then r else Success((r.value.0 + above, r.value.1))
  }

  function Reversed<T>(s: seq<T>): (r: seq<T>)
    ensures |r| == |s|
    decreases |s|
  {
    if s == [] then [] else [s[|s| - 1]] + Reversed(s[..|s| - 1])
  }

  lemma ReversedSnoc<T>(s: seq<T>, x: T)
    ensures Reversed(s + [x]) == [x] + Reversed(s)
  {
    assert (s + [x])[..|s|] == s;
  }

  /** `transformStack`: the loop from the top entry down, collecting the kept entries and reversing them. */
  method TransformStack(stack: seq<TextOp>, operation: TextOp) returns (r: Result<seq<TextOp>, OpError>)
    ensures r.Success? <==> StackThrough(stack, operation).Success?
    ensures r.Success? ==> r.value == StackThrough(stack, operation).value.0
    ensures r.Failure? ==> r.error == TransformLengthMismatch
  {
    var newStack: seq<TextOp> := [];
    var op := operation;
    var i := |stack| - 1;
    assert stack[..i + 1] == stack;
    BelowNothing(StackThrough(stack, operation));
    while i >= 0
      invariant -1 <= i < |stack|
      invariant StackThrough(stack, operation) == Below(StackThrough(stack[..i + 1], op), Reversed(newStack))
    {
      var pair := Transform(stack[i], op);
      TransformStackStep(stack, i, op, newStack);
      if pair.Failure? {
        return Failure(pair.error);
      }
      if !IsNoop(pair.value.0) {
        newStack := newStack + [pair.value.0];
      }
      op := pair.value.1;
      i := i - 1;
    }
    return Success(Reversed(newStack));
  }

  lemma BelowNothing(r: Result<(seq<TextOp>, TextOp), OpError>)
    ensures Below(r, Reversed([])) == r
  {
    if r.Success? {
      assert r.value.0 + [] == r.value.0;
    }
  }

  /** One turn of the `transformStack` loop: what is left to do is the same. */
  lemma TransformStackStep(stack: seq<TextOp>, i: nat, op: TextOp, newStack: seq<TextOp>)
    requires i < |stack|
    ensures Transform(stack[i], op).Failure? ==> Below(StackThrough(stack[..i + 1], op), Reversed(newStack)).Failure?
    ensures Transform(stack[i], op).Success? ==>
      var pair := Transform(stack[i], op).value;
      Below(StackThrough(stack[..i + 1], op), Reversed(newStack))
        == Below(StackThrough(stack[..i], pair.1),
                 Reversed(if IsNoop(pair.0) then newStack else newStack + [pair.0]))
  {
    var here := stack[..i + 1];
    assert Top(here) == stack[i] && Pop(here) == stack[..i];
    if Transform(stack[i], op).Success? {
      var pair := Transform(stack[i], op).value;
      var kept := if IsNoop(pair.0) then newStack else newStack + [pair.0];
      assert Reversed(kept) == Keep(pair.0) + Reversed(newStack) by {
        if !IsNoop(pair.0) {
          ReversedSnoc(newStack, pair.0);
        }
      }
      var below := StackThrough(stack[..i], pair.1);
      if below.Success? {
        Assoc(below.value.0, Keep(pair.0), Reversed(newStack));
      }
    }
  }

  // ---------------------------------------------------------------------
  // Undoing as a whole.
  // ---------------------------------------------------------------------

  /** Undoing every entry from the top down, starting from `doc`: the document reached. */
  function Unwind(stack: seq<TextOp>, doc: string): (r: Result<string, OpError>)
    ensures stack == [] ==> r == Success(doc)
    ensures r.Failure? ==> r.error == BaseLengthMismatch
    decreases |stack|
  {
    if stack == [] then Success(doc)
    else
      var d :- Apply(Top(stack), doc);
      Unwind(Pop(stack), d)
  }

  lemma UnwindSnoc(stack: seq<TextOp>, op: TextOp, doc: string)
    ensures Unwind(stack + [op], doc)
         == if Apply(op, doc).Failure? then Failure(BaseLengthMismatch) else Unwind(stack, Apply(op, doc).value)
  {
    assert Top(stack + [op]) == op && Pop(stack + [op]) == stack;
  }

  /** Dropping the bottom entry keeps a stack undoable. */
  lemma {:induction false} UnwindDropBottom(stack: seq<TextOp>, doc: string)
    requires stack != [] && Unwind(stack, doc).Success?
    ensures Unwind(stack[1..], doc).Success?
    decreases |stack|
  {
    if |stack| > 1 {
      var d := Apply(Top(stack), doc).value;
      assert Pop(stack)[1..] == Pop(stack[1..]) && Top(stack[1..]) == Top(stack);
      UnwindDropBottom(Pop(stack), d);
    }
  }

  /**
   * Folding a remote edit into the stack keeps undo working: when the stack
   * undoes from `doc` and the remote operation applies to `doc`, the
   * transformed stack undoes from the remote edit's result, and reaches what
   * the untransformed stack reached with the remote edit, moved below the
   * stack, applied to it.
   */
  lemma {:induction false} StackThroughUnwind(stack: seq<TextOp>, op: TextOp, doc: string)
    requires Unwind(stack, doc).Success? && Apply(op, doc).Success?
    ensures StackThrough(stack, op).Success?
    ensures Unwind(StackThrough(stack, op).value.0, Apply(op, doc).value)
         == Apply(StackThrough(stack, op).value.1, Unwind(stack, doc).value)
    decreases |stack|
  {
    if stack != [] {
      var top := Top(stack);
      var d1 := Apply(top, doc).value;
      TransformApply(top, op, doc);
      var pair := Transform(top, op).value;
      StackThroughUnwind(Pop(stack), pair.1, d1);
      var below := StackThrough(Pop(stack), pair.1).value;
      var od := Apply(op, doc).value;
      if IsNoop(pair.0) {
        NoopApply(pair.0, od);
        assert below.0 + Keep(pair.0) == below.0;
      } else {
        UnwindSnoc(below.0, pair.0, od);
      }
    }
  }

  /**
   * Recording the inverse of an edit keeps the undo stack undoing: from the
   * edited document the new stack undoes, and, unless the limit dropped its
   * bottom entry, it reaches the same document the old stack reached from
   * the document before the edit.
   */
  lemma NormalAddUnwind(stack: seq<TextOp>, op: TextOp, doc: string, composing: bool, maxItems: int)
    requires Unwind(stack, doc).Success? && Apply(op, doc).Success?
    ensures NormalAdd(stack, Invert(op, doc), composing, maxItems).Success?
    ensures Unwind(NormalAdd(stack, Invert(op, doc), composing, maxItems).value, Apply(op, doc).value).Success?
    ensures (composing && stack != []) || |stack| < maxItems ==>
      Unwind(NormalAdd(stack, Invert(op, doc), composing, maxItems).value, Apply(op, doc).value)
        == Unwind(stack, doc)
  {
    var inv, od := Invert(op, doc), Apply(op, doc).value;
    InvertApply(op, doc);
    if composing && stack != [] {
      var top := Top(stack);
      assert Unwind(stack, doc) == Unwind(Pop(stack), Apply(top, doc).value);
      ComposeApply(inv, top, od);
      var c := Compose(inv, top).value;
      UnwindSnoc(Pop(stack), c, od);
    } else {
      UnwindSnoc(stack, inv, od);
      if |stack| + 1 > maxItems {
        UnwindDropBottom(stack + [inv], od);
      }
    }
  }

  // ---------------------------------------------------------------------
  // The manager.
  // ---------------------------------------------------------------------

  class UndoManager {
    var maxItems: int
    var state: Mode
    var dontCompose: bool
    var undoStack: seq<TextOp>
    var redoStack: seq<TextOp>

    /** A fresh manager: normal mode, both stacks empty, the limit `maxItems || 50`. */
    constructor (maxItems: Option<int>)
      ensures this.maxItems == Limit(maxItems)
      ensures state == Normal && !dontCompose && undoStack == [] && redoStack == []
      ensures !CanUndo() && !CanRedo() && !IsUndoing() && !IsRedoing()
    {
      this.maxItems := Limit(maxItems);
      state := Normal;
      dontCompose := false;
      undoStack := [];
      redoStack := [];
    }

    predicate CanUndo()
      reads this
    {
      undoStack != []
    }

    predicate CanRedo()
      reads this
    {
      redoStack != []
    }

    predicate IsUndoing()
      reads this
    {
      state == Undoing
    }

    predicate IsRedoing()
      reads this
    {
      state == Redoing
    }

    /**
     * `add`: during an undo the operation goes onto the redo stack, during a
     * redo onto the undo stack, and the next edit will not be composed.
     * Otherwise it is composed into the top entry (when asked to and allowed)
     * or pushed within the limit, and the redo stack is cleared.  When the
     * composition throws, the top entry has already been popped.
     */
    method Add(operation: TextOp, compose: bool) returns (error: Option<OpError>)
      modifies this
      ensures maxItems == old(maxItems) && state == old(state)
      ensures old(state) == Undoing ==>
        && error.None? && dontCompose
        && undoStack == old(undoStack) && redoStack == old(redoStack) + [operation]
      ensures old(state) == Redoing ==>
        && error.None? && dontCompose
        && undoStack == old(undoStack) + [operation] && redoStack == old(redoStack)
      ensures old(state) == Normal ==>
        var r := NormalAdd(old(undoStack), operation, !old(dontCompose) && compose, maxItems);
        if r.Failure? then
          && error == Some(r.error) && undoStack == Pop(old(undoStack))
          && redoStack == old(redoStack) && dontCompose == old(dontCompose)
        else
          && error.None? && undoStack == r.value && (maxItems >= 1 ==> CanUndo())
          && redoStack == [] && !dontCompose
    {
      if state == Undoing {
        redoStack := redoStack + [operation];
        dontCompose := true;
      } else if state == Redoing {
        undoStack := undoStack + [operation];
        dontCompose := true;
      } else {
        if !dontCompose && compose && |undoStack| > 0 {
          var top := Top(undoStack);
          undoStack := Pop(undoStack);
          var composed := Compose(operation, top);
          if composed.Failure? {
            return Some(composed.error);
          }
          undoStack := undoStack + [composed.value];
        } else {
          undoStack := PushCapped(undoStack, operation, maxItems);
        }
        dontCompose := false;
        redoStack := [];
      }
      return None;
    }

    /**
     * `transform`: both stacks are transformed against a remote operation.
     * When transforming a stack throws, that stack and the ones after it keep
     * their entries.
     */
    method Transform(operation: TextOp) returns (error: Option<OpError>)
      modifies this
      ensures maxItems == old(maxItems) && state == old(state) && dontCompose == old(dontCompose)
      ensures
        var u, r := StackThrough(old(undoStack), operation), StackThrough(old(redoStack), operation);
        if u.Failure? then
          error == Some(u.error) && undoStack == old(undoStack) && redoStack == old(redoStack)
        else if r.Failure? then
          error == Some(r.error) && undoStack == u.value.0 && redoStack == old(redoStack)
        else
          error.None? && undoStack == u.value.0 && redoStack == r.value.0
    {
      var u := TransformStack(undoStack, operation);
      if u.Failure? {
        return Some(u.error);
      }
      undoStack := u.value;
      var r := TransformStack(redoStack, operation);
      if r.Failure? {
        return Some(r.error);
      }
      redoStack := r.value;
      return None;
    }

    /**
     * `performUndo`: in undo mode, the top undo entry is popped and handed
     * to the callback, whose edit (`respond` gives the operation it records,
     * if any) is recorded through `add`; then back to normal mode.  With
     * nothing to undo it throws, and the mode stays on undoing.
     */
    method PerformUndo(respond: TextOp -> Option<TextOp>) returns (r: Result<TextOp, UndoError>)
      modifies this
      ensures maxItems == old(maxItems)
      ensures old(undoStack) == [] ==>
        && r == Failure(UndoNotPossible) && state == Undoing
        && undoStack == old(undoStack) && redoStack == old(redoStack) && dontCompose == old(dontCompose)
      ensures old(undoStack) != [] ==>
        && r == Success(Top(old(undoStack))) && state == Normal
        && undoStack == Pop(old(undoStack))
        && (respond(r.value).Some? ==> redoStack == old(redoStack) + [respond(r.value).value] && dontCompose)
        && (respond(r.value).None? ==> redoStack == old(redoStack) && dontCompose == old(dontCompose))
    {
      state := Undoing;
      if undoStack == [] {
        return Failure(UndoNotPossible);
      }
      var top := Top(undoStack);
      undoStack := Pop(undoStack);
      var added := respond(top);
      if added.Some? {
        var _ := Add(added.value, false);
      }
      state := Normal;
      return Success(top);
    }

    /** `performRedo`: the same, from the redo stack, recording onto the undo stack. */
    method PerformRedo(respond: TextOp -> Option<TextOp>) returns (r: Result<TextOp, UndoError>)
      modifies this
      ensures maxItems == old(maxItems)
      ensures old(redoStack) == [] ==>
        && r == Failure(RedoNotPossible) && state == Redoing
        && undoStack == old(undoStack) && redoStack == old(redoStack) && dontCompose == old(dontCompose)
      ensures old(redoStack) != [] ==>
        && r == Success(Top(old(redoStack))) && state == Normal
        && redoStack == Pop(old(redoStack))
        && (respond(r.value).Some? ==> undoStack == old(undoStack) + [respond(r.value).value] && dontCompose)
        && (respond(r.value).None? ==> undoStack == old(undoStack) && dontCompose == old(dontCompose))
    {
      state := Redoing;
      if redoStack == [] {
        return Failure(RedoNotPossible);
      }
      var top := Top(redoStack);
      redoStack := Pop(redoStack);
      var added := respond(top);
      if added.Some? {
        var _ := Add(added.value, false);
      }
      state := Normal;
      return Success(top);
    }
  }
}
