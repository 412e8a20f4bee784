/**
 * Rebasing an operation through a run of concurrent operations, the step
 * both the server (for an operation made at an old revision) and a stale
 * client (for its acknowledged operation) take: the operation is
 * transformed against each concurrent operation in turn, keeping the first
 * component of each transformed pair; the second components are the
 * concurrent operations as they apply on top of the operation.
 */
module Rebasing {
  import opened Wrappers
  import opened TextOperation
  import opened Transformation

  /** Applies a run of operations one after the other. */
  function ApplyAll(ops: seq<TextOp>, doc: string): (r: Result<string, OpError>)
    ensures ops == [] ==> r == Success(doc)
    ensures r.Failure? ==> r.error == BaseLengthMismatch
  {
    if ops == [] then Success(doc)
    else
      var next :- Apply(ops[0], doc);
      ApplyAll(ops[1..], next)
  }

  /**
   * `op` transformed against every operation of `cs`, in order: the rebased
   * operation, and the operations of `cs` as they apply after `op`.
   */
  function Rebase(op: TextOp, cs: seq<TextOp>): (r: Result<(TextOp, seq<TextOp>), OpError>)
    ensures cs == [] ==> r == Success((op, []))
    ensures r.Failure? ==> r.error == TransformLengthMismatch
    ensures r.Success? ==> |r.value.1| == |cs|
    ensures r.Success? && cs != [] ==> BaseLength(r.value.0) == TargetLength(cs[|cs| - 1])
  {
    if cs == [] then Success((op, []))
    else
      var prev :- Rebase(op, cs[..|cs| - 1]);
      var pair :- Transform(prev.0, cs[|cs| - 1]);
      Success((pair.0, prev.1 + [pair.1]))
  }

  /** Rebasing through one more operation is one more transform. */
  lemma RebaseSnoc(op: TextOp, cs: seq<TextOp>, c: TextOp)
    ensures Rebase(op, cs + [c])
         == if Rebase(op, cs).Failure? then Failure(TransformLengthMismatch)
            else if Transform(Rebase(op, cs).value.0, c).Failure? then Failure(TransformLengthMismatch)
            else
              var pair := Transform(Rebase(op, cs).value.0, c).value;
              Success((pair.0, Rebase(op, cs).value.1 + [pair.1]))
  {
    assert (cs + [c])[..|cs|] == cs;
  }

  /** Once a prefix of the run fails to rebase, the whole run does. */
  lemma {:induction false} RebasePrefixFails(op: TextOp, cs: seq<TextOp>, k: nat)
    requires k <= |cs| && Rebase(op, cs[..k]).Failure?
    ensures Rebase(op, cs).Failure?
    decreases |cs|
  {
    if k < |cs| {
      var init := cs[..|cs| - 1];
      assert init[..k] == cs[..k];
      RebasePrefixFails(op, init, k);
    } else {
      assert cs[..k] == cs;
    }
  }

  /**
   * Rebasing converges: when `op` and the run `cs` both apply to `doc`, the
   * rebased operation applies after `cs`, the transformed run applies after
   * `op`, and both ways give the same document.
   */
  lemma {:induction false} RebaseApply(op: TextOp, cs: seq<TextOp>, doc: string)
    requires Apply(op, doc).Success? && ApplyAll(cs, doc).Success?
    ensures Rebase(op, cs).Success?
    ensures Apply(Rebase(op, cs).value.0, ApplyAll(cs, doc).value).Success?
    ensures Apply(Rebase(op, cs).value.0, ApplyAll(cs, doc).value)
         == ApplyAll(Rebase(op, cs).value.1, Apply(op, doc).value)
    decreases |cs|
  {
    if cs != [] {
      var init, c := cs[..|cs| - 1], cs[|cs| - 1];
      assert cs == init + [c];
      ApplyAllConcat(init, [c], doc);
      var d1 := ApplyAll(init, doc).value;
      ApplyAllSingle(c, d1);
      RebaseApply(op, init, doc);
      var prev := Rebase(op, init).value;
      TransformApply(prev.0, c, d1);
      var pair := Transform(prev.0, c).value;
      var a := Apply(op, doc).value;
      ApplyAllConcat(prev.1, [pair.1], a);
      ApplyAllSingle(pair.1, ApplyAll(prev.1, a).value);
    }
  }

  /** Applying a concatenated run applies one part, then the other. */
  lemma {:induction false} ApplyAllConcat(xs: seq<TextOp>, ys: seq<TextOp>, doc: string)
    ensures ApplyAll(xs + ys, doc)
         == if ApplyAll(xs, doc).Failure? then ApplyAll(xs, doc) else ApplyAll(ys, ApplyAll(xs, doc).value)
    decreases |xs|
  {
    if xs == [] {
      assert xs + ys == ys;
    } else {
      assert (xs + ys)[0] == xs[0] && (xs + ys)[1..] == xs[1..] + ys;
      var next := Apply(xs[0], doc);
      if next.Success? {
        ApplyAllConcat(xs[1..], ys, next.value);
      }
    }
  }

  lemma ApplyAllSingle(op: TextOp, doc: string)
    ensures ApplyAll([op], doc) == Apply(op, doc)
  {
    assert [op][1..] == [];
  }
}
