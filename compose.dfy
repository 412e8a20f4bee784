/**
 * `compose`: one operation that has the effect of applying `a` and then `b`.
 * The walk reads both operations primitive by primitive: deletes of `a` and
 * inserts of `b` pass straight through; otherwise the shorter head is
 * consumed entirely and the rest of the longer one is kept.
 */
module Composition {
  import opened Wrappers
  import opened TextOperation

  /** The primitives the compose walk emits, in order, before normalization. */
  function ComposeRaw(a: Op, b: Op): Op
    requires Positive(a) && Positive(b)
    decreases Weight(a) + Weight(b)
  {
    if a == [] then b
    else if b == [] then a
    else if a[0].Delete? then
      PositiveTail(a);
      [a[0]] + ComposeRaw(a[1..], b)
    else if b[0].Insert? then
      PositiveTail(b);
      [b[0]] + ComposeRaw(a, b[1..])
    else
      // a's head is a retain or an insert, b's head is a retain or a delete
      var m := Min(Size(a[0]), Size(b[0]));
      var a1, b1 := Rest(a[0], m) + a[1..], Rest(b[0], m) + b[1..];
      WeightAfterSplit(a, m);
      WeightAfterSplit(b, m);
      var out := if b[0].Delete? then
                   (if a[0].Retain? then [Delete(m)] else [])
                 else [Chunk(a[0], m)];
      out + ComposeRaw(a1, b1)
  }

  /**
   * The compose law on any document: applying the composed walk is applying
   * `a` and then `b`; the composition goes from `a`'s base length to `b`'s
   * target length.
   */
  lemma {:induction false} ComposeRawApply<T>(a: Op, b: Op, d: seq<T>, lift: char -> T)
    requires Positive(a) && Positive(b)
    requires TargetLength(a) == BaseLength(b) && |d| == BaseLength(a)
    ensures BaseLength(ComposeRaw(a, b)) == BaseLength(a)
    ensures TargetLength(ComposeRaw(a, b)) == TargetLength(b)
    ensures ApplyTo(ComposeRaw(a, b), d, lift) == ApplyTo(b, ApplyTo(a, d, lift), lift)
    decreases Weight(a) + Weight(b), 1
  {
    if a == [] {
      assert ApplyTo(a, d, lift) == [];
    } else if b == [] {
      assert ApplyTo(b, ApplyTo(a, d, lift), lift) == [];
    } else if a[0].Delete? {
      ComposeDeleteStep(a, b, d, lift);
    } else if b[0].Insert? {
      ComposeInsertStep(a, b, d, lift);
    } else {
      ComposeMinStep(a, b, d, lift);
    }
  }

  /** A delete of `a` passes through. */
  lemma {:induction false} ComposeDeleteStep<T>(a: Op, b: Op, d: seq<T>, lift: char -> T)
    requires Positive(a) && Positive(b) && a != [] && b != [] && a[0].Delete?
    requires TargetLength(a) == BaseLength(b) && |d| == BaseLength(a)
    ensures BaseLength(ComposeRaw(a, b)) == BaseLength(a)
    ensures TargetLength(ComposeRaw(a, b)) == TargetLength(b)
    ensures ApplyTo(ComposeRaw(a, b), d, lift) == ApplyTo(b, ApplyTo(a, d, lift), lift)
    decreases Weight(a) + Weight(b), 0
  {
    PositiveTail(a);
    var n := a[0].n;
    ComposeRawApply(a[1..], b, d[n..], lift);
    ApplyCons(a, d, lift);
    ConsApply(a[0], ComposeRaw(a[1..], b), d, lift);
    NilConcat(ApplyTo(a[1..], d[n..], lift));
    NilConcat(ApplyTo(ComposeRaw(a[1..], b), d[n..], lift));
  }

  /** An insert of `b` passes through. */
  lemma {:induction false} ComposeInsertStep<T>(a: Op, b: Op, d: seq<T>, lift: char -> T)
    requires Positive(a) && Positive(b) && a != [] && b != [] && !a[0].Delete? && b[0].Insert?
    requires TargetLength(a) == BaseLength(b) && |d| == BaseLength(a)
    ensures BaseLength(ComposeRaw(a, b)) == BaseLength(a)
    ensures TargetLength(ComposeRaw(a, b)) == TargetLength(b)
    ensures ApplyTo(ComposeRaw(a, b), d, lift) == ApplyTo(b, ApplyTo(a, d, lift), lift)
    decreases Weight(a) + Weight(b), 0
  {
    PositiveTail(b);
    ComposeRawApply(a, b[1..], d, lift);
    ApplyCons(b, ApplyTo(a, d, lift), lift);
    ConsApply(b[0], ComposeRaw(a, b[1..]), d, lift);
    assert d[..0] == [] && d[0..] == d;
    assert ApplyTo(a, d, lift)[..0] == [] && ApplyTo(a, d, lift)[0..] == ApplyTo(a, d, lift);
  }

  /** The case where both heads are split at the shorter length. */
  lemma {:induction false} ComposeMinStep<T>(a: Op, b: Op, d: seq<T>, lift: char -> T)
    requires Positive(a) && Positive(b) && a != [] && b != []
    requires !a[0].Delete? && !b[0].Insert?
    requires TargetLength(a) == BaseLength(b) && |d| == BaseLength(a)
    ensures BaseLength(ComposeRaw(a, b)) == BaseLength(a)
    ensures TargetLength(ComposeRaw(a, b)) == TargetLength(b)
    ensures ApplyTo(ComposeRaw(a, b), d, lift) == ApplyTo(b, ApplyTo(a, d, lift), lift)
    decreases Weight(a) + Weight(b), 0
  {
    var m := Min(Size(a[0]), Size(b[0]));
    var a1, b1 := Rest(a[0], m) + a[1..], Rest(b[0], m) + b[1..];
    var ca, cb := Chunk(a[0], m), Chunk(b[0], m);
    var ka := BaseOf(ca);
    SplitHead(a, m, d, lift);
    var da := ApplyTo(a, d, lift);
    var d1 := d[ka..];
    var e1 := ApplyTo(a1, d1, lift);
    // `a`'s chunk writes `m` elements, which `b`'s chunk consumes
    assert TargetOf(ca) == m && BaseOf(cb) == m;
    assert da == Emit(ca, d[..ka], lift) + e1;
    SplitHead(b, m, da, lift);
    SplitConcatAt(Emit(ca, d[..ka], lift), e1);
    ComposeRawApply(a1, b1, d1, lift);
    var r := ComposeRaw(a1, b1);
    var out := if b[0].Delete? then (if a[0].Retain? then [Delete(m)] else []) else [ca];
    assert ComposeRaw(a, b) == out + r;
    if b[0].Delete? {
      if a[0].Retain? {
        ConsApply(Delete(m), r, d, lift);
      } else {
        assert out + r == r;
      }
    } else {
      ConsApply(ca, r, d, lift);
    }
  }

  /**
   * `compose`: fails unless `a`'s target length equals `b`'s base length;
   * the result is the normalized compose walk.
   */
  function Compose(a: TextOp, b: TextOp): (r: Result<TextOp, OpError>)
    ensures r.Success? <==> TargetLength(a) == BaseLength(b)
    ensures r.Failure? ==> r.error == ComposeLengthMismatch
    ensures r.Success? ==> BaseLength(r.value) == BaseLength(a) && TargetLength(r.value) == TargetLength(b)
  {
    if TargetLength(a) != BaseLength(b) then Failure(ComposeLengthMismatch)
    else
      // the length facts of the compose law hold for any document; a blank one shows them
      ComposeRawApply(a, b, seq(BaseLength(a), _ => 0), x => 0);
      Success(Build(ComposeRaw(a, b)))
  }

  /** Composition on any document, through the builder. */
  lemma ComposeApplyTo<T>(a: TextOp, b: TextOp, d: seq<T>, lift: char -> T)
    requires TargetLength(a) == BaseLength(b) && |d| == BaseLength(a)
    ensures Compose(a, b).Success?
    ensures ApplyTo(Compose(a, b).value, d, lift) == ApplyTo(b, ApplyTo(a, d, lift), lift)
  {
    ComposeRawApply(a, b, d, lift);
    BuildApply(ComposeRaw(a, b), d, lift);
  }

  /**
   * The compose law on text: wherever `a` then `b` apply, the composition
   * applies and gives the same text.
   */
  lemma ComposeApply(a: TextOp, b: TextOp, s: string)
    requires Apply(a, s).Success? && Apply(b, Apply(a, s).value).Success?
    ensures Compose(a, b).Success?
    ensures Apply(Compose(a, b).value, s) == Apply(b, Apply(a, s).value)
  {
    ComposeApplyTo(a, b, s, Id);
  }
}
