/**
 * `transform`: given two operations `a` and `b` made concurrently on the
 * same document, computes `(a', b')` such that applying `a` and then `b'`
 * gives the same document as applying `b` and then `a'`.  When both insert
 * at the same place, `a`'s insert comes first.
 */
module Transformation {
  import opened Wrappers
  import opened TextOperation

  /** The two primitive streams the transform walk emits, before normalization. */
  function TransformRaw(a: Op, b: Op): (Op, Op)
    requires Positive(a) && Positive(b)
    decreases Weight(a) + Weight(b)
  {
    if a != [] && a[0].Insert? then
      PositiveTail(a);
      var r := TransformRaw(a[1..], b);
      ([a[0]] + r.0, [Retain(|a[0].s|)] + r.1)
    else if b != [] && b[0].Insert? then
      PositiveTail(b);
      var r := TransformRaw(a, b[1..]);
      ([Retain(|b[0].s|)] + r.0, [b[0]] + r.1)
    else if a == [] || b == [] then ([], [])
    else
      // both heads are retains or deletes
      var m := Min(Size(a[0]), Size(b[0]));
      WeightAfterSplit(a, m);
      WeightAfterSplit(b, m);
      var r := TransformRaw(Rest(a[0], m) + a[1..], Rest(b[0], m) + b[1..]);
      if a[0].Retain? && b[0].Retain? then ([Retain(m)] + r.0, [Retain(m)] + r.1)
      else if a[0].Delete? && b[0].Delete? then r
      else if a[0].Delete? then ([Delete(m)] + r.0, r.1)
      else (r.0, [Delete(m)] + r.1)
  }

  /** The convergence property of a transformed pair, on a document `d`. */
  ghost predicate Converges<T>(a: Op, b: Op, a': Op, b': Op, d: seq<T>, lift: char -> T)
    requires |d| == BaseLength(a) && |d| == BaseLength(b)
  {
    && BaseLength(a') == TargetLength(b)
    && BaseLength(b') == TargetLength(a)
    && TargetLength(a') == TargetLength(b')
    && ApplyTo(b', ApplyTo(a, d, lift), lift) == ApplyTo(a', ApplyTo(b, d, lift), lift)
  }

  /** The transform law on any document. */
  lemma {:induction false} TransformRawApply<T>(a: Op, b: Op, d: seq<T>, lift: char -> T)
    requires Positive(a) && Positive(b)
    requires BaseLength(a) == BaseLength(b) && |d| == BaseLength(a)
    ensures Converges(a, b, TransformRaw(a, b).0, TransformRaw(a, b).1, d, lift)
    decreases Weight(a) + Weight(b), 1
  {
    if a != [] && a[0].Insert? {
      TransformInsertA(a, b, d, lift);
    } else if b != [] && b[0].Insert? {
      TransformInsertB(a, b, d, lift);
    } else if a == [] || b == [] {
      if a != [] {
        HeadConsumes(a);
      }
      if b != [] {
        HeadConsumes(b);
      }
      assert a == [] && b == [];
    } else {
      TransformMinStep(a, b, d, lift);
    }
  }

  /** The insert of `a` goes first; `b'` retains over it. */
  lemma {:induction false} TransformInsertA<T>(a: Op, b: Op, d: seq<T>, lift: char -> T)
    requires Positive(a) && Positive(b) && a != [] && a[0].Insert?
    requires BaseLength(a) == BaseLength(b) && |d| == BaseLength(a)
    ensures Converges(a, b, TransformRaw(a, b).0, TransformRaw(a, b).1, d, lift)
    decreases Weight(a) + Weight(b), 0
  {
    PositiveTail(a);
    var s := a[0].s;
    var r := TransformRaw(a[1..], b);
    TransformRawApply(a[1..], b, d, lift);
    var ea := ApplyTo(a[1..], d, lift);
    ApplyCons(a, d, lift);
    assert d[..0] == [] && d[0..] == d;
    assert ApplyTo(a, d, lift) == Lift(s, lift) + ea;
    ConsApply(Retain(|s|), r.1, Lift(s, lift) + ea, lift);
    SplitConcatAt(Lift(s, lift), ea);
    var eb := ApplyTo(b, d, lift);
    ConsApply(Insert(s), r.0, eb, lift);
    assert eb[..0] == [] && eb[0..] == eb;
  }

  /** The insert of `b` (when `a` does not insert here); `a'` retains over it. */
  lemma {:induction false} TransformInsertB<T>(a: Op, b: Op, d: seq<T>, lift: char -> T)
    requires Positive(a) && Positive(b) && b != [] && b[0].Insert? && !(a != [] && a[0].Insert?)
    requires BaseLength(a) == BaseLength(b) && |d| == BaseLength(a)
    ensures Converges(a, b, TransformRaw(a, b).0, TransformRaw(a, b).1, d, lift)
    decreases Weight(a) + Weight(b), 0
  {
    PositiveTail(b);
    var s := b[0].s;
    var r := TransformRaw(a, b[1..]);
    TransformRawApply(a, b[1..], d, lift);
    var eb := ApplyTo(b[1..], d, lift);
    ApplyCons(b, d, lift);
    assert d[..0] == [] && d[0..] == d;
    assert ApplyTo(b, d, lift) == Lift(s, lift) + eb;
    ConsApply(Retain(|s|), r.0, Lift(s, lift) + eb, lift);
    SplitConcatAt(Lift(s, lift), eb);
    var ea := ApplyTo(a, d, lift);
    ConsApply(Insert(s), r.1, ea, lift);
    assert ea[..0] == [] && ea[0..] == ea;
  }

  /** Both heads retain or delete: the shorter one is consumed. */
  lemma {:induction false} TransformMinStep<T>(a: Op, b: Op, d: seq<T>, lift: char -> T)
    requires Positive(a) && Positive(b) && a != [] && b != []
    requires !a[0].Insert? && !b[0].Insert?
    requires BaseLength(a) == BaseLength(b) && |d| == BaseLength(a)
    ensures Converges(a, b, TransformRaw(a, b).0, TransformRaw(a, b).1, d, lift)
    decreases Weight(a) + Weight(b), 0
  {
    var m := Min(Size(a[0]), Size(b[0]));
    var a1, b1 := Rest(a[0], m) + a[1..], Rest(b[0], m) + b[1..];
    SplitHead(a, m, d, lift);
    SplitHead(b, m, d, lift);
    var d1 := d[m..];
    TransformRawApply(a1, b1, d1, lift);
    var r := TransformRaw(a1, b1);
    var ea, eb := ApplyTo(a1, d1, lift), ApplyTo(b1, d1, lift);
    var ca, cb := Chunk(a[0], m), Chunk(b[0], m);
    assert ApplyTo(a, d, lift) == Emit(ca, d[..m], lift) + ea;
    assert ApplyTo(b, d, lift) == Emit(cb, d[..m], lift) + eb;
    if a[0].Retain? && b[0].Retain? {
      ConsApply(Retain(m), r.1, d[..m] + ea, lift);
      ConsApply(Retain(m), r.0, d[..m] + eb, lift);
      SplitConcatAt(d[..m], ea);
      SplitConcatAt(d[..m], eb);
    } else if a[0].Delete? && b[0].Delete? {
      NilConcat(ea);
      NilConcat(eb);
    } else if a[0].Delete? {
      NilConcat(ea);
      ConsApply(Delete(m), r.0, d[..m] + eb, lift);
      SplitConcatAt(d[..m], eb);
      NilConcat(ApplyTo(r.0, eb, lift));
    } else {
      NilConcat(eb);
      ConsApply(Delete(m), r.1, d[..m] + ea, lift);
      SplitConcatAt(d[..m], ea);
      NilConcat(ApplyTo(r.1, ea, lift));
    }
  }

  /**
   * `transform`: fails unless both operations have the same base length;
   * the result is the pair of normalized transform walks.
   */
  function Transform(a: TextOp, b: TextOp): (r: Result<(TextOp, TextOp), OpError>)
    ensures r.Success? <==> BaseLength(a) == BaseLength(b)
    ensures r.Failure? ==> r.error == TransformLengthMismatch
    ensures r.Success? ==>
      && BaseLength(r.value.0) == TargetLength(b)
      && BaseLength(r.value.1) == TargetLength(a)
      && TargetLength(r.value.0) == TargetLength(r.value.1)
  {
    if BaseLength(a) != BaseLength(b) then Failure(TransformLengthMismatch)
    else
      // the length facts of the transform law hold for any document; a blank one shows them
      TransformRawApply(a, b, seq(BaseLength(a), _ => 0), x => 0);
      var r := TransformRaw(a, b);
      Success((Build(r.0), Build(r.1)))
  }

  /** The transform law through the builder, on any document. */
  lemma TransformApplyTo<T>(a: TextOp, b: TextOp, d: seq<T>, lift: char -> T)
    requires BaseLength(a) == BaseLength(b) && |d| == BaseLength(a)
    ensures Transform(a, b).Success?
    ensures Converges(a, b, Transform(a, b).value.0, Transform(a, b).value.1, d, lift)
  {
    var r := TransformRaw(a, b);
    TransformRawApply(a, b, d, lift);
    BuildApply(r.0, ApplyTo(b, d, lift), lift);
    BuildApply(r.1, ApplyTo(a, d, lift), lift);
  }

  /**
   * The transform law on text: both ways around the square give the same
   * document.
   */
  lemma TransformApply(a: TextOp, b: TextOp, s: string)
    requires Apply(a, s).Success? && Apply(b, s).Success?
    ensures Transform(a, b).Success?
    ensures Apply(Transform(a, b).value.1, Apply(a, s).value).Success?
    ensures Apply(Transform(a, b).value.1, Apply(a, s).value)
         == Apply(Transform(a, b).value.0, Apply(b, s).value)
  {
    TransformApplyTo(a, b, s, Id);
  }
}
