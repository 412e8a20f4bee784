/**
 * Structural convergence of transform: `compose(a, b')` and
 * `compose(b, a')` are the same operation, not merely operations with the
 * same effect on every text.  The proof applies both to a document of
 * distinct symbols, on which a normalized operation is determined by what
 * it produces.
 */
module Convergence {
  import opened TextOperation
  import opened Composition
  import opened Transformation

  /** A document element: an original position, or a character typed by an insert. */
  datatype Sym = Orig(i: nat) | Typed(c: char)

  function Mark(c: char): Sym {
    Typed(c)
  }

  /** The symbols of original positions `k .. k + n - 1`. */
  function Ids(k: nat, n: nat): (r: seq<Sym>)
    ensures |r| == n
  {
    seq(n, i requires 0 <= i < n => Orig(k + i))
  }

  lemma IdsSplit(k: nat, n: nat, r: nat)
    requires r <= n
    ensures Ids(k, n)[..r] == Ids(k, r)
    ensures Ids(k, n)[r..] == Ids(k + r, n - r)
  {
  }

  lemma IdsHead(k: nat, n: nat)
    requires n > 0
    ensures Ids(k, n)[0] == Orig(k)
  {
  }

  /** What a normalized operation makes of the symbol document. */
  function Image(op: Op, k: nat): seq<Sym> {
    ApplyTo(op, Ids(k, BaseLength(op)), Mark)
  }

  lemma LiftHead(s: string)
    requires s != []
    ensures Lift(s, Mark)[0] == Typed(s[0])
  {
  }

  /** The image of an operation that starts with `p`. */
  lemma ImageCons(op: Op, k: nat)
    requires op != []
    ensures Image(op, k) == Emit(op[0], Ids(k, BaseOf(op[0])), Mark) + Image(op[1..], k + BaseOf(op[0]))
  {
    var b := BaseOf(op[0]);
    ApplyCons(op, Ids(k, BaseLength(op)), Mark);
    IdsSplit(k, BaseLength(op), b);
  }

  /** An original symbol in front of an image is never below `k`. */
  lemma {:induction false} FirstOrig(op: Op, k: nat)
    requires Positive(op)
    ensures Image(op, k) != [] && Image(op, k)[0].Orig? ==> Image(op, k)[0].i >= k
  {
    if op != [] {
      ImageCons(op, k);
      var p := op[0];
      PositiveTail(op);
      match p
      case Retain(n) =>
        IdsHead(k, n);
      case Insert(s) =>
        LiftHead(s);
      case Delete(n) =>
        FirstOrig(op[1..], k + n);
        NilConcat(Image(op[1..], k + n));
    }
  }

  /** An image of an operation that does not start with a retain does not start with `Orig(k)`. */
  lemma NotRetainHead(op: Op, k: nat)
    requires Normalized(op) && op != [] && !op[0].Retain?
    ensures Image(op, k) == [] || Image(op, k)[0] != Orig(k)
  {
    ImageCons(op, k);
    PositiveTail(op);
    if op[0].Insert? {
      LiftHead(op[0].s);
    } else {
      FirstOrig(op[1..], k + op[0].n);
      NilConcat(Image(op[1..], k + op[0].n));
    }
  }

  /** An image of an operation that does not start with an insert is empty or starts with an original. */
  lemma NotInsertHead(op: Op, k: nat)
    requires Normalized(op) && !(op != [] && op[0].Insert?)
    ensures Image(op, k) == [] || Image(op, k)[0].Orig?
  {
    if op != [] {
      ImageCons(op, k);
      if op[0].Retain? {
        IdsHead(k, op[0].n);
      } else {
        var t := op[1..];
        NilConcat(Image(t, k + op[0].n));
        if t != [] {
          assert CanFollow(op[0], op[1]);
          ImageCons(t, k + op[0].n);
          IdsHead(k + op[0].n, t[0].n);
        }
      }
    }
  }

  /** Two typed prefixes followed by images that do not start with a typed symbol. */
  lemma {:induction false} TypedPrefix(s: string, t: string, x: seq<Sym>, y: seq<Sym>)
    requires x == [] || x[0].Orig?
    requires y == [] || y[0].Orig?
    requires Lift(s, Mark) + x == Lift(t, Mark) + y
    ensures s == t && x == y
  {
    if s == [] && t == [] {
      NilConcat(x);
      NilConcat(y);
    } else if s == [] {
      NilConcat(x);
      LiftHead(t);
    } else if t == [] {
      NilConcat(y);
      LiftHead(s);
    } else {
      LiftHead(s);
      LiftHead(t);
      Assoc([Mark(s[0])], Lift(s[1..], Mark), x);
      Assoc([Mark(t[0])], Lift(t[1..], Mark), y);
      DropHead(Mark(s[0]), Lift(s[1..], Mark) + x);
      DropHead(Mark(t[0]), Lift(t[1..], Mark) + y);
      TypedPrefix(s[1..], t[1..], x, y);
      assert s == [s[0]] + s[1..] && t == [t[0]] + t[1..];
    }
  }

  lemma DropHead<T>(h: T, x: seq<T>)
    ensures ([h] + x)[0] == h && ([h] + x)[1..] == x
  {
  }

  /**
   * A normalized operation is determined by its base length and its image:
   * two normalized operations with the same image are equal.
   */
  lemma {:induction false} ImageInjective(p: Op, q: Op, k: nat)
    requires Normalized(p) && Normalized(q)
    requires BaseLength(p) == BaseLength(q)
    requires Image(p, k) == Image(q, k)
    ensures p == q
    decreases |p| + |q|
  {
    if p == [] && q == [] {
    } else if p == [] || q == [] {
      EmptyImage(p, q, k);
    } else if p[0].Retain? && q[0].Retain? {
      RetainHeads(p, q, k);
    } else if p[0].Insert? && q[0].Insert? {
      InsertHeads(p, q, k);
    } else if p[0].Delete? && q[0].Delete? {
      DeleteHeads(p, q, k);
    } else {
      MixedHeads(p, q, k);
    }
  }

  /** A nonempty normalized operation of base length 0 is a lone insert, whose image is not empty. */
  lemma EmptyImage(p: Op, q: Op, k: nat)
    requires Normalized(p) && Normalized(q) && BaseLength(p) == BaseLength(q)
    requires (p == []) != (q == [])
    ensures Image(p, k) != Image(q, k)
  {
    var o := if p == [] then q else p;
    ImageCons(o, k);
    if o[0].Insert? {
      LiftHead(o[0].s);
    } else {
      HeadConsumes(o);
    }
  }

  lemma {:induction false} RetainHeads(p: Op, q: Op, k: nat)
    requires Normalized(p) && Normalized(q) && p != [] && q != []
    requires p[0].Retain? && q[0].Retain?
    requires BaseLength(p) == BaseLength(q) && Image(p, k) == Image(q, k)
    ensures p == q
    decreases |p| + |q|, 0
  {
    var n1, n2 := p[0].n, q[0].n;
    var p', q' := p[1..], q[1..];
    PositiveTail(p);
    PositiveTail(q);
    ImageCons(p, k);
    ImageCons(q, k);
    var r1, r2 := Image(p', k + n1), Image(q', k + n2);
    assert Image(p, k) == Ids(k, n1) + r1;
    assert Image(q, k) == Ids(k, n2) + r2;
    if p' != [] {
      assert CanFollow(p[0], p[1]);
      NotRetainHead(p', k + n1);
    }
    if q' != [] {
      assert CanFollow(q[0], q[1]);
      NotRetainHead(q', k + n2);
    }
    if n1 < n2 {
      IdsSplit(k, n2, n1);
      IdsHead(k + n1, n2 - n1);
      IndexOf(Ids(k, n1) + r1, Ids(k, n2) + r2, n1);
      assert false;
    } else if n2 < n1 {
      IdsSplit(k, n1, n2);
      IdsHead(k + n2, n1 - n2);
      IndexOf(Ids(k, n1) + r1, Ids(k, n2) + r2, n2);
      assert false;
    } else {
      SplitConcatAt(Ids(k, n1), r1);
      SplitConcatAt(Ids(k, n2), r2);
      NormalizedTail(p);
      NormalizedTail(q);
      ImageInjective(p', q', k + n1);
      ConsEq(p);
      ConsEq(q);
    }
  }

  lemma {:induction false} InsertHeads(p: Op, q: Op, k: nat)
    requires Normalized(p) && Normalized(q) && p != [] && q != []
    requires p[0].Insert? && q[0].Insert?
    requires BaseLength(p) == BaseLength(q) && Image(p, k) == Image(q, k)
    ensures p == q
    decreases |p| + |q|, 0
  {
    var p', q' := p[1..], q[1..];
    ImageCons(p, k);
    ImageCons(q, k);
    NormalizedTail(p);
    NormalizedTail(q);
    if p' != [] {
      assert CanFollow(p[0], p[1]);
    }
    if q' != [] {
      assert CanFollow(q[0], q[1]);
    }
    NotInsertHead(p', k);
    NotInsertHead(q', k);
    TypedPrefix(p[0].s, q[0].s, Image(p', k), Image(q', k));
    ImageInjective(p', q', k);
    ConsEq(p);
    ConsEq(q);
  }

  lemma IndexOf<T>(x: seq<T>, y: seq<T>, j: nat)
    requires x == y && j < |x|
    ensures x[j] == y[j]
  {
  }

  /** The image of an operation that starts with a delete. */
  lemma DeleteHeadImage(p: Op, k: nat)
    requires Normalized(p) && p != [] && p[0].Delete?
    ensures Normalized(p[1..])
    ensures Image(p, k) == Image(p[1..], k + p[0].n)
    ensures p[1..] == [] ==> Image(p, k) == [] && p[0].n == BaseLength(p)
    ensures p[1..] != [] ==> Image(p, k) != [] && Image(p, k)[0] == Orig(k + p[0].n)
  {
    var n := p[0].n;
    var t := p[1..];
    ImageCons(p, k);
    NormalizedTail(p);
    NilConcat(Image(t, k + n));
    if t != [] {
      assert CanFollow(p[0], p[1]);
      ImageCons(t, k + n);
      IdsHead(k + n, t[0].n);
    }
  }

  lemma {:induction false} DeleteHeads(p: Op, q: Op, k: nat)
    requires Normalized(p) && Normalized(q) && p != [] && q != []
    requires p[0].Delete? && q[0].Delete?
    requires BaseLength(p) == BaseLength(q) && Image(p, k) == Image(q, k)
    ensures p == q
    decreases |p| + |q|, 0
  {
    DeleteHeadImage(p, k);
    DeleteHeadImage(q, k);
    assert p[0].n == q[0].n;
    ImageInjective(p[1..], q[1..], k + p[0].n);
    ConsEq(p);
    ConsEq(q);
  }

  lemma MixedHeads(p: Op, q: Op, k: nat)
    requires Normalized(p) && Normalized(q) && p != [] && q != []
    requires !SameKind(p[0], q[0])
    requires BaseLength(p) == BaseLength(q)
    ensures Image(p, k) != Image(q, k)
  {
    ImageCons(p, k);
    ImageCons(q, k);
    if p[0].Retain? || q[0].Retain? {
      var r, o := if p[0].Retain? then p else q, if p[0].Retain? then q else p;
      IdsHead(k, r[0].n);
      NotRetainHead(o, k);
    } else {
      var i, o := if p[0].Insert? then p else q, if p[0].Insert? then q else p;
      LiftHead(i[0].s);
      NotInsertHead(o, k);
    }
  }

  lemma NormalizedTail(op: Op)
    requires Normalized(op) && op != []
    ensures Normalized(op[1..])
  {
    PositiveTail(op);
  }

  lemma ConsEq<T>(s: seq<T>)
    requires s != []
    ensures s == [s[0]] + s[1..]
  {
  }

  /**
   * The transform property as ot.js states it: with `(a', b') =
   * transform(a, b)`, `compose(a, b')` and `compose(b, a')` are equal
   * operations.
   */
  lemma TransformCompose(a: TextOp, b: TextOp)
    requires BaseLength(a) == BaseLength(b)
    ensures Transform(a, b).Success?
    ensures Compose(a, Transform(a, b).value.1).Success?
    ensures Compose(b, Transform(a, b).value.0).Success?
    ensures Compose(a, Transform(a, b).value.1).value == Compose(b, Transform(a, b).value.0).value
  {
    var n := BaseLength(a);
    var d := Ids(0, n);
    var t := Transform(a, b).value;
    TransformApplyTo(a, b, d, Mark);
    ComposeApplyTo(a, t.1, d, Mark);
    ComposeApplyTo(b, t.0, d, Mark);
    var c1, c2 := Compose(a, t.1).value, Compose(b, t.0).value;
    assert Image(c1, 0) == Image(c2, 0);
    ImageInjective(c1, c2, 0);
  }
}
