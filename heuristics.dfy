/**
 * The heuristics the undo manager uses to decide whether two consecutive
 * edits form one undo step: `isNoop`, and `shouldBeComposedWith` /
 * `shouldBeComposedWithInverted`, which look at "simple" operations (one
 * insert or one delete, with retains around it) and where they start.
 */
module Heuristics {
  import opened Wrappers
  import opened TextOperation
  import opened Inversion

  /** `isNoop`: the empty operation or a single retain. */
  predicate IsNoop(op: Op) {
    op == [] || (|op| == 1 && op[0].Retain?)
  }

  predicate RetainsOnly(op: Op) {
    forall i | 0 <= i < |op| :: op[i].Retain?
  }

  /** A normalized operation is a no-op exactly when it only retains. */
  lemma NoopIffRetainsOnly(op: TextOp)
    ensures IsNoop(op) <==> RetainsOnly(op)
  {
    if |op| >= 2 {
      Adjacent(op, 0);
    }
  }

  /** A no-op leaves every document it applies to unchanged. */
  lemma NoopApply(op: TextOp, s: string)
    requires IsNoop(op) && Apply(op, s).Success?
    ensures Apply(op, s) == Success(s)
  {
    if op != [] {
      assert BaseLength(op) == BaseOf(op[0]) by { assert op[1..] == []; }
      ApplySingle(op[0], s, Id);
    }
  }

  lemma Adjacent(op: TextOp, i: nat)
    requires i + 1 < |op|
    ensures CanFollow(op[i], op[i + 1])
  {
  }

  /** The one primitive an operation consists of, apart from the retains around it. */
  function SimpleOp(op: Op): (r: Option<Prim>)
    ensures r.Some? ==> exists i | 0 <= i < |op| :: op[i] == r.value && OthersRetain(op, i)
  {
    if |op| == 1 then
      assert OthersRetain(op, 0);
      Some(op[0])
    else if |op| == 2 then
      if op[0].Retain? then
        assert OthersRetain(op, 1);
        Some(op[1])
      else if op[1].Retain? then
        assert OthersRetain(op, 0);
        Some(op[0])
      else None
    else if |op| == 3 && op[0].Retain? && op[2].Retain? then
      assert OthersRetain(op, 1);
      Some(op[1])
    else None
  }

  predicate OthersRetain(op: Op, i: nat) {
    forall j | 0 <= j < |op| && j != i :: op[j].Retain?
  }

  /** A normalized operation with exactly one insert or delete is simple. */
  lemma SimpleOpComplete(op: TextOp, i: nat)
    requires i < |op| && !op[i].Retain? && OthersRetain(op, i)
    ensures SimpleOp(op) == Some(op[i])
  {
    if |op| >= 4 {
      if i >= 2 {
        Adjacent(op, 0);
      } else {
        Adjacent(op, 2);
      }
      assert false;
    } else if |op| == 3 && i != 1 {
      if i == 0 {
        Adjacent(op, 1);
      } else {
        Adjacent(op, 0);
      }
      assert false;
    }
  }

  /** `getStartIndex`: the length of a leading retain, else 0. */
  function StartIndex(op: Op): nat {
    if op != [] && op[0].Retain? then op[0].n else 0
  }

  /**
   * `shouldBeComposedWith`: no-ops always compose; otherwise both must be
   * simple, and either two inserts where the second continues the first, or
   * two deletes where the second is a backspace just before the first or a
   * forward delete at the same place.
   */
  predicate ShouldBeComposedWith(a: Op, b: Op) {
    if IsNoop(a) || IsNoop(b) then true
    else
      var startA, startB := StartIndex(a), StartIndex(b);
      match (SimpleOp(a), SimpleOp(b))
      case (Some(Insert(sa)), Some(Insert(_))) => startA + |sa| == startB
      case (Some(Delete(_)), Some(Delete(nb))) => startB + nb == startA || startA == startB
      case _ => false
  }

  /** `shouldBeComposedWithInverted`: the same test for operations given as inverses. */
  predicate ShouldBeComposedWithInverted(a: Op, b: Op) {
    if IsNoop(a) || IsNoop(b) then true
    else
      var startA, startB := StartIndex(a), StartIndex(b);
      match (SimpleOp(a), SimpleOp(b))
      case (Some(Insert(sa)), Some(Insert(_))) => startA + |sa| == startB || startA == startB
      case (Some(Delete(_)), Some(Delete(nb))) => startB + nb == startA
      case _ => false
  }

  /**
   * A simple operation keeps the text before its start index, does its one
   * insert or delete there, and keeps the rest.
   */
  lemma SimpleApply(op: TextOp, d: string)
    requires SimpleOp(op).Some? && !SimpleOp(op).value.Retain? && |d| == BaseLength(op)
    ensures StartIndex(op) + BaseOf(SimpleOp(op).value) <= |d|
    ensures ApplyTo(op, d, Id)
         == d[..StartIndex(op)]
          + Emit(SimpleOp(op).value, d[StartIndex(op)..StartIndex(op) + BaseOf(SimpleOp(op).value)], Id)
          + d[StartIndex(op) + BaseOf(SimpleOp(op).value)..]
  {
    assert op != [];
    var x := SimpleOp(op).value;
    var pre: Op := if op[0].Retain? then [op[0]] else [];
    var post: Op := if op[|op| - 1].Retain? then [op[|op| - 1]] else [];
    SimpleSplit(op, pre, x, post);
    PreLength(op, pre);
    ApplyAround(pre, x, post, d);
    var k, b := StartIndex(op), BaseOf(x);
    assert ApplyTo(op, d, Id) == d[..k] + Emit(x, d[k..k + b], Id) + d[k + b..];
  }

  lemma PreLength(op: Op, pre: Op)
    requires op != [] && pre == if op[0].Retain? then [op[0]] else []
    ensures BaseLength(pre) == StartIndex(op)
  {
    if pre != [] { assert pre[1..] == []; }
  }

  lemma SimpleSplit(op: TextOp, pre: Op, x: Prim, post: Op)
    requires SimpleOp(op) == Some(x) && !x.Retain?
    requires pre == if op[0].Retain? then [op[0]] else []
    requires post == if op[|op| - 1].Retain? then [op[|op| - 1]] else []
    ensures op == pre + [x] + post
  {
    SimpleShapes(op);
  }

  predicate AtMostOneRetain(q: Op) {
    q == [] || (|q| == 1 && q[0].Retain?)
  }

  /** Applying one primitive with at most one retain on either side. */
  lemma ApplyAround(pre: Op, x: Prim, post: Op, d: string)
    requires AtMostOneRetain(pre) && AtMostOneRetain(post)
    requires |d| == BaseLength(pre + [x] + post)
    ensures BaseLength(pre) + BaseOf(x) <= |d|
    ensures ApplyTo(pre + [x] + post, d, Id)
         == d[..BaseLength(pre)] + Emit(x, d[BaseLength(pre)..BaseLength(pre) + BaseOf(x)], Id)
          + d[BaseLength(pre) + BaseOf(x)..]
  {
    var k, b := BaseLength(pre), BaseOf(x);
    assert BaseLength([x]) == b by { assert [x][1..] == []; }
    LengthsConcat(pre + [x], post);
    LengthsConcat(pre, [x]);
    var d0, d1, d2 := d[..k], d[k..k + b], d[k + b..];
    Split3(d, k, b);
    ApplyConcat(pre + [x], post, d0 + d1, d2, Id);
    ApplyConcat(pre, [x], d0, d1, Id);
    ApplySingle(x, d1, Id);
    RetainsApply(pre, d0);
    RetainsApply(post, d2);
  }

  lemma Split3<T>(d: seq<T>, k: nat, b: nat)
    requires k + b <= |d|
    ensures d == d[..k] + d[k..k + b] + d[k + b..]
  {
  }

  /** At most one retain: applying it copies the document. */
  lemma RetainsApply(q: Op, dq: string)
    requires AtMostOneRetain(q)
    requires |dq| == BaseLength(q)
    ensures ApplyTo(q, dq, Id) == dq
  {
    if q != [] {
      assert BaseLength(q) == BaseOf(q[0]) by { assert q[1..] == []; }
      ApplySingle(q[0], dq, Id);
    }
  }

  /** A simple insert puts its text at the start index. */
  lemma SimpleInsertApply(op: TextOp, d: string, s: string)
    requires SimpleOp(op) == Some(Insert(s)) && |d| == BaseLength(op)
    ensures StartIndex(op) <= |d|
    ensures Apply(op, d) == Success(d[..StartIndex(op)] + s + d[StartIndex(op)..])
  {
    SimpleApply(op, d);
    LiftId(s);
    var k := StartIndex(op);
    assert d[k..k] == [];
  }

  /** A simple delete removes its characters from the start index on. */
  lemma SimpleDeleteApply(op: TextOp, d: string, n: nat)
    requires SimpleOp(op) == Some(Delete(n)) && |d| == BaseLength(op)
    ensures StartIndex(op) + n <= |d|
    ensures Apply(op, d) == Success(d[..StartIndex(op)] + d[StartIndex(op) + n..])
  {
    SimpleApply(op, d);
    var k := StartIndex(op);
    assert d[..k] + [] == d[..k];
  }

  /** The shapes a simple normalized operation can have. */
  lemma SimpleShapes(op: TextOp)
    requires SimpleOp(op).Some? && !SimpleOp(op).value.Retain?
    ensures 1 <= |op| <= 3
    ensures |op| == 1 ==> op[0] == SimpleOp(op).value
    ensures |op| == 2 ==>
      (op[0].Retain? && op[1] == SimpleOp(op).value) || (op[1].Retain? && op[0] == SimpleOp(op).value)
    ensures |op| == 3 ==> op[0].Retain? && op[2].Retain? && op[1] == SimpleOp(op).value
    ensures op[1..] == [] || op[1..][1..] == [] || op[1..][1..][1..] == []
  {
  }

  // ---------------------------------------------------------------------
  // The mirror law: whether `a` then `b` compose is whether their inverses,
  // taken in the opposite order, compose by the inverted test.
  // ---------------------------------------------------------------------

  /** The number of inserts and deletes in an operation. */
  function Edits(op: Op): nat {
    if op == [] then 0 else Edits(op[..|op| - 1]) + (if op[|op| - 1].Retain? then 0 else 1)
  }

  lemma EditsSnoc(w: Op, q: Prim)
    ensures Edits(w + [q]) == Edits(w) + (if q.Retain? then 0 else 1)
  {
    assert (w + [q])[..|w|] == w;
  }

  /** Without edits an operation only retains. */
  lemma {:induction false} EditsZero(op: Op)
    requires Edits(op) == 0
    ensures RetainsOnly(op)
  {
    if op != [] {
      var n := |op| - 1;
      EditsZero(op[..n]);
      assert forall i | 0 <= i < n :: op[i] == op[..n][i];
    }
  }

  /** An operation that only retains has no edits. */
  lemma {:induction false} RetainsOnlyEdits(op: Op)
    requires RetainsOnly(op)
    ensures Edits(op) == 0
  {
    if op != [] {
      var n := |op| - 1;
      assert forall i | 0 <= i < n :: op[..n][i] == op[i];
      RetainsOnlyEdits(op[..n]);
    }
  }

  /** One edit among retains makes exactly one edit. */
  lemma {:induction false} OneEdit(op: Op, i: nat)
    requires i < |op| && !op[i].Retain? && OthersRetain(op, i)
    ensures Edits(op) == 1
  {
    var n := |op| - 1;
    var init := op[..n];
    assert forall j | 0 <= j < n :: init[j] == op[j];
    if i == n {
      RetainsOnlyEdits(init);
    } else {
      OneEdit(init, i);
    }
  }

  /** The position of the one edit of an operation that has exactly one. */
  lemma {:induction false} OneEditAt(op: Op) returns (i: nat)
    requires Edits(op) == 1
    ensures i < |op| && !op[i].Retain? && OthersRetain(op, i)
  {
    var n := |op| - 1;
    var init := op[..n];
    assert forall j | 0 <= j < n :: init[j] == op[j];
    if op[n].Retain? {
      i := OneEditAt(init);
    } else {
      EditsZero(init);
      i := n;
    }
  }

  /** `q` is what inverting makes of `p`: a retain stays, an insert becomes a delete of its length, a delete an insert of as many characters. */
  predicate Flipped(p: Prim, q: Prim) {
    match p
    case Retain(n) => q == Retain(n)
    case Insert(s) => q == Delete(|s|)
    case Delete(n) => q.Insert? && |q.s| == n
  }

  predicate FlippedAll(op: Op, inv: Op) {
    |op| == |inv| && forall i | 0 <= i < |op| :: Flipped(op[i], inv[i])
  }

  /** On a document long enough, the inverting walk flips every primitive in place. */
  lemma {:induction false} InvertRawFlipped(op: Op, doc: string)
    requires BaseLength(op) <= |doc|
    ensures FlippedAll(op, InvertRaw(op, doc))
  {
    if op != [] {
      var k := Clamp(doc, BaseOf(op[0]));
      assert k == BaseOf(op[0]);
      InvertRawFlipped(op[1..], doc[k..]);
      var p, rest := InvertPrim(op[0], doc[..k]), InvertRaw(op[1..], doc[k..]);
      assert Flipped(op[0], p);
      assert forall i | 1 <= i < |op| :: op[i] == op[1..][i - 1] && ([p] + rest)[i] == rest[i - 1];
    }
  }

  lemma {:induction false} EditsFlipped(op: Op, inv: Op)
    requires FlippedAll(op, inv)
    ensures Edits(op) == Edits(inv)
  {
    if op != [] {
      var n := |op| - 1;
      assert FlippedAll(op[..n], inv[..n]) by {
        assert forall i | 0 <= i < n :: op[..n][i] == op[i] && inv[..n][i] == inv[i];
      }
      EditsFlipped(op[..n], inv[..n]);
      assert Flipped(op[n], inv[n]);
    }
  }

  /** The adjacency rule of inverted primitives: `CanFollow` with inserts and deletes swapped. */
  predicate CanFollowFlipped(p: Prim, q: Prim) {
    match p
    case Retain(_) => !q.Retain?
    case Insert(_) => q.Retain?
    case Delete(_) => !q.Delete?
  }

  predicate FlipNormalized(raw: Op) {
    && Positive(raw)
    && forall i | 0 <= i < |raw| - 1 :: CanFollowFlipped(raw[i], raw[i + 1])
  }

  lemma FlippedNormalized(op: Op, inv: Op)
    requires Normalized(op) && FlippedAll(op, inv)
    ensures FlipNormalized(inv)
  {
    forall i | 0 <= i < |inv| - 1
      ensures CanFollowFlipped(inv[i], inv[i + 1])
    {
      assert CanFollow(op[i], op[i + 1]);
      assert Flipped(op[i], inv[i]) && Flipped(op[i + 1], inv[i + 1]);
    }
    forall i | 0 <= i < |inv|
      ensures Size(inv[i]) > 0
    {
      assert Flipped(op[i], inv[i]);
    }
  }

  /** How the built operation ends, given the last primitive fed to the builder. */
  predicate EndsAfter(last: Prim, b: Op) {
    var n := |b|;
    match last
    case Retain(_) => n >= 1 && b[n - 1].Retain?
    case Delete(_) => n >= 1 && b[n - 1].Delete? && (n == 1 || b[n - 2].Retain?)
    case Insert(_) =>
      || (n >= 1 && b[n - 1].Insert? && (n == 1 || b[n - 2].Retain?))
      || (n >= 2 && b[n - 1].Delete? && b[n - 2].Insert? && (n == 2 || b[n - 3].Retain?))
  }

  /** The builder appends a primitive that neither merges with the last one nor moves before it. */
  lemma AddAppends(b: Op, p: Prim)
    requires b != [] && Size(p) > 0
    requires !SameKind(b[|b| - 1], p) && !(p.Insert? && b[|b| - 1].Delete?)
    ensures Add(b, p) == b + [p]
    ensures Edits(Add(b, p)) == Edits(b) + (if p.Retain? then 0 else 1)
  {
    EditsSnoc(b, p);
  }

  /** The builder moves an insert in front of a delete that follows a retain. */
  lemma AddMoves(w: Op, last: Prim, p: Prim)
    requires last.Delete? && p.Insert? && Size(p) > 0
    requires w == [] || w[|w| - 1].Retain?
    ensures Add(w + [last], p) == w + [p] + [last]
    ensures Edits(Add(w + [last], p)) == Edits(w + [last]) + 1
  {
    assert (w + [last])[..|w|] == w;
    assert InsertAtEnd(w, p.s) == w + [p];
    EditsSnoc(w, last);
    EditsSnoc(w, p);
    EditsSnoc(w + [p], last);
  }

  /** One builder step on a flipped sequence: nothing merges, and one edit is added per insert or delete. */
  lemma AddFlipped(b: Op, prev: Prim, p: Prim)
    requires EndsAfter(prev, b) && CanFollowFlipped(prev, p) && Size(p) > 0
    ensures Edits(Add(b, p)) == Edits(b) + (if p.Retain? then 0 else 1)
    ensures EndsAfter(p, Add(b, p))
  {
    var n := |b|;
    var w, last := b[..n - 1], b[n - 1];
    if p.Insert? && last.Delete? {
      assert b == w + [last];
      AddMoves(w, last, p);
    } else {
      AddAppends(b, p);
    }
  }

  /**
   * The builder merges nothing in a flipped sequence: it only moves an
   * insert in front of the delete it follows, so the edits are kept.
   */
  lemma {:induction false} BuildFlipped(raw: Op)
    requires FlipNormalized(raw)
    ensures Edits(Build(raw)) == Edits(raw)
    ensures raw != [] ==> EndsAfter(raw[|raw| - 1], Build(raw))
  {
    if raw != [] {
      var n := |raw| - 1;
      FlipNormalizedInit(raw);
      BuildFlipped(raw[..n]);
      EditsSnoc(raw[..n], raw[n]);
      if n == 0 {
        EditsSnoc([], raw[n]);
      } else {
        AddFlipped(Build(raw[..n]), raw[n - 1], raw[n]);
      }
    }
  }

  lemma FlipNormalizedInit(raw: Op)
    requires FlipNormalized(raw) && raw != []
    ensures FlipNormalized(raw[..|raw| - 1])
    ensures raw == raw[..|raw| - 1] + [raw[|raw| - 1]] && Size(raw[|raw| - 1]) > 0
    ensures |raw| >= 2 ==> raw[..|raw| - 1][|raw| - 2] == raw[|raw| - 2]
    ensures |raw| >= 2 ==> CanFollowFlipped(raw[|raw| - 2], raw[|raw| - 1])
  {
    var n := |raw| - 1;
    assert forall i | 0 <= i < n :: raw[..n][i] == raw[i];
  }

  /** A flipped sequence with a single edit is already in normal form. */
  lemma FlippedOneEditNormalized(inv: Op)
    requires FlipNormalized(inv) && Edits(inv) == 1
    ensures Normalized(inv)
  {
    var i := OneEditAt(inv);
    forall j | 0 <= j < |inv| - 1
      ensures CanFollow(inv[j], inv[j + 1])
    {
      assert CanFollowFlipped(inv[j], inv[j + 1]);
    }
  }

  /** A simple operation that is not a no-op does one insert or delete. */
  lemma SimpleOpEdits(op: TextOp)
    requires !IsNoop(op) && SimpleOp(op).Some?
    ensures !SimpleOp(op).value.Retain?
  {
    if |op| >= 2 {
      Adjacent(op, 0);
    }
    if |op| == 3 {
      Adjacent(op, 1);
    }
  }

  /** Inverting keeps the number of edits; the walk itself flips every primitive in place. */
  lemma InvertEdits(op: TextOp, doc: string)
    requires BaseLength(op) <= |doc|
    ensures FlippedAll(op, InvertRaw(op, doc)) && FlipNormalized(InvertRaw(op, doc))
    ensures Edits(Invert(op, doc)) == Edits(op)
  {
    var raw := InvertRaw(op, doc);
    InvertRawFlipped(op, doc);
    EditsFlipped(op, raw);
    FlippedNormalized(op, raw);
    BuildFlipped(raw);
  }

  /** A normalized operation is a no-op exactly when it has no edits. */
  lemma NoopEdits(op: TextOp)
    ensures IsNoop(op) <==> Edits(op) == 0
  {
    NoopIffRetainsOnly(op);
    if Edits(op) == 0 {
      EditsZero(op);
    } else if RetainsOnly(op) {
      RetainsOnlyEdits(op);
    }
  }

  /** A normalized operation other than a no-op is simple exactly when it has one edit. */
  lemma SimpleEdits(op: TextOp)
    requires !IsNoop(op)
    ensures SimpleOp(op).Some? <==> Edits(op) == 1
  {
    if SimpleOp(op).Some? {
      SimpleOpEdits(op);
      var i :| 0 <= i < |op| && op[i] == SimpleOp(op).value && OthersRetain(op, i);
      OneEdit(op, i);
    } else if Edits(op) == 1 {
      var i := OneEditAt(op);
      SimpleOpComplete(op, i);
    }
  }

  /** Inverting a simple operation flips its edit in place and keeps its start index. */
  lemma InvertSimple(op: TextOp, doc: string)
    requires BaseLength(op) <= |doc| && !IsNoop(op) && SimpleOp(op).Some?
    ensures SimpleOp(Invert(op, doc)).Some?
    ensures Flipped(SimpleOp(op).value, SimpleOp(Invert(op, doc)).value)
    ensures StartIndex(Invert(op, doc)) == StartIndex(op)
  {
    var raw, inv := InvertRaw(op, doc), Invert(op, doc);
    SimpleOpEdits(op);
    var i :| 0 <= i < |op| && op[i] == SimpleOp(op).value && OthersRetain(op, i);
    OneEdit(op, i);
    InvertRawFlipped(op, doc);
    EditsFlipped(op, raw);
    FlippedNormalized(op, raw);
    FlippedOneEditNormalized(raw);
    BuildNormalized(raw);
    assert Flipped(op[i], inv[i]);
    assert OthersRetain(inv, i) by {
      forall j | 0 <= j < |inv| && j != i
        ensures inv[j].Retain?
      {
        assert Flipped(op[j], inv[j]);
      }
    }
    SimpleOpComplete(inv, i);
    assert Flipped(op[0], inv[0]);
  }

  /**
   * Inverting keeps the shape the heuristics look at: no-ops stay no-ops,
   * a simple operation stays simple with its edit flipped and the same
   * start index, and any other operation stays not simple.
   */
  lemma InvertShape(op: TextOp, doc: string)
    requires BaseLength(op) <= |doc|
    ensures IsNoop(Invert(op, doc)) <==> IsNoop(op)
    ensures !IsNoop(op) ==> (SimpleOp(op).None? <==> SimpleOp(Invert(op, doc)).None?)
    ensures !IsNoop(op) && SimpleOp(op).Some? ==>
      && !SimpleOp(op).value.Retain?
      && Flipped(SimpleOp(op).value, SimpleOp(Invert(op, doc)).value)
      && StartIndex(Invert(op, doc)) == StartIndex(op)
  {
    var inv := Invert(op, doc);
    InvertEdits(op, doc);
    NoopEdits(op);
    NoopEdits(inv);
    if !IsNoop(op) {
      SimpleEdits(op);
      SimpleEdits(inv);
      if SimpleOp(op).Some? {
        SimpleOpEdits(op);
        InvertSimple(op, doc);
      }
    }
  }

  /**
   * The mirror law: `a.shouldBeComposedWith(b)` is
   * `b⁻¹.shouldBeComposedWithInverted(a⁻¹)`, where `a` applies to `doc`,
   * `b` applies after it, and each inverse is taken on the document its
   * operation applied to.
   */
  lemma ComposedWithMirror(a: TextOp, b: TextOp, doc: string)
    requires Apply(a, doc).Success? && Apply(b, Apply(a, doc).value).Success?
    ensures ShouldBeComposedWith(a, b)
        == ShouldBeComposedWithInverted(Invert(b, Apply(a, doc).value), Invert(a, doc))
  {
    InvertShape(a, doc);
    InvertShape(b, Apply(a, doc).value);
  }

  // ---------------------------------------------------------------------
  // The concrete cases the heuristics are pinned down by.
  // ---------------------------------------------------------------------

  /** The empty operation and retains are no-ops; an insert makes the operation one no longer. */
  lemma NoopExample()
    ensures IsNoop([])
    ensures IsNoop(Add([], Retain(5)))
    ensures IsNoop(Add(Add([], Retain(5)), Retain(3)))
    ensures !IsNoop(Add(Add(Add([], Retain(5)), Retain(3)), Insert("lorem")))
  {
    assert Add(Add([], Retain(5)), Retain(3)) == [Retain(8)];
    assert Add([Retain(8)], Insert("lorem")) == [Retain(8), Insert("lorem")];
  }

  /** A no-op composes with anything, either way round. */
  lemma ComposedWithNoop()
    ensures ShouldBeComposedWith([Retain(3)], [Retain(1), Insert("tag"), Retain(2)])
    ensures ShouldBeComposedWith([Retain(1), Insert("tag"), Retain(2)], [Retain(3)])
  {
  }

  /** Typing on: an insert right after the previous one composes, a later delete does not. */
  lemma ComposedInserts()
    ensures ShouldBeComposedWith([Retain(1), Insert("a"), Retain(2)], [Retain(2), Insert("b"), Retain(2)])
    ensures !ShouldBeComposedWith([Retain(1), Insert("a"), Retain(2), Delete(3)], [Retain(2), Insert("b"), Retain(2)])
    ensures !ShouldBeComposedWith([Retain(1), Insert("b"), Retain(2)], [Retain(1), Insert("a"), Retain(3)])
  {
  }

  /** Backspace and forward delete compose; a delete elsewhere does not. */
  lemma ComposedDeletes()
    ensures ShouldBeComposedWith([Retain(4), Delete(3), Retain(10)], [Retain(2), Delete(2), Retain(10)])
    ensures ShouldBeComposedWith([Retain(4), Delete(3), Retain(10)], [Retain(4), Delete(7), Retain(3)])
    ensures !ShouldBeComposedWith([Retain(4), Delete(3), Retain(10)], [Retain(2), Delete(9), Retain(3)])
  {
  }
}
