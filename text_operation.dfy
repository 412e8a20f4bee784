/**
 * The text-operation algebra of ot.js: an operation is a sequence of
 * primitives that walks a document left to right, retaining, inserting or
 * deleting characters.  This module holds the data model, the builder that
 * keeps an operation in normal form, the lengths and `apply`.
 */
module TextOperation {
  import opened Wrappers

  /** One primitive: keep `n` characters, type `s`, or remove `n` characters. */
  datatype Prim = Retain(n: nat) | Insert(s: string) | Delete(n: nat)

  /** A primitive sequence, not necessarily in normal form. */
  type Op = seq<Prim>

  datatype OpError =
    | BaseLengthMismatch        // apply: the document length is not the base length
    | ComposeLengthMismatch     // compose: target length of the first is not base length of the second
    | TransformLengthMismatch   // transform: the two base lengths differ
    | UnknownOperation(at: nat) // fromJSON: the element at this index is not a retain, insert or delete

  function Size(p: Prim): nat {
    match p
    case Retain(n) => n
    case Insert(s) => |s|
    case Delete(n) => n
  }

  /** Characters of the input document a primitive consumes. */
  function BaseOf(p: Prim): nat {
    if p.Insert? then 0 else p.n
  }

  /** Characters of the output document a primitive produces. */
  function TargetOf(p: Prim): nat {
    if p.Delete? then 0 else Size(p)
  }

  /** The document length the operation can be applied to. */
  function BaseLength(op: Op): nat {
    if op == [] then 0 else BaseOf(op[0]) + BaseLength(op[1..])
  }

  /** The document length the operation produces. */
  function TargetLength(op: Op): nat {
    if op == [] then 0 else TargetOf(op[0]) + TargetLength(op[1..])
  }

  /** Total size of all primitives; the measure the two-stream walks decrease. */
  function Weight(op: Op): nat {
    if op == [] then 0 else Size(op[0]) + Weight(op[1..])
  }

  predicate Positive(op: Op) {
    forall i | 0 <= i < |op| :: Size(op[i]) > 0
  }

  /**
   * Which primitive may follow which in normal form: never two of the same
   * kind (they are merged), and never an insert right after a delete (the
   * builder moves the insert in front of the delete).
   */
  predicate CanFollow(p: Prim, q: Prim) {
    match p
    case Retain(_) => !q.Retain?
    case Insert(_) => !q.Insert?
    case Delete(_) => q.Retain?
  }

  /** The normal form every operation built by the builder is in. */
  predicate Normalized(op: Op) {
    && Positive(op)
    && forall i | 0 <= i < |op| - 1 :: CanFollow(op[i], op[i + 1])
  }

  /** A text operation as ot.js represents it: always normalized. */
  type TextOp = op: Op | Normalized(op) witness []

  // ---------------------------------------------------------------------
  // The builder: `retain`, `insert` and `delete` append one primitive.
  // ---------------------------------------------------------------------

  predicate SameKind(p: Prim, q: Prim) {
    (p.Retain? && q.Retain?) || (p.Insert? && q.Insert?) || (p.Delete? && q.Delete?)
  }

  /** Two primitives of the same kind merged into one. */
  function Merge(p: Prim, q: Prim): (r: Prim)
    requires SameKind(p, q)
    ensures SameKind(r, p)
    ensures Size(r) == Size(p) + Size(q)
    ensures BaseOf(r) == BaseOf(p) + BaseOf(q) && TargetOf(r) == TargetOf(p) + TargetOf(q)
  {
    match p
    case Retain(n) => Retain(n + q.n)
    case Insert(s) => Insert(s + q.s)
    case Delete(n) => Delete(n + q.n)
  }

  /** Appends an insert, merging it into a trailing insert. */
  function InsertAtEnd(w: Op, s: string): Op {
    if w != [] && w[|w| - 1].Insert? then w[..|w| - 1] + [Insert(w[|w| - 1].s + s)]
    else w + [Insert(s)]
  }

  /**
   * Appends one primitive the way the builder methods do: a zero-length
   * primitive adds nothing, a primitive of the same kind as the last one is
   * merged into it, and an insert after a delete is placed before that
   * delete (merged into an insert standing before it, if there is one).
   */
  function Add(op: Op, p: Prim): Op {
    if Size(p) == 0 then op
    else if op == [] then [p]
    else
      var w, last := op[..|op| - 1], op[|op| - 1];
      if SameKind(last, p) then w + [Merge(last, p)]
      else if p.Insert? && last.Delete? then InsertAtEnd(w, p.s) + [last]
      else op + [p]
  }

  /** Feeds every primitive of `raw` to the builder, starting from the empty operation. */
  function Build(raw: Op): (r: Op)
    ensures Normalized(r)
    ensures BaseLength(r) == BaseLength(raw) && TargetLength(r) == TargetLength(raw)
  {
    if raw == [] then []
    else
      var init := Build(raw[..|raw| - 1]);
      AddNormalized(init, raw[|raw| - 1]);
      AddLengths(init, raw[|raw| - 1]);
      LastSplit(raw);
      Add(init, raw[|raw| - 1])
  }

  // ---------------------------------------------------------------------
  // Apply.  The document is generic so that the algebra's laws can also be
  // used on documents of symbols; `lift` turns a typed character into a
  // document element (for text it is the identity).
  // ---------------------------------------------------------------------

  /** The document elements an inserted string stands for. */
  function Lift<T>(s: string, lift: char -> T): (r: seq<T>)
    ensures |r| == |s|
  {
    if s == [] then [] else [lift(s[0])] + Lift(s[1..], lift)
  }

  /** What one primitive writes, given the `BaseOf(p)` document elements it consumes. */
  function Emit<T>(p: Prim, chunk: seq<T>, lift: char -> T): (r: seq<T>)
    requires |chunk| == BaseOf(p)
    ensures |r| == TargetOf(p)
  {
    match p
    case Retain(_) => chunk
    case Insert(s) => Lift(s, lift)
    case Delete(_) => []
  }

  /** Walks the document: retain copies, insert emits, delete skips. */
  function ApplyTo<T>(op: Op, doc: seq<T>, lift: char -> T): (r: seq<T>)
    requires |doc| == BaseLength(op)
    ensures |r| == TargetLength(op)
  {
    if op == [] then []
    else
      var b := BaseOf(op[0]);
      Emit(op[0], doc[..b], lift) + ApplyTo(op[1..], doc[b..], lift)
  }

  function Id(c: char): char {
    c
  }

  /** `apply`: fails unless the document has exactly the base length. */
  function Apply(op: Op, doc: string): (r: Result<string, OpError>)
    ensures r.Success? <==> |doc| == BaseLength(op)
    ensures r.Success? ==> |r.value| == TargetLength(op)
    ensures r.Failure? ==> r.error == BaseLengthMismatch
  {
    if |doc| != BaseLength(op) then Failure(BaseLengthMismatch)
    else Success(ApplyTo(op, doc, Id))
  }

  // ---------------------------------------------------------------------
  // Lemmas about lengths, concatenation and the builder.
  // ---------------------------------------------------------------------

  lemma LastSplit(raw: Op)
    requires raw != []
    ensures raw == raw[..|raw| - 1] + [raw[|raw| - 1]]
    ensures BaseLength(raw) == BaseLength(raw[..|raw| - 1]) + BaseOf(raw[|raw| - 1])
    ensures TargetLength(raw) == TargetLength(raw[..|raw| - 1]) + TargetOf(raw[|raw| - 1])
  {
    assert raw == raw[..|raw| - 1] + [raw[|raw| - 1]];
    SnocLengths(raw[..|raw| - 1], raw[|raw| - 1]);
  }

  lemma {:induction false} LengthsConcat(x: Op, y: Op)
    ensures BaseLength(x + y) == BaseLength(x) + BaseLength(y)
    ensures TargetLength(x + y) == TargetLength(x) + TargetLength(y)
    ensures Weight(x + y) == Weight(x) + Weight(y)
  {
    if x == [] {
      assert x + y == y;
    } else {
      assert (x + y)[1..] == x[1..] + y;
      LengthsConcat(x[1..], y);
    }
  }

  lemma {:induction false} LiftConcat<T>(s: string, t: string, lift: char -> T)
    ensures Lift(s + t, lift) == Lift(s, lift) + Lift(t, lift)
  {
    if s == [] {
      assert s + t == t;
    } else {
      assert (s + t)[0] == s[0] && (s + t)[1..] == s[1..] + t;
      LiftConcat(s[1..], t, lift);
      Assoc([lift(s[0])], Lift(s[1..], lift), Lift(t, lift));
    }
  }

  lemma {:induction false} LiftId(s: string)
    ensures Lift(s, Id) == s
  {
    if s != [] {
      LiftId(s[1..]);
      assert s == [s[0]] + s[1..];
    }
  }

  lemma TakeDrop<T>(d: seq<T>, k: nat)
    requires k <= |d|
    ensures d == d[..k] + d[k..]
  {
  }

  lemma SplitLast<T>(d: seq<T>)
    requires d != []
    ensures d == d[..|d| - 1] + [d[|d| - 1]]
  {
  }

  lemma NilConcat<T>(x: seq<T>)
    ensures [] + x == x && x + [] == x
  {
  }

  /** Associativity of concatenation, stated once so that proofs can cite it. */
  lemma Assoc<T>(a: seq<T>, b: seq<T>, c: seq<T>)
    ensures a + (b + c) == (a + b) + c
  {
  }

  lemma {:induction false} ApplyConcat<T>(x: Op, y: Op, dx: seq<T>, dy: seq<T>, lift: char -> T)
    requires |dx| == BaseLength(x) && |dy| == BaseLength(y)
    ensures BaseLength(x + y) == |dx + dy|
    ensures ApplyTo(x + y, dx + dy, lift) == ApplyTo(x, dx, lift) + ApplyTo(y, dy, lift)
  {
    LengthsConcat(x, y);
    if x == [] {
      assert x + y == y;
      assert dx + dy == dy;
    } else {
      var p := x[0];
      var b := BaseOf(p);
      var x' := x[1..];
      assert (x + y)[1..] == x' + y;
      assert (x + y)[0] == p;
      assert (dx + dy)[..b] == dx[..b];
      assert (dx + dy)[b..] == dx[b..] + dy;
      ApplyConcat(x', y, dx[b..], dy, lift);
      calc {
        ApplyTo(x + y, dx + dy, lift);
        { ApplyCons(x + y, dx + dy, lift); }
        Emit(p, dx[..b], lift) + ApplyTo(x' + y, dx[b..] + dy, lift);
        Emit(p, dx[..b], lift) + (ApplyTo(x', dx[b..], lift) + ApplyTo(y, dy, lift));
        { Assoc(Emit(p, dx[..b], lift), ApplyTo(x', dx[b..], lift), ApplyTo(y, dy, lift)); }
        (Emit(p, dx[..b], lift) + ApplyTo(x', dx[b..], lift)) + ApplyTo(y, dy, lift);
        { ApplyCons(x, dx, lift); }
        ApplyTo(x, dx, lift) + ApplyTo(y, dy, lift);
      }
    }
  }

  lemma ApplyCons<T>(x: Op, d: seq<T>, lift: char -> T)
    requires x != [] && |d| == BaseLength(x)
    ensures ApplyTo(x, d, lift)
         == Emit(x[0], d[..BaseOf(x[0])], lift) + ApplyTo(x[1..], d[BaseOf(x[0])..], lift)
  {
  }

  /** Applying `[p] + rest`. */
  lemma ConsApply<T>(p: Prim, rest: Op, d: seq<T>, lift: char -> T)
    requires |d| == BaseOf(p) + BaseLength(rest)
    ensures BaseLength([p] + rest) == |d|
    ensures TargetLength([p] + rest) == TargetOf(p) + TargetLength(rest)
    ensures ApplyTo([p] + rest, d, lift)
         == Emit(p, d[..BaseOf(p)], lift) + ApplyTo(rest, d[BaseOf(p)..], lift)
  {
    assert ([p] + rest)[0] == p && ([p] + rest)[1..] == rest;
  }

  lemma SplitConcatAt<T>(x: seq<T>, y: seq<T>)
    ensures (x + y)[..|x|] == x && (x + y)[|x|..] == y
  {
  }

  /** Applying a one-primitive operation is emitting that primitive. */
  lemma ApplySingle<T>(p: Prim, d: seq<T>, lift: char -> T)
    requires |d| == BaseOf(p)
    ensures BaseLength([p]) == BaseOf(p) && TargetLength([p]) == TargetOf(p)
    ensures ApplyTo([p], d, lift) == Emit(p, d, lift)
  {
    assert [p][1..] == [];
    assert d[..BaseOf(p)] == d;
  }

  /** Applying `w + [q]` to a split document. */
  lemma ApplySnoc<T>(w: Op, q: Prim, dw: seq<T>, dq: seq<T>, lift: char -> T)
    requires |dw| == BaseLength(w) && |dq| == BaseOf(q)
    ensures BaseLength(w + [q]) == |dw + dq|
    ensures ApplyTo(w + [q], dw + dq, lift) == ApplyTo(w, dw, lift) + Emit(q, dq, lift)
  {
    ApplySingle(q, dq, lift);
    ApplyConcat(w, [q], dw, dq, lift);
  }

  lemma SnocLengths(w: Op, q: Prim)
    ensures BaseLength(w + [q]) == BaseLength(w) + BaseOf(q)
    ensures TargetLength(w + [q]) == TargetLength(w) + TargetOf(q)
    ensures Weight(w + [q]) == Weight(w) + Size(q)
  {
    LengthsConcat(w, [q]);
    assert [q][1..] == [];
  }

  lemma SnocNormalized(w: Op, q: Prim)
    ensures Normalized(w + [q])
        <==> Normalized(w) && Size(q) > 0 && (w == [] || CanFollow(w[|w| - 1], q))
  {
    var r := w + [q];
    assert forall i | 0 <= i < |w| :: r[i] == w[i];
    assert r[|w|] == q;
  }

  lemma MergeEmit<T>(p: Prim, q: Prim, dp: seq<T>, dq: seq<T>, lift: char -> T)
    requires SameKind(p, q) && |dp| == BaseOf(p) && |dq| == BaseOf(q)
    ensures Emit(Merge(p, q), dp + dq, lift) == Emit(p, dp, lift) + Emit(q, dq, lift)
  {
    if p.Insert? {
      LiftConcat(p.s, q.s, lift);
    }
  }

  lemma InsertAtEndSpec<T>(w: Op, s: string, dw: seq<T>, lift: char -> T)
    requires |dw| == BaseLength(w)
    ensures BaseLength(InsertAtEnd(w, s)) == BaseLength(w)
    ensures TargetLength(InsertAtEnd(w, s)) == TargetLength(w) + |s|
    ensures ApplyTo(InsertAtEnd(w, s), dw, lift) == ApplyTo(w, dw, lift) + Lift(s, lift)
  {
    assert dw + [] == dw;
    if w != [] && w[|w| - 1].Insert? {
      var k := |w| - 1;
      var v := w[..k];
      assert w == v + [w[k]];
      SnocLengths(v, w[k]);
      SnocLengths(v, Insert(w[k].s + s));
      ApplySnoc(v, w[k], dw, [], lift);
      ApplySnoc(v, Insert(w[k].s + s), dw, [], lift);
      LiftConcat(w[k].s, s, lift);
      Assoc(ApplyTo(v, dw, lift), Lift(w[k].s, lift), Lift(s, lift));
    } else {
      SnocLengths(w, Insert(s));
      ApplySnoc(w, Insert(s), dw, [], lift);
    }
  }

  lemma InsertAtEndNormalized(w: Op, s: string)
    requires Normalized(w) && |s| > 0
    requires w == [] || !w[|w| - 1].Delete?
    ensures Normalized(InsertAtEnd(w, s))
    ensures InsertAtEnd(w, s) != [] && InsertAtEnd(w, s)[|InsertAtEnd(w, s)| - 1].Insert?
  {
    if w != [] && w[|w| - 1].Insert? {
      var k := |w| - 1;
      var v := w[..k];
      assert w == v + [w[k]];
      SnocNormalized(v, w[k]);
      SnocNormalized(v, Insert(w[k].s + s));
    } else {
      SnocNormalized(w, Insert(s));
    }
  }

  lemma AddLengths(op: Op, p: Prim)
    ensures BaseLength(Add(op, p)) == BaseLength(op) + BaseOf(p)
    ensures TargetLength(Add(op, p)) == TargetLength(op) + TargetOf(p)
  {
    SnocLengths(op, p);
    if Size(p) != 0 && op != [] {
      var k := |op| - 1;
      var w, last := op[..k], op[k];
      assert op == w + [last];
      SnocLengths(w, last);
      if SameKind(last, p) {
        SnocLengths(w, Merge(last, p));
      } else if p.Insert? && last.Delete? {
        InsertAtEndSpec(w, p.s, seq(BaseLength(w), _ => 0), x => 0);
        SnocLengths(InsertAtEnd(w, p.s), last);
      }
    }
  }

  lemma AddNormalized(op: Op, p: Prim)
    requires Normalized(op)
    ensures Normalized(Add(op, p))
  {
    if Size(p) != 0 {
      if op == [] {
        SnocNormalized([], p);
        assert [] + [p] == [p];
      } else {
        var k := |op| - 1;
        var w, last := op[..k], op[k];
        assert op == w + [last];
        SnocNormalized(w, last);
        if SameKind(last, p) {
          SnocNormalized(w, Merge(last, p));
        } else if p.Insert? && last.Delete? {
          if w != [] {
            assert CanFollow(w[k - 1], last);
          }
          InsertAtEndNormalized(w, p.s);
          SnocNormalized(InsertAtEnd(w, p.s), last);
        } else {
          SnocNormalized(op, p);
        }
      }
    }
  }

  /** The builder step does not change what an operation does. */
  lemma AddApply<T>(op: Op, p: Prim, dop: seq<T>, dp: seq<T>, lift: char -> T)
    requires |dop| == BaseLength(op) && |dp| == BaseOf(p)
    ensures BaseLength(Add(op, p)) == |dop + dp|
    ensures ApplyTo(Add(op, p), dop + dp, lift) == ApplyTo(op, dop, lift) + Emit(p, dp, lift)
  {
    AddLengths(op, p);
    if Size(p) == 0 {
      assert dp == [] && dop + dp == dop;
      assert Emit(p, dp, lift) == [];
    } else if op == [] {
      assert dop == [] && dop + dp == dp;
      ApplySingle(p, dp, lift);
    } else {
      var k := |op| - 1;
      var w, last := op[..k], op[k];
      SplitLast(op);
      SnocLengths(w, last);
      var bw := BaseLength(w);
      var dw, dl := dop[..bw], dop[bw..];
      TakeDrop(dop, bw);
      if SameKind(last, p) {
        assert Add(op, p) == w + [Merge(last, p)];
        AddApplyMerge(w, last, p, dw, dl, dp, lift);
      } else if p.Insert? && last.Delete? {
        assert Add(op, p) == InsertAtEnd(w, p.s) + [last];
        AddApplyMoved(w, last, p.s, dw, dl, lift);
        assert dp == [] && dop + dp == dop;
      } else {
        assert Add(op, p) == op + [p];
        ApplySnoc(op, p, dop, dp, lift);
      }
    }
  }

  lemma AddApplyMerge<T>(w: Op, last: Prim, p: Prim, dw: seq<T>, dl: seq<T>, dp: seq<T>, lift: char -> T)
    requires SameKind(last, p)
    requires |dw| == BaseLength(w) && |dl| == BaseOf(last) && |dp| == BaseOf(p)
    ensures BaseLength(w + [last]) == |dw + dl|
    ensures BaseLength(w + [Merge(last, p)]) == |dw + dl + dp|
    ensures ApplyTo(w + [Merge(last, p)], dw + dl + dp, lift)
         == ApplyTo(w + [last], dw + dl, lift) + Emit(p, dp, lift)
  {
    ApplySnoc(w, last, dw, dl, lift);
    ApplySnoc(w, Merge(last, p), dw, dl + dp, lift);
    MergeEmit(last, p, dl, dp, lift);
    Assoc(dw, dl, dp);
    Assoc(ApplyTo(w, dw, lift), Emit(last, dl, lift), Emit(p, dp, lift));
  }

  lemma AddApplyMoved<T>(w: Op, last: Prim, s: string, dw: seq<T>, dl: seq<T>, lift: char -> T)
    requires last.Delete?
    requires |dw| == BaseLength(w) && |dl| == BaseOf(last)
    ensures BaseLength(w + [last]) == |dw + dl|
    ensures BaseLength(InsertAtEnd(w, s) + [last]) == |dw + dl|
    ensures ApplyTo(InsertAtEnd(w, s) + [last], dw + dl, lift)
         == ApplyTo(w + [last], dw + dl, lift) + Lift(s, lift)
  {
    ApplySnoc(w, last, dw, dl, lift);
    InsertAtEndSpec(w, s, dw, lift);
    ApplySnoc(InsertAtEnd(w, s), last, dw, dl, lift);
    assert Emit(last, dl, lift) == [];
    assert ApplyTo(w, dw, lift) + [] == ApplyTo(w, dw, lift);
    assert ApplyTo(w, dw, lift) + Lift(s, lift) + [] == ApplyTo(w, dw, lift) + Lift(s, lift);
  }

  /** Building an operation does not change what it does. */
  lemma {:induction false} BuildApply<T>(raw: Op, d: seq<T>, lift: char -> T)
    requires |d| == BaseLength(raw)
    ensures ApplyTo(Build(raw), d, lift) == ApplyTo(raw, d, lift)
  {
    if raw != [] {
      var k := |raw| - 1;
      var init := raw[..k];
      LastSplit(raw);
      var b := BaseLength(init);
      var di, dp := d[..b], d[b..];
      assert d == di + dp;
      BuildApply(init, di, lift);
      AddApply(Build(init), raw[k], di, dp, lift);
      ApplySnoc(init, raw[k], di, dp, lift);
    }
  }

  /** The builder leaves an operation that is already normalized unchanged. */
  lemma {:induction false} BuildNormalized(op: Op)
    requires Normalized(op)
    ensures Build(op) == op
  {
    if op != [] {
      var k := |op| - 1;
      var init := op[..k];
      assert Normalized(init);
      BuildNormalized(init);
      var p := op[k];
      assert Size(p) > 0;
      if init != [] {
        assert CanFollow(init[k - 1], p);
      }
      assert init + [p] == op;
    }
  }

  // ---------------------------------------------------------------------
  // Splitting a primitive in two: the walks of compose and transform
  // consume the shorter of two heads and keep the rest of the longer one.
  // ---------------------------------------------------------------------

  function Min(x: nat, y: nat): nat {
    if x <= y then x else y
  }

  /** The first `m` units of a primitive. */
  function Chunk(p: Prim, m: nat): (r: Prim)
    requires m <= Size(p)
    ensures SameKind(r, p) && Size(r) == m
  {
    match p
    case Retain(_) => Retain(m)
    case Insert(s) => Insert(s[..m])
    case Delete(_) => Delete(m)
  }

  /** What is left of a primitive after its first `m` units. */
  function RestPrim(p: Prim, m: nat): (r: Prim)
    requires m < Size(p)
    ensures SameKind(r, p) && Size(r) == Size(p) - m
  {
    match p
    case Retain(n) => Retain(n - m)
    case Insert(s) => Insert(s[m..])
    case Delete(n) => Delete(n - m)
  }

  /** The rest as an operation: empty when the whole primitive was consumed. */
  function Rest(p: Prim, m: nat): (r: Op)
    requires m <= Size(p)
    ensures Positive(r) && |r| <= 1
    ensures Weight(r) == Size(p) - m
  {
    if m == Size(p) then [] else
      var q := RestPrim(p, m);
      assert Weight([q]) == Size(q) by { assert [q][1..] == []; }
      [q]
  }

  lemma SliceFacts<T>(d: seq<T>, c: nat, b: nat)
    requires c <= b <= |d|
    ensures d[..b][..c] == d[..c]
    ensures d[..b][c..] == d[c..][..b - c]
    ensures d[c..][b - c..] == d[b..]
  {
  }

  lemma EmitSplit<T>(p: Prim, m: nat, chunk: seq<T>, lift: char -> T)
    requires m <= Size(p) && |chunk| == BaseOf(p)
    ensures BaseOf(Chunk(p, m)) <= |chunk|
    ensures BaseLength(Rest(p, m)) == |chunk| - BaseOf(Chunk(p, m))
    ensures TargetLength(Rest(p, m)) == TargetOf(p) - TargetOf(Chunk(p, m))
    ensures Emit(p, chunk, lift)
         == Emit(Chunk(p, m), chunk[..BaseOf(Chunk(p, m))], lift)
          + ApplyTo(Rest(p, m), chunk[BaseOf(Chunk(p, m))..], lift)
  {
    var c := BaseOf(Chunk(p, m));
    if m == Size(p) {
      assert chunk[..c] == chunk;
      if p.Insert? {
        assert p.s[..m] == p.s;
      }
    } else {
      var q := RestPrim(p, m);
      ApplySingle(q, chunk[c..], lift);
      if p.Insert? {
        assert p.s == p.s[..m] + p.s[m..];
        LiftConcat(p.s[..m], p.s[m..], lift);
      } else if p.Retain? {
        TakeDrop(chunk, c);
      }
    }
  }

  lemma PositiveTail(op: Op)
    requires Positive(op) && op != []
    ensures Positive(op[1..])
  {
    assert forall i | 0 <= i < |op| - 1 :: op[1..][i] == op[i + 1];
  }

  lemma PositiveConcat(x: Op, y: Op)
    requires Positive(x) && Positive(y)
    ensures Positive(x + y)
  {
  }

  /**
   * Splitting the head of an operation after `m` units changes neither its
   * lengths nor what it does, and lowers its weight by `m`.
   */
  lemma SplitHead<T>(op: Op, m: nat, d: seq<T>, lift: char -> T)
    requires Positive(op) && op != [] && m <= Size(op[0]) && |d| == BaseLength(op)
    ensures Positive(Rest(op[0], m) + op[1..])
    ensures BaseOf(Chunk(op[0], m)) <= |d|
    ensures BaseLength(Rest(op[0], m) + op[1..]) == BaseLength(op) - BaseOf(Chunk(op[0], m))
    ensures TargetLength(Rest(op[0], m) + op[1..]) == TargetLength(op) - TargetOf(Chunk(op[0], m))
    ensures Weight(Rest(op[0], m) + op[1..]) == Weight(op) - m
    ensures ApplyTo(op, d, lift)
         == Emit(Chunk(op[0], m), d[..BaseOf(Chunk(op[0], m))], lift)
          + ApplyTo(Rest(op[0], m) + op[1..], d[BaseOf(Chunk(op[0], m))..], lift)
  {
    var p, tail := op[0], op[1..];
    var c, b := BaseOf(Chunk(p, m)), BaseOf(p);
    var r := Rest(p, m);
    PositiveTail(op);
    PositiveConcat(r, tail);
    LengthsConcat(r, tail);
    EmitSplit(p, m, d[..b], lift);
    SliceFacts(d, c, b);
    ApplyConcat(r, tail, d[c..][..b - c], d[c..][b - c..], lift);
    TakeDrop(d[c..], b - c);
    ApplyCons(op, d, lift);
    Assoc(Emit(Chunk(p, m), d[..c], lift), ApplyTo(r, d[c..][..b - c], lift), ApplyTo(tail, d[b..], lift));
  }

  lemma WeightAfterSplit(op: Op, m: nat)
    requires Positive(op) && op != [] && m <= Size(op[0])
    ensures Positive(Rest(op[0], m) + op[1..])
    ensures Weight(Rest(op[0], m) + op[1..]) == Weight(op) - m
  {
    PositiveTail(op);
    PositiveConcat(Rest(op[0], m), op[1..]);
    LengthsConcat(Rest(op[0], m), op[1..]);
  }

  /** A positive operation that does not start with an insert consumes something. */
  lemma HeadConsumes(op: Op)
    requires Positive(op) && op != [] && !op[0].Insert?
    ensures BaseLength(op) > 0
  {
    assert Size(op[0]) > 0;
  }
}
