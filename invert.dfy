/**
 * `invert(doc)`: the operation that undoes an operation, given the document
 * it was applied to.  A retain stays a retain, an insert becomes a delete of
 * the same length, and a delete becomes an insert of the characters it
 * removed, read from the document (JavaScript's `slice` clamps at the end).
 */
module Inversion {
  import opened Wrappers
  import opened TextOperation

  /** How many characters `doc.slice(i, i + n)` yields once `i` are consumed. */
  function Clamp(doc: string, n: nat): (k: nat)
    ensures k <= |doc| && k <= n
    ensures n <= |doc| ==> k == n
  {
    if n <= |doc| then n else |doc|
  }

  /** The inverse primitive of `p`, given the characters `p` consumed. */
  function InvertPrim(p: Prim, consumed: string): Prim {
    match p
    case Retain(n) => Retain(n)
    case Insert(s) => Delete(|s|)
    case Delete(_) => Insert(consumed)
  }

  /** The primitives the inverting walk feeds to the builder. */
  function InvertRaw(op: Op, doc: string): Op {
    if op == [] then []
    else
      var k := Clamp(doc, BaseOf(op[0]));
      [InvertPrim(op[0], doc[..k])] + InvertRaw(op[1..], doc[k..])
  }

  /** `invert`: the normalized inverting walk. */
  function Invert(op: Op, doc: string): (r: TextOp)
    ensures BaseLength(r) == TargetLength(op)
    ensures BaseLength(op) <= |doc| ==> TargetLength(r) == BaseLength(op)
  {
    InvertRawLengths(op, doc);
    Build(InvertRaw(op, doc))
  }

  lemma {:induction false} InvertRawLengths(op: Op, doc: string)
    ensures BaseLength(InvertRaw(op, doc)) == TargetLength(op)
    ensures BaseLength(op) <= |doc| ==> TargetLength(InvertRaw(op, doc)) == BaseLength(op)
  {
    if op != [] {
      var k := Clamp(doc, BaseOf(op[0]));
      var p := InvertPrim(op[0], doc[..k]);
      InvertRawLengths(op[1..], doc[k..]);
      ConsLengths(p, InvertRaw(op[1..], doc[k..]));
    }
  }

  lemma ConsLengths(p: Prim, rest: Op)
    ensures BaseLength([p] + rest) == BaseOf(p) + BaseLength(rest)
    ensures TargetLength([p] + rest) == TargetOf(p) + TargetLength(rest)
  {
    assert ([p] + rest)[0] == p && ([p] + rest)[1..] == rest;
  }

  /** The inverse primitive writes back what the primitive consumed. */
  lemma InvertEmit(p: Prim, chunk: string)
    requires |chunk| == BaseOf(p)
    ensures BaseOf(InvertPrim(p, chunk)) == TargetOf(p)
    ensures Emit(InvertPrim(p, chunk), Emit(p, chunk, Id), Id) == chunk
  {
    if p.Delete? {
      LiftId(chunk);
    }
  }

  /** The walk undoes the operation on the document it was applied to. */
  lemma {:induction false} InvertRawApply(op: Op, doc: string)
    requires |doc| == BaseLength(op)
    ensures BaseLength(InvertRaw(op, doc)) == TargetLength(op)
    ensures ApplyTo(InvertRaw(op, doc), ApplyTo(op, doc, Id), Id) == doc
  {
    InvertRawLengths(op, doc);
    if op != [] {
      var b := BaseOf(op[0]);
      var p := InvertPrim(op[0], doc[..b]);
      var rest := InvertRaw(op[1..], doc[b..]);
      var e0, e1 := Emit(op[0], doc[..b], Id), ApplyTo(op[1..], doc[b..], Id);
      InvertRawApply(op[1..], doc[b..]);
      InvertEmit(op[0], doc[..b]);
      ApplyCons(op, doc, Id);
      ConsApply(p, rest, e0 + e1, Id);
      SplitConcatAt(e0, e1);
      TakeDrop(doc, b);
    }
  }

  /**
   * The invert round trip on text: the inverse has the lengths swapped and
   * applying it to the result of the operation gives the document back.
   */
  lemma InvertApply(op: TextOp, s: string)
    requires Apply(op, s).Success?
    ensures BaseLength(Invert(op, s)) == TargetLength(op)
    ensures TargetLength(Invert(op, s)) == BaseLength(op)
    ensures Apply(Invert(op, s), Apply(op, s).value) == Success(s)
  {
    InvertRawApply(op, s);
    BuildApply(InvertRaw(op, s), ApplyTo(op, s, Id), Id);
  }
}
