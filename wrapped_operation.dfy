/**
 * WrappedOperation: a text operation paired with metadata.  Each operation
 * on the pair applies to the text operation and to the metadata by
 * capability: the metadata's own `invert`, `compose` or `transform` method
 * when it is an object that has one, otherwise a fixed rule.
 */
module WrappedOperations {
  import opened Wrappers
  import opened TextOperation
  import opened Composition
  import opened Transformation
  import opened Inversion
  import opened Selections
  import opened Metadata

  datatype Wrapped = Wrapped(wrapped: TextOp, meta: Meta)

  /** Why a wrapped operation call throws. */
  datatype WrapError =
    | OperationFailed(e: OpError)   // the wrapped operations do not fit together
    | NotAFunction(name: string)    // a TypeError: the name is not a method of `this`

  /** `apply`: applies the wrapped operation. */
  function WrappedApply(w: Wrapped, doc: string): (r: Result<string, OpError>)
    ensures r == Apply(w.wrapped, doc)
  {
    Apply(w.wrapped, doc)
  }

  /** `invert`: the metadata's own `invert` when it has one, otherwise the same metadata. */
  function InvertMeta(m: Meta): (r: Meta)
    ensures IsObject(m) && InvertMethod(m).Some? ==> r == InvertMethod(m).value
    ensures !(IsObject(m) && InvertMethod(m).Some?) ==> r == m
  {
    if IsObject(m) && InvertMethod(m).Some? then InvertMethod(m).value else m
  }

  function WrappedInvert(w: Wrapped, doc: string): Wrapped {
    Wrapped(Invert(w.wrapped, doc), InvertMeta(w.meta))
  }

  /**
   * Inverting undoes the wrapped operation; the metadata of a local edit has
   * its selections swapped, and a plain object is kept as it is.
   */
  lemma WrappedInvertSpec(w: Wrapped, s: string)
    requires WrappedApply(w, s).Success?
    ensures WrappedApply(WrappedInvert(w, s), WrappedApply(w, s).value) == Success(s)
    ensures w.meta.MSelf? ==> WrappedInvert(w, s).meta == MSelf(w.meta.after, w.meta.before)
    ensures w.meta.MRecord? ==> WrappedInvert(w, s).meta == w.meta
  {
    InvertApply(w.wrapped, s);
  }

  /** `_copy`: every own property of `source` is written into `target`. */
  function Copy(target: map<string, Meta>, source: map<string, Meta>): (r: map<string, Meta>)
    ensures r.Keys == target.Keys + source.Keys
    ensures forall k | k in source :: r[k] == source[k]
    ensures forall k | k in target && k !in source :: r[k] == target[k]
  {
    target + source
  }

  /**
   * `_composeMeta`: an object with `compose` composes itself with the other
   * metadata; any other object gives a fresh object with the properties of
   * both, the later ones winning; anything else gives the later metadata.
   */
  function ComposeMeta(a: Meta, b: Meta): (r: Meta)
    ensures !IsObject(a) ==> r == b
    ensures IsObject(a) && ComposeMethod(a, b).Some? ==> r == ComposeMethod(a, b).value
    ensures IsObject(a) && ComposeMethod(a, b).None? ==> r == MRecord(Copy(Copy(map[], OwnProps(a)), OwnProps(b)))
  {
    if IsObject(a) then
      if ComposeMethod(a, b).Some? then ComposeMethod(a, b).value
      else MRecord(Copy(Copy(map[], OwnProps(a)), OwnProps(b)))
    else b
  }

  /** `compose`: composes the operations (failing as `compose` does) and the metadata. */
  function WrappedCompose(a: Wrapped, b: Wrapped): (r: Result<Wrapped, OpError>)
    ensures r.Success? <==> TargetLength(a.wrapped) == BaseLength(b.wrapped)
    ensures r.Success? ==> r.value.meta == ComposeMeta(a.meta, b.meta)
  {
    var c :- Compose(a.wrapped, b.wrapped);
    Success(Wrapped(c, ComposeMeta(a.meta, b.meta)))
  }

  /** The composed wrapped operation does what the two do one after the other. */
  lemma WrappedComposeApply(a: Wrapped, b: Wrapped, s: string)
    requires WrappedApply(a, s).Success? && WrappedApply(b, WrappedApply(a, s).value).Success?
    ensures WrappedCompose(a, b).Success?
    ensures WrappedApply(WrappedCompose(a, b).value, s) == WrappedApply(b, WrappedApply(a, s).value)
  {
    ComposeApply(a.wrapped, b.wrapped, s);
  }

  /** Plain objects are merged key by key: `{a: 1, b: 2}` then `{a: 3, c: 4}` is `{a: 3, b: 2, c: 4}`. */
  lemma ComposeMetaExample()
    ensures ComposeMeta(MRecord(map["a" := MNumber(1), "b" := MNumber(2)]),
                        MRecord(map["a" := MNumber(3), "c" := MNumber(4)]))
         == MRecord(map["a" := MNumber(3), "b" := MNumber(2), "c" := MNumber(4)])
  {
    var fa := map["a" := MNumber(1), "b" := MNumber(2)];
    var fb := map["a" := MNumber(3), "c" := MNumber(4)];
    assert ComposeMethod(MRecord(fa), MRecord(fb)).None?;
    assert OwnProps(MRecord(fa)) == fa && OwnProps(MRecord(fb)) == fb;
    assert map[] + fa + fb == map["a" := MNumber(3), "b" := MNumber(2), "c" := MNumber(4)];
  }

  /** `_transformMeta`: the metadata's own `transform` when it has one, otherwise the same metadata. */
  function TransformMeta(m: Meta, op: Op): (r: Meta)
    ensures IsObject(m) && TransformMethod(m, op).Some? ==> r == TransformMethod(m, op).value
    ensures !(IsObject(m) && TransformMethod(m, op).Some?) ==> r == m
  {
    if IsObject(m) && TransformMethod(m, op).Some? then TransformMethod(m, op).value else m
  }

  /**
   * The static `transform` as written: an arrow function whose `this` is the
   * class, which has no `_transformMeta` (that is a method of instances).
   * Once the operations are transformed, looking the method up throws.
   */
  function TransformAsWritten(a: Wrapped, b: Wrapped): (r: Result<(Wrapped, Wrapped), WrapError>)
    ensures r.Failure?
    ensures BaseLength(a.wrapped) == BaseLength(b.wrapped) ==> r.error == NotAFunction("_transformMeta")
  {
    var pair := Transform(a.wrapped, b.wrapped);
    if pair.Failure? then Failure(OperationFailed(pair.error))
    else Failure(NotAFunction("_transformMeta"))
  }

  /**
   * `transform` as intended: the operations are transformed and each side's
   * metadata is transformed by the other side's operation.
   */
  function WrappedTransform(a: Wrapped, b: Wrapped): (r: Result<(Wrapped, Wrapped), WrapError>)
    ensures r.Success? <==> BaseLength(a.wrapped) == BaseLength(b.wrapped)
    ensures r.Failure? ==> r.error == OperationFailed(TransformLengthMismatch)
    ensures r.Success? ==>
      && r.value.0.wrapped == Transform(a.wrapped, b.wrapped).value.0
      && r.value.1.wrapped == Transform(a.wrapped, b.wrapped).value.1
      && r.value.0.meta == TransformMeta(a.meta, b.wrapped)
      && r.value.1.meta == TransformMeta(b.meta, a.wrapped)
  {
    var pair := Transform(a.wrapped, b.wrapped);
    if pair.Failure? then Failure(OperationFailed(pair.error))
    else
      Success((Wrapped(pair.value.0, TransformMeta(a.meta, b.wrapped)),
               Wrapped(pair.value.1, TransformMeta(b.meta, a.wrapped))))
  }

  /**
   * The transformed pair converges: `a'` after `b` gives the same text as
   * `b'` after `a`; metadata without `transform` is kept.
   */
  lemma WrappedTransformApply(a: Wrapped, b: Wrapped, s: string)
    requires WrappedApply(a, s).Success? && WrappedApply(b, s).Success?
    ensures WrappedTransform(a, b).Success?
    ensures WrappedApply(WrappedTransform(a, b).value.0, WrappedApply(b, s).value)
         == WrappedApply(WrappedTransform(a, b).value.1, WrappedApply(a, s).value)
    ensures a.meta.MRecord? ==> WrappedTransform(a, b).value.0.meta == a.meta
    ensures b.meta.MRecord? ==> WrappedTransform(a, b).value.1.meta == b.meta
  {
    TransformApply(a.wrapped, b.wrapped, s);
  }

  // ---------------------------------------------------------------------
  // Two cursors, carried by concurrent edits of "Loorem ipsum": `a`
  // deletes the doubled "o", `b` replaces the "i" by "I".
  // ---------------------------------------------------------------------

  function CursorEditA(): Wrapped {
    Wrapped([Retain(1), Delete(1), Retain(10)], MSelection(CreateCursor(1)))
  }

  function CursorEditB(): Wrapped {
    Wrapped([Retain(7), Insert("I"), Delete(1), Retain(4)], MSelection(CreateCursor(8)))
  }

  /** As written, transforming the two cursor edits throws. */
  lemma TransformAsWrittenThrows()
    ensures TransformAsWritten(CursorEditA(), CursorEditB()) == Failure(NotAFunction("_transformMeta"))
  {
  }

  /**
   * As intended, `b`'s cursor at 8 moves to 7 because `a` deleted a
   * character before it, `a`'s cursor at 1 is unaffected by `b`, and the
   * two edits together give "Lorem Ipsum".
   */
  lemma TransformCursorExample()
    ensures WrappedTransform(CursorEditA(), CursorEditB()).Success?
    ensures WrappedTransform(CursorEditA(), CursorEditB()).value.0.meta == MSelection(CreateCursor(1))
    ensures WrappedTransform(CursorEditA(), CursorEditB()).value.1.meta == MSelection(CreateCursor(7))
    ensures WrappedApply(WrappedTransform(CursorEditA(), CursorEditB()).value.1,
                         WrappedApply(CursorEditA(), "Loorem ipsum").value)
         == Success("Lorem Ipsum")
  {
    var a, b := CursorEditA(), CursorEditB();
    var w := WrappedTransform(a, b);
    CursorTransformed();
    assert w.Success?;
    MetasTransformed();
    CursorApplied();
  }

  /** The metadata of the two edits, transformed by the other edit. */
  lemma MetasTransformed()
    ensures TransformMeta(CursorEditA().meta, CursorEditB().wrapped) == MSelection(CreateCursor(1))
    ensures TransformMeta(CursorEditB().meta, CursorEditA().wrapped) == MSelection(CreateCursor(7))
  {
    CursorsMoved();
  }

  /** The cursors carried by the edits, transformed by the other edit. */
  lemma CursorsMoved()
    ensures TransformSelection(CreateCursor(8), CursorEditA().wrapped) == CreateCursor(7)
    ensures TransformSelection(CreateCursor(1), CursorEditB().wrapped) == CreateCursor(1)
  {
    var a, b := CursorEditA().wrapped, CursorEditB().wrapped;
    assert a[1..] == [Delete(1), Retain(10)] && a[1..][1..] == [Retain(10)];
    assert IndexFrom(a[1..][1..], 6, 7) == 7;
    assert IndexFrom(a[1..], 7, 8) == 7;
    assert TransformIndex(a, 8) == 7;
    assert TransformIndex(b, 1) == 1;
  }

  /** The transformed `b`: the normalized transform walk of the two edits. */
  lemma CursorTransformed()
    ensures Transform(CursorEditA().wrapped, CursorEditB().wrapped).Success?
    ensures Transform(CursorEditA().wrapped, CursorEditB().wrapped).value.1
         == [Retain(6), Insert("I"), Delete(1), Retain(4)]
  {
    var a, b := CursorEditA().wrapped, CursorEditB().wrapped;
    assert BaseLength(a) == 12 && BaseLength(b) == 12;
    WalkExample1();
    BuildExample();
  }

  lemma WalkExample6()
    ensures TransformRaw([Retain(4)], [Retain(4)]) == ([Retain(4)], [Retain(4)])
  {
    assert Rest(Retain(4), 4) + [Retain(4)][1..] == [];
    assert TransformRaw([], []) == ([], []);
    assert Min(4, 4) == 4;
    assert [Retain(4)] + [] == [Retain(4)];
  }

  lemma WalkExample5()
    ensures TransformRaw([Retain(5)], [Delete(1), Retain(4)]) == ([Retain(4)], [Delete(1), Retain(4)])
  {
    assert Rest(Retain(5), 1) + [Retain(5)][1..] == [Retain(4)];
    assert Rest(Delete(1), 1) + [Delete(1), Retain(4)][1..] == [Retain(4)];
    assert Min(5, 1) == 1;
    WalkExample6();
    assert [Delete(1)] + [Retain(4)] == [Delete(1), Retain(4)];
  }

  lemma WalkExample4()
    ensures TransformRaw([Retain(5)], [Insert("I"), Delete(1), Retain(4)])
         == ([Retain(1), Retain(4)], [Insert("I"), Delete(1), Retain(4)])
  {
    assert [Insert("I"), Delete(1), Retain(4)][1..] == [Delete(1), Retain(4)];
    WalkExample5();
    assert [Retain(1)] + [Retain(4)] == [Retain(1), Retain(4)];
    assert [Insert("I")] + [Delete(1), Retain(4)] == [Insert("I"), Delete(1), Retain(4)];
  }

  lemma WalkExample3()
    ensures TransformRaw([Retain(10)], [Retain(5), Insert("I"), Delete(1), Retain(4)]).1
         == [Retain(5), Insert("I"), Delete(1), Retain(4)]
  {
    assert Rest(Retain(10), 5) + [Retain(10)][1..] == [Retain(5)];
    assert Rest(Retain(5), 5) + [Retain(5), Insert("I"), Delete(1), Retain(4)][1..]
        == [Insert("I"), Delete(1), Retain(4)];
    WalkExample4();
  }

  lemma WalkExample2()
    ensures TransformRaw([Delete(1), Retain(10)], [Retain(6), Insert("I"), Delete(1), Retain(4)]).1
         == [Retain(5), Insert("I"), Delete(1), Retain(4)]
  {
    assert Rest(Delete(1), 1) + [Delete(1), Retain(10)][1..] == [Retain(10)];
    assert Rest(Retain(6), 1) + [Retain(6), Insert("I"), Delete(1), Retain(4)][1..]
        == [Retain(5), Insert("I"), Delete(1), Retain(4)];
    WalkExample3();
  }

  lemma WalkExample1()
    ensures TransformRaw(CursorEditA().wrapped, CursorEditB().wrapped).1
         == [Retain(1), Retain(5), Insert("I"), Delete(1), Retain(4)]
  {
    var a, b := CursorEditA().wrapped, CursorEditB().wrapped;
    assert Rest(Retain(1), 1) + a[1..] == [Delete(1), Retain(10)];
    assert Rest(Retain(7), 1) + b[1..] == [Retain(6), Insert("I"), Delete(1), Retain(4)];
    WalkExample2();
  }

  lemma BuildExample()
    ensures Build([Retain(1), Retain(5), Insert("I"), Delete(1), Retain(4)])
         == [Retain(6), Insert("I"), Delete(1), Retain(4)]
  {
    var raw := [Retain(1), Retain(5), Insert("I"), Delete(1), Retain(4)];
    assert raw[..4] == [Retain(1), Retain(5), Insert("I"), Delete(1)];
    BuildPrefix4();
  }

  /** The walk's first four primitives, built: the retains merge. */
  lemma BuildPrefix4()
    ensures Build([Retain(1), Retain(5), Insert("I"), Delete(1)]) == [Retain(6), Insert("I"), Delete(1)]
  {
    var raw := [Retain(1), Retain(5), Insert("I"), Delete(1)];
    assert raw[..3] == [Retain(1), Retain(5), Insert("I")];
    BuildPrefix3();
  }

  lemma BuildPrefix3()
    ensures Build([Retain(1), Retain(5), Insert("I")]) == [Retain(6), Insert("I")]
  {
    var raw := [Retain(1), Retain(5), Insert("I")];
    assert raw[..2] == [Retain(1), Retain(5)];
    assert raw[..2][..1] == [Retain(1)];
    assert Build([Retain(1)]) == [Retain(1)];
    assert Build([Retain(1), Retain(5)]) == [Retain(6)];
  }

  /** `a` turns "Loorem ipsum" into "Lorem ipsum", and the transformed `b` that into "Lorem Ipsum". */
  lemma CursorApplied()
    ensures Apply([Retain(6), Insert("I"), Delete(1), Retain(4)], "Lorem ipsum") == Success("Lorem Ipsum")
    ensures Apply(CursorEditA().wrapped, "Loorem ipsum") == Success("Lorem ipsum")
  {
    ApplyExampleB();
    ApplyExampleA();
  }

  lemma ApplyExampleB()
    ensures ApplyTo([Retain(6), Insert("I"), Delete(1), Retain(4)], "Lorem ipsum", Id) == "Lorem Ipsum"
  {
    var tail: Op := [Insert("I"), Delete(1), Retain(4)];
    var head, rest := "Lorem ", "ipsum";
    assert head + rest == "Lorem ipsum";
    SplitConcatAt(head, rest);
    ApplyTailB();
    ConsApply(Retain(6), tail, head + rest, Id);
    assert [Retain(6)] + tail == [Retain(6), Insert("I"), Delete(1), Retain(4)];
    assert head + "Ipsum" == "Lorem Ipsum";
  }

  /** The part of `b'` after its leading retain, on the rest of the text. */
  lemma ApplyTailB()
    ensures ApplyTo([Insert("I"), Delete(1), Retain(4)], "ipsum", Id) == "Ipsum"
  {
    var tail: Op := [Delete(1), Retain(4)];
    ApplyDeleteB();
    ConsApply(Insert("I"), tail, "ipsum", Id);
    assert [Insert("I")] + tail == [Insert("I"), Delete(1), Retain(4)];
    LiftId("I");
  }

  /** The replaced "i" deleted, the rest kept. */
  lemma ApplyDeleteB()
    ensures ApplyTo([Delete(1), Retain(4)], "ipsum", Id) == "psum"
  {
    ApplySingle(Retain(4), "psum", Id);
    ConsApply(Delete(1), [Retain(4)], "ipsum", Id);
    assert [Delete(1)] + [Retain(4)] == [Delete(1), Retain(4)];
    assert "ipsum"[1..] == "psum";
  }

  lemma ApplyExampleA()
    ensures ApplyTo([Retain(1), Delete(1), Retain(10)], "Loorem ipsum", Id) == "Lorem ipsum"
  {
    var tail: Op := [Delete(1), Retain(10)];
    ApplyTailA();
    ConsApply(Retain(1), tail, "Loorem ipsum", Id);
    assert [Retain(1)] + tail == [Retain(1), Delete(1), Retain(10)];
    assert "Loorem ipsum"[..1] == "L" && "Loorem ipsum"[1..] == "oorem ipsum";
  }

  /** The part of `a` after its leading retain, on the rest of the text. */
  lemma ApplyTailA()
    ensures ApplyTo([Delete(1), Retain(10)], "oorem ipsum", Id) == "orem ipsum"
  {
    ApplySingle(Retain(10), "orem ipsum", Id);
    ConsApply(Delete(1), [Retain(10)], "oorem ipsum", Id);
    assert [Delete(1)] + [Retain(10)] == [Delete(1), Retain(10)];
    assert "oorem ipsum"[1..] == "orem ipsum";
  }
}
