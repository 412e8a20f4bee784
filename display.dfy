/** `toString`: an operation written out for people, one primitive after another. */
module Display {
  import opened TextOperation
  import opened Metadata

  /** One primitive: `retain n`, `insert 'text'` or `delete n`. */
  function PrimString(p: Prim): (r: string)
    ensures |r| > 7
  {
    match p
    case Retain(n) => "retain " + IndexKey(n)
    case Insert(s) => "insert '" + s + "'"
    case Delete(n) => "delete " + IndexKey(n)
  }

  /** The primitives, written out and joined by `", "`. */
  function ToString(op: Op): (r: string)
    ensures op == [] <==> r == []
    decreases |op|
  {
    if op == [] then ""
    else if |op| == 1 then PrimString(op[0])
    else ToString(op[..|op| - 1]) + ", " + PrimString(op[|op| - 1])
  }

  /** Appending a primitive to the builder's input: the step the examples below are computed by. */
  lemma ToStringSnoc(op: Op, p: Prim)
    ensures ToString(op + [p]) == if op == [] then PrimString(p) else ToString(op) + ", " + PrimString(p)
  {
    assert (op + [p])[..|op|] == op;
  }

  /** Writing out two operations one after the other is writing out each, joined by `", "`. */
  lemma {:induction false} ToStringConcat(a: Op, b: Op)
    requires a != [] && b != []
    ensures ToString(a + b) == ToString(a) + ", " + ToString(b)
    decreases |b|
  {
    var n := |b| - 1;
    var init, x := b[..n], b[n];
    assert a + b == (a + init) + [x] by { assert b == init + [x]; }
    ToStringSnoc(a + init, x);
    if n > 0 {
      ToStringConcat(a, init);
      ToStringSnoc(init, x);
      assert init + [x] == b;
      var l, si, sx := ToString(a) + ", ", ToString(init), PrimString(x);
      assert ToString(a + init) == l + si;
      Assoc(l, si, ", ");
      Assoc(l, si + ", ", sx);
      assert ToString(a + b) == ((l + si) + ", ") + sx;
    } else {
      assert a + init == a;
      assert b == [x];
    }
  }

  /** The primitives written out from the front, each followed by `", "` and the rest. */
  function JoinFromFront(op: Op): string
    decreases |op|
  {
    if op == [] then ""
    else if |op| == 1 then PrimString(op[0])
    else PrimString(op[0]) + ", " + JoinFromFront(op[1..])
  }

  /** `toString` lists the primitives in order: it agrees with the front-first join. */
  lemma {:induction false} ToStringFromFront(op: Op)
    ensures ToString(op) == JoinFromFront(op)
    decreases |op|
  {
    if |op| >= 2 {
      assert op == [op[0]] + op[1..];
      ToStringConcat([op[0]], op[1..]);
      ToStringFromFront(op[1..]);
    }
  }

  /** The text starts with the first primitive's and ends with the last one's. */
  lemma ToStringEnds(op: Op)
    requires op != []
    ensures PrimString(op[0]) <= ToString(op)
    ensures ToString(op)[|ToString(op)| - |PrimString(op[|op| - 1])|..] == PrimString(op[|op| - 1])
  {
    ToStringFromFront(op);
  }

  /** The four primitives of the example, written out. */
  lemma PrimStringExamples()
    ensures PrimString(Retain(2)) == "retain 2" && PrimString(Insert("lorem")) == "insert 'lorem'"
    ensures PrimString(Delete(5)) == "delete 5" && PrimString(Retain(5)) == "retain 5"
  {
    assert IndexKey(2) == "2" && IndexKey(5) == "5";
    assert "retain " + "2" == "retain 2";
    assert "insert '" + "lorem" + "'" == "insert 'lorem'";
    assert "delete " + "5" == "delete 5";
    assert "retain " + "5" == "retain 5";
  }

  /** The first two primitives of the example. */
  lemma ToStringTwo()
    ensures ToString([Retain(2), Insert("lorem")]) == "retain 2, insert 'lorem'"
  {
    PrimStringExamples();
    ToStringSnoc([Retain(2)], Insert("lorem"));
    assert [Retain(2)] + [Insert("lorem")] == [Retain(2), Insert("lorem")];
    assert "retain 2" + ", " + "insert 'lorem'" == "retain 2, insert 'lorem'";
  }

  /** The first three primitives of the example. */
  lemma ToStringThree()
    ensures ToString([Retain(2), Insert("lorem"), Delete(5)]) == "retain 2, insert 'lorem', delete 5"
  {
    PrimStringExamples();
    ToStringTwo();
    ToStringSnoc([Retain(2), Insert("lorem")], Delete(5));
    assert [Retain(2), Insert("lorem")] + [Delete(5)] == [Retain(2), Insert("lorem"), Delete(5)];
    assert "retain 2, insert 'lorem'" + ", " + "delete 5" == "retain 2, insert 'lorem', delete 5";
  }

  /** `retain 2, insert 'lorem', delete 5, retain 5`. */
  lemma ToStringExample()
    ensures ToString([Retain(2), Insert("lorem"), Delete(5), Retain(5)])
         == "retain 2, insert 'lorem', delete 5, retain 5"
  {
    PrimStringExamples();
    ToStringThree();
    ToStringSnoc([Retain(2), Insert("lorem"), Delete(5)], Retain(5));
    assert [Retain(2), Insert("lorem"), Delete(5)] + [Retain(5)] == [Retain(2), Insert("lorem"), Delete(5), Retain(5)];
    assert "retain 2, insert 'lorem', delete 5" + ", " + "retain 5"
        == "retain 2, insert 'lorem', delete 5, retain 5";
  }
}
