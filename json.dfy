/** The JSON values operations and selections are exchanged as (numbers are integers here). */
module JsonValues {
  datatype Json =
    | JNumber(n: int)
    | JString(s: string)
    | JBool(b: bool)
    | JNull
    | JArray(items: seq<Json>)
    | JObject(members: map<string, Json>)
}

module OperationJson {
  import opened Wrappers
  import opened TextOperation
  import opened JsonValues

  function EncodePrim(p: Prim): Json {
    match p
    case Retain(n) => JNumber(n)
    case Insert(s) => JString(s)
    case Delete(n) => JNumber(-(n as int))
  }

  /** What the builder is told to do with one element, if it is an operation at all. */
  function DecodeElem(e: Json): Option<Prim> {
    match e
    case JNumber(n) => if n > 0 then Some(Retain(n)) else if n < 0 then Some(Delete(-n)) else None
    case JString(s) => Some(Insert(s))
    case _ => None
  }

  /** `toJSON`: the primitives as a list, each of which decodes back to itself. */
  function ToJson(op: Op): (r: seq<Json>)
    ensures |r| == |op|
    ensures forall i | 0 <= i < |op| && Size(op[i]) > 0 :: DecodeElem(r[i]) == Some(op[i])
  {
    seq(|op|, i requires 0 <= i < |op| => EncodePrim(op[i]))
  }

  predicate AllDecode(elems: seq<Json>) {
    forall i | 0 <= i < |elems| :: DecodeElem(elems[i]).Some?
  }

  /**
   * `fromJSON`: builds the operation element by element; fails at the first
   * element that is neither a non-zero number nor a string.
   */
  function FromJson(elems: seq<Json>): (r: Result<TextOp, OpError>)
    ensures r.Success? <==> AllDecode(elems)
    ensures r.Failure? ==>
      && r.error.UnknownOperation?
      && r.error.at < |elems|
      && DecodeElem(elems[r.error.at]).None?
      && AllDecode(elems[..r.error.at])
  {
    if elems == [] then Success([])
    else
      var n := |elems| - 1;
      var init := FromJson(elems[..n]);
      assert elems[..n] == elems[..n][..n];
      if init.Failure? then
        assert elems[..init.error.at] == elems[..n][..init.error.at];
        init
      else
        match DecodeElem(elems[n])
        case None => Failure(UnknownOperation(n))
        case Some(p) =>
          AddNormalized(init.value, p);
          Success(Add(init.value, p))
  }

  /** The primitives of a list that decodes throughout. */
  function DecodeAll(elems: seq<Json>): (r: Op)
    requires AllDecode(elems)
    ensures |r| == |elems|
    ensures forall i | 0 <= i < |elems| :: Some(r[i]) == DecodeElem(elems[i])
  {
    seq(|elems|, i requires 0 <= i < |elems| => DecodeElem(elems[i]).value)
  }

  /** A list that decodes is the builder's normalization of its primitives. */
  lemma {:induction false} FromJsonBuild(elems: seq<Json>)
    requires AllDecode(elems)
    ensures FromJson(elems) == Success(Build(DecodeAll(elems)))
  {
    if elems != [] {
      var n := |elems| - 1;
      assert AllDecode(elems[..n]);
      FromJsonBuild(elems[..n]);
      var raw := DecodeAll(elems);
      assert raw[..n] == DecodeAll(elems[..n]);
    }
  }

  /** The JSON round trip: decoding an encoded operation gives it back. */
  lemma JsonRoundTrip(op: TextOp)
    ensures FromJson(ToJson(op)) == Success(op)
  {
    var js := ToJson(op);
    assert AllDecode(js);
    FromJsonBuild(js);
    assert DecodeAll(js) == op;
    BuildNormalized(op);
  }

  /** `[2, -1, -1, 'cde']` decodes to three primitives, base length 4 and target length 5. */
  lemma FromJsonExample()
    ensures FromJson([JNumber(2), JNumber(-1), JNumber(-1), JString("cde")])
         == Success([Retain(2), Insert("cde"), Delete(2)])
    ensures BaseLength([Retain(2), Insert("cde"), Delete(2)]) == 4
    ensures TargetLength([Retain(2), Insert("cde"), Delete(2)]) == 5
  {
    var js := [JNumber(2), JNumber(-1), JNumber(-1), JString("cde")];
    var j1, j2, j3 := [JNumber(2)], [JNumber(2), JNumber(-1)], [JNumber(2), JNumber(-1), JNumber(-1)];
    assert js[..3] == j3 && j3[..2] == j2 && j2[..1] == j1 && j1[..0] == [];
    assert FromJson(j1) == Success(Add([], Retain(2)));
    assert Add([], Retain(2)) == [Retain(2)];
    assert FromJson(j2) == Success(Add([Retain(2)], Delete(1)));
    assert Add([Retain(2)], Delete(1)) == [Retain(2), Delete(1)];
    assert FromJson(j3) == Success(Add([Retain(2), Delete(1)], Delete(1)));
    assert Add([Retain(2), Delete(1)], Delete(1)) == [Retain(2)] + [Delete(2)];
    assert Add([Retain(2), Delete(2)], Insert("cde")) == InsertAtEnd([Retain(2)], "cde") + [Delete(2)];
    assert InsertAtEnd([Retain(2)], "cde") == [Retain(2), Insert("cde")];
    assert FromJson(js) == Success(Add([Retain(2), Delete(2)], Insert("cde")));
    assert [Retain(2), Insert("cde")] + [Delete(2)] == [Retain(2), Insert("cde"), Delete(2)];
  }

  /** An object or a null appended to a valid list is an unknown operation at its index. */
  lemma FromJsonRejects(extra: Json)
    requires extra == JObject(map["insert" := JString("x")]) || extra == JNull
    ensures FromJson([JNumber(2), JNumber(-1), JNumber(-1), JString("cde"), extra])
         == Failure(UnknownOperation(4))
  {
    var js := [JNumber(2), JNumber(-1), JNumber(-1), JString("cde"), extra];
    assert js[..4] == [JNumber(2), JNumber(-1), JNumber(-1), JString("cde")];
    FromJsonExample();
  }
}
