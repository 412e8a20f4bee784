/**
 * The builder side of `TextOperation`: `retain`, `insert` and `delete`
 * append to the operation's primitives in place and keep its base and
 * target lengths up to date, so that the operation stays in normal form.
 */
module Building {
  import opened TextOperation

  class OperationBuilder {
    var ops: Op
    var baseLength: nat
    var targetLength: nat

    /** The primitives are in normal form and the lengths are theirs. */
    ghost predicate Valid()
      reads this
    {
      Normalized(ops) && baseLength == BaseLength(ops) && targetLength == TargetLength(ops)
    }

    /** `new TextOperation()`: no primitives, both lengths 0. */
    constructor ()
      ensures Valid() && ops == [] && baseLength == 0 && targetLength == 0
    {
      ops := [];
      baseLength := 0;
      targetLength := 0;
    }

    /** `retain(n)`: nothing for 0; otherwise extends a trailing retain or appends one. */
    method Retain(n: nat)
      requires Valid()
      modifies this
      ensures Valid() && ops == Add(old(ops), Prim.Retain(n))
      ensures baseLength == old(baseLength) + n && targetLength == old(targetLength) + n
    {
      if n == 0 {
        return;
      }
      AddLengths(ops, Prim.Retain(n));
      AddNormalized(ops, Prim.Retain(n));
      baseLength := baseLength + n;
      targetLength := targetLength + n;
      if ops != [] && ops[|ops| - 1].Retain? {
        ops := ops[..|ops| - 1] + [Prim.Retain(ops[|ops| - 1].n + n)];
      } else {
        ops := ops + [Prim.Retain(n)];
      }
    }

    /**
     * `insert(s)`: nothing for the empty string; otherwise extends a trailing
     * insert, or goes before a trailing delete (into the insert before it, if
     * any), or is appended.
     */
    method Insert(s: string)
      requires Valid()
      modifies this
      ensures Valid() && ops == Add(old(ops), Prim.Insert(s))
      ensures baseLength == old(baseLength) && targetLength == old(targetLength) + |s|
    {
      if s == [] {
        return;
      }
      AddLengths(ops, Prim.Insert(s));
      AddNormalized(ops, Prim.Insert(s));
      targetLength := targetLength + |s|;
      var n := |ops|;
      AddInsertCases(ops, s);
      if n > 0 && ops[n - 1].Insert? {
        ops := ops[..n - 1] + [Prim.Insert(ops[n - 1].s + s)];
      } else if n > 0 && ops[n - 1].Delete? {
        var last := ops[n - 1];
        if n >= 2 && ops[n - 2].Insert? {
          ops := ops[..n - 2] + [Prim.Insert(ops[n - 2].s + s), last];
        } else {
          ops := ops[..n - 1] + [Prim.Insert(s), last];
        }
      } else {
        ops := ops + [Prim.Insert(s)];
      }
    }

    /** `delete(n)`: removes `n` characters, whatever its sign; nothing for 0. */
    method Delete(n: int)
      requires Valid()
      modifies this
      ensures Valid() && ops == Add(old(ops), Prim.Delete(if n < 0 then -n else n))
      ensures baseLength == old(baseLength) + (if n < 0 then -n else n) && targetLength == old(targetLength)
    {
      var count: nat := if n < 0 then -n else n;
      if count == 0 {
        return;
      }
      AddLengths(ops, Prim.Delete(count));
      AddNormalized(ops, Prim.Delete(count));
      baseLength := baseLength + count;
      if ops != [] && ops[|ops| - 1].Delete? {
        ops := ops[..|ops| - 1] + [Prim.Delete(ops[|ops| - 1].n + count)];
      } else {
        ops := ops + [Prim.Delete(count)];
      }
    }

    /** `delete(str)`: removes as many characters as the string has. */
    method DeleteText(str: string)
      requires Valid()
      modifies this
      ensures Valid() && ops == Add(old(ops), Prim.Delete(|str|))
      ensures baseLength == old(baseLength) + |str| && targetLength == old(targetLength)
    {
      Delete(|str|);
    }
  }

  /** Base length counts retains and deletes, target length retains and inserts: 5/5, 5/8, 7/10, 9/10. */
  lemma LengthsExample()
    ensures var o1 := Add([], Retain(5));
      var o2 := Add(o1, Insert("abc"));
      var o3 := Add(o2, Retain(2));
      var o4 := Add(o3, Delete(2));
      && BaseLength(o1) == 5 && TargetLength(o1) == 5
      && BaseLength(o2) == 5 && TargetLength(o2) == 8
      && BaseLength(o3) == 7 && TargetLength(o3) == 10
      && BaseLength(o4) == 9 && TargetLength(o4) == 10
  {
    var o1 := Add([], Retain(5));
    var o2 := Add(o1, Insert("abc"));
    var o3 := Add(o2, Retain(2));
    AddLengths([], Retain(5));
    AddLengths(o1, Insert("abc"));
    AddLengths(o2, Retain(2));
    AddLengths(o3, Delete(2));
  }

  /** The cases of appending an insert, as `insert` tells them apart. */
  lemma AddInsertCases(ops: Op, s: string)
    requires s != []
    ensures ops != [] && ops[|ops| - 1].Insert? ==>
      Add(ops, Insert(s)) == ops[..|ops| - 1] + [Insert(ops[|ops| - 1].s + s)]
    ensures |ops| >= 2 && ops[|ops| - 1].Delete? && ops[|ops| - 2].Insert? ==>
      Add(ops, Insert(s)) == ops[..|ops| - 2] + [Insert(ops[|ops| - 2].s + s), ops[|ops| - 1]]
    ensures ops != [] && ops[|ops| - 1].Delete? && !(|ops| >= 2 && ops[|ops| - 2].Insert?) ==>
      Add(ops, Insert(s)) == ops[..|ops| - 1] + [Insert(s), ops[|ops| - 1]]
    ensures ops == [] || ops[|ops| - 1].Retain? ==> Add(ops, Insert(s)) == ops + [Insert(s)]
  {
    var n := |ops|;
    if n >= 2 && ops[n - 1].Delete? {
      var w := ops[..n - 1];
      assert w[..|w| - 1] == ops[..n - 2] && w[|w| - 1] == ops[n - 2];
    }
  }

  /** Zero-length calls add nothing, and same-kind calls merge: eight calls, three primitives. */
  lemma ChainingExample()
    ensures Add(Add(Add(Add(Add(Add(Add(Add([], Retain(5)), Retain(0)), Insert("lorem")), Insert("")),
              Delete(3)), Delete(3)), Delete(0)), Delete(0))
         == [Retain(5), Insert("lorem"), Delete(6)]
  {
    assert Add(Add([], Retain(5)), Retain(0)) == [Retain(5)];
    assert Add([Retain(5)], Insert("lorem")) == [Retain(5), Insert("lorem")];
    assert Add([Retain(5), Insert("lorem")], Insert("")) == [Retain(5), Insert("lorem")];
    assert Add([Retain(5), Insert("lorem")], Delete(3)) == [Retain(5), Insert("lorem"), Delete(3)];
    var w := [Retain(5), Insert("lorem"), Delete(3)];
    assert w[..2] + [Merge(Delete(3), Delete(3))] == [Retain(5), Insert("lorem"), Delete(6)];
  }

  /** Merging in the builder: 2, 5, then "abc", "abcxyz", then deletes of 1 and 2. */
  lemma MergingExample()
    ensures Add([], Retain(2)) == [Retain(2)]
    ensures Add([Retain(2)], Retain(3)) == [Retain(5)]
    ensures Add([Retain(5)], Insert("abc")) == [Retain(5), Insert("abc")]
    ensures Add([Retain(5), Insert("abc")], Insert("xyz")) == [Retain(5), Insert("abcxyz")]
    ensures Add([Retain(5), Insert("abcxyz")], Delete(1)) == [Retain(5), Insert("abcxyz"), Delete(1)]
    ensures Add([Retain(5), Insert("abcxyz"), Delete(1)], Delete(1)) == [Retain(5), Insert("abcxyz"), Delete(2)]
  {
    assert "abc" + "xyz" == "abcxyz";
    assert [Retain(5), Insert("abc")][..1] == [Retain(5)];
    var w := [Retain(5), Insert("abcxyz"), Delete(1)];
    assert w[..2] == [Retain(5), Insert("abcxyz")];
    assert w[..2] + [Merge(Delete(1), Delete(1))] == [Retain(5), Insert("abcxyz"), Delete(2)];
    assert [Retain(5), Insert("abc")][..1] + [Merge(Insert("abc"), Insert("xyz"))] == [Retain(5), Insert("abcxyz")];
  }

  /** `delete(1).insert('lo').retain(2).retain(3)`. */
  lemma EqualsLeft()
    ensures Add(Add(Add(Add([], Delete(1)), Insert("lo")), Retain(2)), Retain(3))
         == [Insert("lo"), Delete(1), Retain(5)]
  {
    assert Add([], Delete(1)) == [Delete(1)];
    assert Add([Delete(1)], Insert("lo")) == InsertAtEnd([], "lo") + [Delete(1)];
    assert Add([Insert("lo"), Delete(1)], Retain(2)) == [Insert("lo"), Delete(1), Retain(2)];
    var w := [Insert("lo"), Delete(1), Retain(2)];
    assert Add(w, Retain(3)) == w[..2] + [Merge(Retain(2), Retain(3))];
    assert w[..2] + [Merge(Retain(2), Retain(3))] == [Insert("lo"), Delete(1), Retain(5)];
  }

  /** `delete(1).insert('l').insert('o').retain(5)`. */
  lemma EqualsRight()
    ensures Add(Add(Add(Add([], Delete(1)), Insert("l")), Insert("o")), Retain(5))
         == [Insert("lo"), Delete(1), Retain(5)]
  {
    assert Add([], Delete(1)) == [Delete(1)];
    assert Add([Delete(1)], Insert("l")) == InsertAtEnd([], "l") + [Delete(1)];
    assert Add([Insert("l"), Delete(1)], Insert("o")) == InsertAtEnd([Insert("l")], "o") + [Delete(1)];
    assert "l" + "o" == "lo";
    assert InsertAtEnd([Insert("l")], "o") == [Insert("lo")];
    assert Add([Insert("lo"), Delete(1)], Retain(5)) == [Insert("lo"), Delete(1), Retain(5)];
  }

  /** Equal operations built differently: `delete(-1)` is `delete(1)`, and split inserts and retains merge. */
  lemma EqualsExample()
    ensures Add(Add(Add(Add([], Delete(1)), Insert("lo")), Retain(2)), Retain(3))
         == Add(Add(Add(Add([], Delete(1)), Insert("l")), Insert("o")), Retain(5))
         == [Insert("lo"), Delete(1), Retain(5)]
  {
    EqualsLeft();
    EqualsRight();
  }

  /** After one more delete on one side and one more retain on the other, the two differ. */
  lemma EqualsDiffers()
    ensures Add([Insert("lo"), Delete(1), Retain(5)], Delete(1)) != Add([Insert("lo"), Delete(1), Retain(5)], Retain(1))
  {
    var w := [Insert("lo"), Delete(1), Retain(5)];
    assert Add(w, Retain(1)) == w[..2] + [Merge(Retain(5), Retain(1))];
    assert Add(w, Delete(1)) == w + [Delete(1)];
  }

}
