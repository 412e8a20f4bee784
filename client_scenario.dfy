/**
 * The first exchange of the client test: the client awaits confirmation of
 * `retain(11).insert(" ")` when the server's `retain(5).insert(" ").retain(6)`
 * arrives.  The outstanding operation moves past the server's insert, and
 * the server's operation, transformed, is applied to the editor.
 */
module ClientScenario {
  import opened Wrappers
  import opened TextOperation
  import opened Transformation
  import opened ClientModel

  function Outstanding(): TextOp {
    [Retain(11), Insert(" ")]
  }

  function ServerEdit(): TextOp {
    [Retain(5), Insert(" "), Retain(6)]
  }

  /** What the outstanding operation becomes. */
  function MovedOutstanding(): TextOp {
    [Retain(12), Insert(" ")]
  }

  /** The server edit as the editor applies it. */
  function TransformedEdit(): TextOp {
    [Retain(5), Insert(" "), Retain(7)]
  }

  // The transform walk of the two operations, one step at a time.

  lemma WalkInsertLeft()
    ensures TransformRaw([Insert(" ")], []) == ([Insert(" ")], [Retain(1)])
  {
    assert [Insert(" ")][1..] == [];
    assert TransformRaw([], []) == ([], []);
    assert [Insert(" ")] + [] == [Insert(" ")] && [Retain(1)] + [] == [Retain(1)];
  }

  lemma WalkRetains()
    ensures TransformRaw([Retain(6), Insert(" ")], [Retain(6)])
         == ([Retain(6), Insert(" ")], [Retain(6), Retain(1)])
  {
    assert Min(6, 6) == 6;
    assert Rest(Retain(6), 6) + [Retain(6), Insert(" ")][1..] == [Insert(" ")];
    assert Rest(Retain(6), 6) + [Retain(6)][1..] == [];
    WalkInsertLeft();
    assert [Retain(6)] + [Insert(" ")] == [Retain(6), Insert(" ")];
    assert [Retain(6)] + [Retain(1)] == [Retain(6), Retain(1)];
  }

  lemma WalkInsertRight()
    ensures TransformRaw([Retain(6), Insert(" ")], [Insert(" "), Retain(6)])
         == ([Retain(1), Retain(6), Insert(" ")], [Insert(" "), Retain(6), Retain(1)])
  {
    assert [Insert(" "), Retain(6)][1..] == [Retain(6)];
    WalkRetains();
    assert [Retain(1)] + [Retain(6), Insert(" ")] == [Retain(1), Retain(6), Insert(" ")];
    assert [Insert(" ")] + [Retain(6), Retain(1)] == [Insert(" "), Retain(6), Retain(1)];
  }

  lemma WalkStart()
    ensures TransformRaw(Outstanding(), ServerEdit())
         == ([Retain(5), Retain(1), Retain(6), Insert(" ")], [Retain(5), Insert(" "), Retain(6), Retain(1)])
  {
    assert Min(11, 5) == 5;
    assert Rest(Retain(11), 5) + Outstanding()[1..] == [Retain(6), Insert(" ")];
    assert Rest(Retain(5), 5) + ServerEdit()[1..] == [Insert(" "), Retain(6)];
    WalkInsertRight();
    assert [Retain(5)] + [Retain(1), Retain(6), Insert(" ")] == [Retain(5), Retain(1), Retain(6), Insert(" ")];
    assert [Retain(5)] + [Insert(" "), Retain(6), Retain(1)] == [Retain(5), Insert(" "), Retain(6), Retain(1)];
  }

  lemma BuildOutstanding()
    ensures Build([Retain(5), Retain(1), Retain(6), Insert(" ")]) == [Retain(12), Insert(" ")]
  {
    var raw := [Retain(5), Retain(1), Retain(6), Insert(" ")];
    assert raw[..3] == [Retain(5), Retain(1), Retain(6)];
    assert raw[..3][..2] == [Retain(5), Retain(1)];
    assert raw[..3][..2][..1] == [Retain(5)];
    assert Build([Retain(5)]) == [Retain(5)];
    assert Build([Retain(5), Retain(1)]) == [Retain(6)];
    assert Build(raw[..3]) == [Retain(12)];
  }

  lemma BuildApplied()
    ensures Build([Retain(5), Insert(" "), Retain(6), Retain(1)]) == [Retain(5), Insert(" "), Retain(7)]
  {
    var raw := [Retain(5), Insert(" "), Retain(6), Retain(1)];
    assert raw[..3] == [Retain(5), Insert(" "), Retain(6)];
    assert raw[..3][..2] == [Retain(5), Insert(" ")];
    assert raw[..3][..2][..1] == [Retain(5)];
    assert Build([Retain(5)]) == [Retain(5)];
    assert Build([Retain(5), Insert(" ")]) == [Retain(5), Insert(" ")];
    assert Build(raw[..3]) == [Retain(5), Insert(" "), Retain(6)];
    var w := [Retain(5), Insert(" "), Retain(6)];
    assert Add(w, Retain(1)) == w[..2] + [Merge(Retain(6), Retain(1))];
  }

  /** The outstanding operation becomes `retain(12).insert(" ")`; the editor gets `retain(5).insert(" ").retain(7)`. */
  lemma TransformScenario()
    ensures Transform(Outstanding(), ServerEdit()) == Success((MovedOutstanding(), TransformedEdit()))
  {
    assert BaseLength(Outstanding()) == 11 && BaseLength(ServerEdit()) == 11;
    WalkStart();
    BuildOutstanding();
    BuildApplied();
  }

  /** The editor's "lorem Dolor " becomes "lorem  Dolor ". */
  lemma AppliedScenario()
    ensures ApplyTo([Retain(5), Insert(" "), Retain(7)], "lorem Dolor ", Id) == "lorem  Dolor "
  {
    ApplySingle(Retain(7), " Dolor ", Id);
    LiftId(" ");
    ConsApply(Insert(" "), [Retain(7)], " Dolor ", Id);
    assert [Insert(" ")] + [Retain(7)] == [Insert(" "), Retain(7)];
    ConsApply(Retain(5), [Insert(" "), Retain(7)], "lorem Dolor ", Id);
    assert [Retain(5)] + [Insert(" "), Retain(7)] == [Retain(5), Insert(" "), Retain(7)];
    assert "lorem Dolor "[..5] == "lorem" && "lorem Dolor "[5..] == " Dolor ";
  }

  /**
   * `applyServer(3, retain(5).insert(" ").retain(6))` at revision 2 while
   * awaiting `retain(11).insert(" ")`: the client stays awaiting
   * confirmation, now of `retain(12).insert(" ")`, moves to revision 3 and
   * applies the transformed server edit, which turns the editor's
   * "lorem Dolor " into "lorem  Dolor ".
   */
  lemma AwaitingConfirmScenario()
    ensures ApplyServerStep(AwaitingConfirm(Outstanding()), 2, 3, ServerEdit())
         == Outcome(AwaitingConfirm(MovedOutstanding()), 3, [ApplyOperation(TransformedEdit())], None)
    ensures Apply(TransformedEdit(), "lorem Dolor ") == Success("lorem  Dolor ")
  {
    TransformScenario();
    AppliedScenario();
  }
}
