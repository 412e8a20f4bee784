/**
 * Selections: a list of ranges, each with an anchor and a head offset.
 * Transforming a selection through an operation moves every offset to
 * where the text around it went: inserts at or before an offset push it
 * right, deletes before it pull it left, and an offset inside deleted text
 * moves to the start of the deletion.
 */
module Selections {
  import opened Wrappers
  import opened TextOperation
  import opened JsonValues

  datatype Range = Range(anchor: int, head: int)

  datatype Selection = Selection(ranges: seq<Range>)

  function MinInt(x: int, y: int): int {
    if x <= y then x else y
  }

  /**
   * `transformIndex`, from the loop's current state: `index` is how much of
   * the original offset is still ahead, `newIndex` the offset computed so
   * far; the walk stops as soon as `index` goes negative.
   */
  function IndexFrom(ops: Op, index: int, newIndex: int): int {
    if ops == [] then newIndex
    else
      var next: (int, int) := match ops[0]
        case Retain(n) => (index - n, newIndex)
        case Insert(s) => (index, newIndex + |s|)
        case Delete(n) => (index - n, newIndex - MinInt(index, n));
      if next.0 < 0 then next.1 else IndexFrom(ops[1..], next.0, next.1)
  }

  /** Where offset `index` of the document ends up after `op`. */
  function TransformIndex(op: Op, index: int): int {
    IndexFrom(op, index, index)
  }

  /** The walk is a translation in `newIndex`. */
  lemma {:induction false} IndexShift(ops: Op, index: int, newIndex: int, c: int)
    ensures IndexFrom(ops, index, newIndex + c) == IndexFrom(ops, index, newIndex) + c
  {
    if ops != [] {
      var n := Size(ops[0]);
      match ops[0]
      case Retain(_) => IndexShift(ops[1..], index - n, newIndex, c);
      case Insert(_) => IndexShift(ops[1..], index, newIndex + n, c);
      case Delete(_) => IndexShift(ops[1..], index - n, newIndex - MinInt(index, n), c);
    }
  }

  /**
   * One step of `TransformIndex` from a non-negative offset: a retain or a
   * delete that the offset lies beyond is skipped, an insert before it is
   * added, a retain reaching past it stops, and a delete covering it moves
   * it to the start of the deletion.
   */
  lemma TransformIndexStep(op: Op, i: int)
    requires op != [] && i >= 0
    ensures match op[0]
      case Retain(n) => TransformIndex(op, i) == if i < n then i else n + TransformIndex(op[1..], i - n)
      case Insert(s) => TransformIndex(op, i) == |s| + TransformIndex(op[1..], i)
      case Delete(n) => TransformIndex(op, i) == if i < n then 0 else TransformIndex(op[1..], i - n)
  {
    var n := Size(op[0]);
    match op[0]
    case Retain(_) => IndexShift(op[1..], i - n, i - n, n);
    case Insert(_) => IndexShift(op[1..], i, i, n);
    case Delete(_) =>
  }

  /** A non-negative offset stays non-negative. */
  lemma {:induction false} TransformIndexNonNegative(op: Op, i: int)
    requires i >= 0
    ensures TransformIndex(op, i) >= 0
  {
    if op != [] {
      TransformIndexStep(op, i);
      var n := Size(op[0]);
      if !op[0].Insert? && i >= n {
        TransformIndexNonNegative(op[1..], i - n);
      } else if op[0].Insert? {
        TransformIndexNonNegative(op[1..], i);
      }
    }
  }

  /** Offsets keep their order. */
  lemma {:induction false} TransformIndexMonotone(op: Op, i: int, j: int)
    requires 0 <= i <= j
    ensures TransformIndex(op, i) <= TransformIndex(op, j)
  {
    if op != [] {
      TransformIndexStep(op, i);
      TransformIndexStep(op, j);
      var n := Size(op[0]);
      if op[0].Insert? {
        TransformIndexMonotone(op[1..], i, j);
      } else if i >= n {
        TransformIndexMonotone(op[1..], i - n, j - n);
      } else if j >= n {
        TransformIndexNonNegative(op[1..], j - n);
      }
    }
  }

  /** An offset inside the document lands inside the new document; its end lands on the new end. */
  lemma {:induction false} TransformIndexBounds(op: Op, i: int)
    requires 0 <= i <= BaseLength(op)
    ensures 0 <= TransformIndex(op, i) <= TargetLength(op)
    ensures i == BaseLength(op) ==> TransformIndex(op, i) == TargetLength(op)
  {
    TransformIndexNonNegative(op, i);
    if op != [] {
      TransformIndexStep(op, i);
      var n := Size(op[0]);
      if op[0].Insert? {
        TransformIndexBounds(op[1..], i);
      } else if i >= n {
        TransformIndexBounds(op[1..], i - n);
      }
    }
  }

  /** An operation that only retains moves no offset, wherever it is. */
  lemma {:induction false} TransformIndexRetains(op: Op, i: int)
    requires forall k | 0 <= k < |op| :: op[k].Retain?
    ensures TransformIndex(op, i) == i
  {
    if op != [] && i - op[0].n >= 0 {
      TransformIndexRetains(op[1..], i - op[0].n);
      IndexShift(op[1..], i - op[0].n, i - op[0].n, op[0].n);
    }
  }

  /** `Range.transform`; a collapsed range is transformed once. */
  function TransformRange(r: Range, op: Op): Range {
    var newAnchor := TransformIndex(op, r.anchor);
    if r.anchor == r.head then Range(newAnchor, newAnchor)
    else Range(newAnchor, TransformIndex(op, r.head))
  }

  /** `Selection.transform`: every range, in order. */
  function TransformSelection(sel: Selection, op: Op): (r: Selection)
    ensures |r.ranges| == |sel.ranges|
  {
    Selection(seq(|sel.ranges|, i requires 0 <= i < |sel.ranges| => TransformRange(sel.ranges[i], op)))
  }

  predicate IsEmpty(r: Range) {
    r.anchor == r.head
  }

  /** `somethingSelected`: some range is not collapsed. */
  predicate SomethingSelected(sel: Selection) {
    exists i | 0 <= i < |sel.ranges| :: !IsEmpty(sel.ranges[i])
  }

  /**
   * Transforming a selection keeps the ranges, in order, each
   * with both ends moved; what was only cursors stays only cursors, and
   * ranges written left to right stay left to right.
   */
  lemma TransformSelectionSpec(sel: Selection, op: Op)
    ensures forall i | 0 <= i < |sel.ranges| ::
      TransformSelection(sel, op).ranges[i]
        == Range(TransformIndex(op, sel.ranges[i].anchor), TransformIndex(op, sel.ranges[i].head))
    ensures !SomethingSelected(sel) ==> !SomethingSelected(TransformSelection(sel, op))
    ensures forall i | 0 <= i < |sel.ranges| && 0 <= sel.ranges[i].anchor <= sel.ranges[i].head ::
      TransformSelection(sel, op).ranges[i].anchor <= TransformSelection(sel, op).ranges[i].head
  {
    forall i | 0 <= i < |sel.ranges| && 0 <= sel.ranges[i].anchor <= sel.ranges[i].head
      ensures TransformSelection(sel, op).ranges[i].anchor <= TransformSelection(sel, op).ranges[i].head
    {
      TransformIndexMonotone(op, sel.ranges[i].anchor, sel.ranges[i].head);
    }
  }

  /** Every end of every range is an offset of a document of length `n`. */
  predicate WithinDocument(sel: Selection, n: int) {
    forall i | 0 <= i < |sel.ranges| :: 0 <= sel.ranges[i].anchor <= n && 0 <= sel.ranges[i].head <= n
  }

  /** A selection of the document an operation applies to becomes a selection of its result. */
  lemma TransformSelectionWithin(sel: Selection, op: Op)
    requires WithinDocument(sel, BaseLength(op))
    ensures WithinDocument(TransformSelection(sel, op), TargetLength(op))
  {
    forall i | 0 <= i < |sel.ranges|
      ensures 0 <= TransformRange(sel.ranges[i], op).anchor <= TargetLength(op)
      ensures 0 <= TransformRange(sel.ranges[i], op).head <= TargetLength(op)
    {
      TransformIndexBounds(op, sel.ranges[i].anchor);
      TransformIndexBounds(op, sel.ranges[i].head);
    }
  }

  /** A no-op leaves every selection as it is. */
  lemma TransformSelectionNoop(sel: Selection, op: Op)
    requires forall k | 0 <= k < |op| :: op[k].Retain?
    ensures TransformSelection(sel, op) == sel
  {
    forall i | 0 <= i < |sel.ranges|
      ensures TransformRange(sel.ranges[i], op) == sel.ranges[i]
    {
      TransformIndexRetains(op, sel.ranges[i].anchor);
      TransformIndexRetains(op, sel.ranges[i].head);
    }
  }

  /** `createCursor`: one collapsed range. */
  function CreateCursor(position: int): (r: Selection)
    ensures |r.ranges| == 1 && r.ranges[0].anchor == position && r.ranges[0].head == position
    ensures !SomethingSelected(r)
  {
    Selection([Range(position, position)])
  }

  /** `compose`: the later selection replaces the earlier one. */
  function ComposeSelection(sel: Selection, other: Selection): (r: Selection)
    ensures r == other
  {
    other
  }

  function RangeFromJson(j: Json): Option<Range> {
    if j.JObject? && "anchor" in j.members && "head" in j.members
       && j.members["anchor"].JNumber? && j.members["head"].JNumber? then
      Some(Range(j.members["anchor"].n, j.members["head"].n))
    else None
  }

  /** Whether a JSON value counts as true in a condition. */
  predicate Truthy(j: Json) {
    match j
    case JNumber(n) => n != 0
    case JString(s) => s != ""
    case JBool(b) => b
    case JNull => false
    case _ => true
  }

  /**
   * `Selection.fromJSON`: reads `obj.ranges`, or `obj` itself when that is
   * missing or false, and every range in order.  A list whose elements are
   * not all `{anchor, head}` objects with numbers is not modelled (`None`);
   * an object without a length reads as no ranges.
   */
  function SelectionFromJson(obj: Json): (r: Option<Selection>)
    ensures obj.JObject? && "ranges" in obj.members && obj.members["ranges"].JArray? ==>
      var items := obj.members["ranges"].items;
      (r.Some? <==> forall i | 0 <= i < |items| :: RangeFromJson(items[i]).Some?)
      && (r.Some? ==> |r.value.ranges| == |items|
                      && forall i | 0 <= i < |items| :: Some(r.value.ranges[i]) == RangeFromJson(items[i]))
  {
    var list := if obj.JObject? && "ranges" in obj.members && Truthy(obj.members["ranges"])
                then obj.members["ranges"] else obj;
    match list
    case JArray(items) =>
      if forall i | 0 <= i < |items| :: RangeFromJson(items[i]).Some? then
        Some(Selection(seq(|items|, i requires 0 <= i < |items| => RangeFromJson(items[i]).value)))
      else None
    case JObject(_) => Some(Selection([]))
    case _ => None
  }

  // ---------------------------------------------------------------------
  // The concrete cases the selection behaviour is pinned down by.
  // ---------------------------------------------------------------------

  lemma CreateCursorExample()
    ensures CreateCursor(5) == Selection([Range(5, 5)])
  {
  }

  lemma FromJsonExample()
    ensures SelectionFromJson(JObject(map["ranges" := JArray([
              JObject(map["anchor" := JNumber(3), "head" := JNumber(5)]),
              JObject(map["anchor" := JNumber(11), "head" := JNumber(23)])])]))
         == Some(Selection([Range(3, 5), Range(11, 23)]))
  {
    var items := [JObject(map["anchor" := JNumber(3), "head" := JNumber(5)]),
                  JObject(map["anchor" := JNumber(11), "head" := JNumber(23)])];
    assert RangeFromJson(items[0]) == Some(Range(3, 5));
    assert RangeFromJson(items[1]) == Some(Range(11, 23));
    var obj := JObject(map["ranges" := JArray(items)]);
    assert "ranges" in obj.members && Truthy(obj.members["ranges"]);
    assert SelectionFromJson(obj).Some?;
    assert SelectionFromJson(obj).value.ranges == [Range(3, 5), Range(11, 23)];
  }

  lemma SomethingSelectedExample()
    ensures !SomethingSelected(Selection([Range(7, 7), Range(10, 10)]))
    ensures SomethingSelected(Selection([Range(7, 10)]))
  {
    assert !IsEmpty(Selection([Range(7, 10)]).ranges[0]);
  }

  /** An insert at an offset pushes it past the text; later offsets shift by the net change. */
  lemma TransformExample()
    ensures TransformSelection(Selection([Range(3, 7), Range(19, 21)]),
                               [Retain(3), Insert("lorem"), Delete(2), Retain(42)])
         == Selection([Range(8, 10), Range(22, 24)])
  {
    var op := [Retain(3), Insert("lorem"), Delete(2), Retain(42)];
    assert op[1..] == [Insert("lorem"), Delete(2), Retain(42)];
    assert op[1..][1..] == [Delete(2), Retain(42)];
    assert op[1..][1..][1..] == [Retain(42)];
    assert TransformIndex(op, 3) == 8;
    forall i | i in {7, 19, 21}
      ensures TransformIndex(op, i) == i + 3
    {
      assert IndexFrom(op[1..][1..][1..], i - 5, i + 3) == i + 3;
      assert IndexFrom(op[1..][1..], i - 3, i + 5) == i + 3;
      assert IndexFrom(op[1..], i - 3, i) == i + 3;
    }
  }

  /** Deleting the whole document collapses every offset to 0. */
  lemma TransformDeleteAllExample()
    ensures TransformSelection(Selection([Range(3, 7), Range(19, 21)]), [Delete(45)])
         == Selection([Range(0, 0), Range(0, 0)])
  {
  }

  lemma ComposeExample()
    ensures ComposeSelection(Selection([Range(3, 7)]), CreateCursor(4)) == CreateCursor(4)
  {
  }
}
