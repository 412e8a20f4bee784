/**
 * The metadata a wrapped operation carries.  WrappedOperation treats it by
 * capability: any truthy object may have `invert`, `compose` or `transform`
 * methods, and a plain object is composed by copying its own properties.
 * The values modelled are JavaScript's primitive values, arrays and plain
 * objects, and the objects of the repository that have such methods:
 * `Range` and `Selection`, and the editor client's `SelfMeta` (the
 * selections before and after a local edit) and `OtherMeta` (another
 * client's id and selection).
 */
module Metadata {
  import opened Wrappers
  import opened TextOperation
  import opened Selections

  datatype Meta =
    | MNull                                   // null or undefined
    | MBool(b: bool)
    | MNumber(n: int)
    | MString(s: string)
    | MArray(items: seq<Meta>)
    | MRecord(fields: map<string, Meta>)      // a plain object without methods
    | MRange(range: Range)
    | MSelection(sel: Selection)
    | MSelf(before: Option<Selection>, after: Option<Selection>)
    | MOther(clientId: Meta, selection: Option<Selection>)

  /** `meta && typeof meta === 'object'`. */
  predicate IsObject(m: Meta) {
    m.MArray? || m.MRecord? || m.MRange? || m.MSelection? || m.MSelf? || m.MOther?
  }

  // ---------------------------------------------------------------------
  // Own enumerable properties, as `for (key in source)` with
  // `hasOwnProperty` sees them.
  // ---------------------------------------------------------------------

  function Digit(d: nat): char
    requires d < 10
  {
    "0123456789"[d]
  }

  /** The decimal name of an array or string index. */
  function IndexKey(n: nat): (r: string)
    ensures |r| >= 1
    ensures n >= 10 ==> |r| >= 2
  {
    if n < 10 then [Digit(n)] else IndexKey(n / 10) + [Digit(n % 10)]
  }

  /** Distinct indices have distinct names. */
  lemma {:induction false} IndexKeyInjective(n: nat, m: nat)
    requires IndexKey(n) == IndexKey(m)
    ensures n == m
  {
    var k := IndexKey(n);
    assert Digit(n % 10) == k[|k| - 1] == Digit(m % 10);
    if n >= 10 && m >= 10 {
      assert IndexKey(n / 10) == k[..|k| - 1] == IndexKey(m / 10);
      IndexKeyInjective(n / 10, m / 10);
    }
  }

  /** The properties of an indexed value: `"0"`, `"1"`, … */
  function Indexed(items: seq<Meta>): (r: map<string, Meta>)
    ensures forall i | 0 <= i < |items| :: IndexKey(i) in r && r[IndexKey(i)] == items[i]
    ensures forall k | k in r :: exists i | 0 <= i < |items| :: k == IndexKey(i)
  {
    forall i, j | 0 <= i < |items| && 0 <= j < |items| && IndexKey(i) == IndexKey(j)
      ensures i == j
    {
      IndexKeyInjective(i, j);
    }
    map i | 0 <= i < |items| :: IndexKey(i) := items[i]
  }

  function SelectionValue(s: Option<Selection>): Meta {
    if s.Some? then MSelection(s.value) else MNull
  }

  function RangeValue(r: Range): Meta {
    MRange(r)
  }

  /** The own enumerable properties of a value; primitives other than strings have none. */
  function OwnProps(m: Meta): map<string, Meta> {
    match m
    case MString(s) => Indexed(seq(|s|, i requires 0 <= i < |s| => MString([s[i]])))
    case MArray(items) => Indexed(items)
    case MRecord(fields) => fields
    case MRange(r) => map["anchor" := MNumber(r.anchor), "head" := MNumber(r.head)]
    case MSelection(sel) =>
      map["ranges" := MArray(seq(|sel.ranges|, i requires 0 <= i < |sel.ranges| => RangeValue(sel.ranges[i])))]
    case MSelf(before, after) => map["selectionBefore" := SelectionValue(before), "selectionAfter" := SelectionValue(after)]
    case MOther(id, sel) => map["clientId" := id, "selection" := SelectionValue(sel)]
    case _ => map[]
  }

  // ---------------------------------------------------------------------
  // The methods metadata objects have.
  // ---------------------------------------------------------------------

  /** `SelfMeta.invert`: undoing an edit swaps the selections before and after it. */
  function InvertMethod(m: Meta): (r: Option<Meta>)
    ensures r.Some? <==> m.MSelf?
    ensures r.Some? ==> r.value == MSelf(m.after, m.before)
  {
    match m
    case MSelf(before, after) => Some(MSelf(after, before))
    case _ => None
  }

  /**
   * `other.selectionAfter`, when it holds a selection. JavaScript throws a
   * TypeError when `other` is `null` or `undefined`; the model reads that case
   * as a missing selection. `EditorClientModel` puts only `SelfMeta` entries on
   * the undo stack, so the case never arises there.
   */
  function SelectionAfterOf(other: Meta): Option<Selection> {
    match other
    case MSelf(_, after) => after
    case MRecord(fields) =>
      if "selectionAfter" in fields && fields["selectionAfter"].MSelection? then
        Some(fields["selectionAfter"].sel)
      else None
    case _ => None
  }

  /**
   * The `compose` methods: `SelfMeta` keeps its own selection before and
   * takes the other's selection after; `Selection` is replaced by the other.
   */
  function ComposeMethod(m: Meta, other: Meta): (r: Option<Meta>)
    ensures r.Some? <==> m.MSelf? || m.MSelection?
    ensures m.MSelf? && other.MSelf? ==> r == Some(MSelf(m.before, other.after))
    ensures m.MSelection? ==> r == Some(other)
  {
    match m
    case MSelf(before, _) => Some(MSelf(before, SelectionAfterOf(other)))
    case MSelection(_) => Some(other)
    case _ => None
  }

  function TransformOptional(s: Option<Selection>, op: Op): (r: Option<Selection>)
    ensures r.Some? <==> s.Some?
  {
    if s.Some? then Some(TransformSelection(s.value, op)) else None
  }

  /**
   * The `transform` methods: selections (in `SelfMeta`, `OtherMeta` or on
   * their own) and ranges are moved through the operation; a missing
   * selection stays missing and the client id is kept.
   */
  function TransformMethod(m: Meta, op: Op): (r: Option<Meta>)
    ensures r.Some? <==> m.MSelf? || m.MOther? || m.MSelection? || m.MRange?
    ensures m.MOther? ==> r.Some? && r.value.MOther? && r.value.clientId == m.clientId
                          && r.value.selection == TransformOptional(m.selection, op)
    ensures m.MSelf? ==> r == Some(MSelf(TransformOptional(m.before, op), TransformOptional(m.after, op)))
  {
    match m
    case MSelf(before, after) => Some(MSelf(TransformOptional(before, op), TransformOptional(after, op)))
    case MOther(id, sel) => Some(MOther(id, TransformOptional(sel, op)))
    case MSelection(sel) => Some(MSelection(TransformSelection(sel, op)))
    case MRange(r) => Some(MRange(TransformRange(r, op)))
    case _ => None
  }

  /**
   * The laws of a local edit's metadata: inverting twice is the identity;
   * composing is associative; the inverse of a composition is the
   * composition of the inverses the other way round; and transforming
   * commutes with composing.
   */
  lemma SelfMetaLaws(x: Meta, y: Meta, z: Meta, op: Op)
    requires x.MSelf? && y.MSelf? && z.MSelf?
    ensures InvertMethod(InvertMethod(x).value) == Some(x)
    ensures ComposeMethod(ComposeMethod(x, y).value, z) == ComposeMethod(x, ComposeMethod(y, z).value)
    ensures InvertMethod(ComposeMethod(x, y).value) == ComposeMethod(InvertMethod(y).value, InvertMethod(x).value)
    ensures TransformMethod(ComposeMethod(x, y).value, op)
         == ComposeMethod(TransformMethod(x, op).value, TransformMethod(y, op).value)
  {
  }
}
