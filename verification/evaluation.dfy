/** Evaluation of a comparison filter against one tuple: extraction of the
    tuple-side value, three-valued null handling, then the operator applied
    through the value codec. The codec is abstract: `isNull` and `compare`
    are parameters, and nothing is assumed about the ordering `compare`
    induces. */
module Evaluation {
  import opened Wrappers
  import opened Operators
  import opened CompareFilter

  /** The codec's null test on a reference: a Java `null` is null for every
      codec; a value is null when the codec says so. */
  predicate IsNullRef<V>(isNull: V -> bool, o: Option<V>)
  {
    o.None? || isNull(o.value)
  }

  /** The tuple-side value: the value of the LAST child whose role is neither
      constant nor variable, or null when there is none. `childValues[i]` is
      what child `i` yields for the tuple under evaluation. */
  function TupleValue<V(==)>(children: seq<Child<V>>, childValues: seq<Option<V>>): (r: Option<V>)
    requires |childValues| == |children|
    ensures (forall i :: 0 <= i < |children| ==> IsConstantRole(children[i])) ==> r.None?
    ensures forall k :: 0 <= k < |children| && !IsConstantRole(children[k]) &&
                        (forall j :: k < j < |children| ==> IsConstantRole(children[j]))
                     ==> r == childValues[k]
  {
    if children == [] then None
    else
      var n := |children| - 1;
      if !IsConstantRole(children[n]) then childValues[n]
      else TupleValue(children[..n], childValues[..n])
  }

  /** The decision table of `evaluate` for an already extracted tuple value. */
  function Decide<V(==)>(f: Filter<V>, tupleValue: Option<V>, isNull: V -> bool, compare: (V, V) -> int): (r: bool)
    ensures IsNullRef(isNull, tupleValue) ==> (r <==> f.operator == ISNULL)
    ensures !IsNullRef(isNull, tupleValue) && IsNullRef(isNull, f.firstCondValue) ==> !r
    ensures f.operator == ISNOTNULL ==> !r
    ensures f.operator == ISNULL ==> (r <==> IsNullRef(isNull, tupleValue))
    ensures f.operator.NonComparison? ==> !r
    ensures !IsNullRef(isNull, tupleValue) && !IsNullRef(isNull, f.firstCondValue) ==>
              var comp := compare(tupleValue.value, f.firstCondValue.value);
              && (f.operator == EQ ==> (r <==> comp == 0))
              && (f.operator == NEQ ==> (r <==> comp != 0))
              && (f.operator == LT ==> (r <==> comp < 0))
              && (f.operator == LTE ==> (r <==> comp <= 0))
              && (f.operator == GT ==> (r <==> comp > 0))
              && (f.operator == GTE ==> (r <==> comp >= 0))
    ensures !IsNullRef(isNull, tupleValue) && !IsNullRef(isNull, f.firstCondValue) && f.operator == IN ==>
              (r <==> tupleValue in f.conditionValues)
    ensures !IsNullRef(isNull, tupleValue) && !IsNullRef(isNull, f.firstCondValue) && f.operator == NOTIN ==>
              (r <==> tupleValue !in f.conditionValues)
  {
    if IsNullRef(isNull, tupleValue) then
      f.operator == ISNULL
    else if IsNullRef(isNull, f.firstCondValue) then
      false
    else
      var comp := compare(tupleValue.value, f.firstCondValue.value);
      match f.operator
      case EQ => comp == 0
      case NEQ => comp != 0
      case LT => comp < 0
      case LTE => comp <= 0
      case GT => comp > 0
      case GTE => comp >= 0
      case IN => tupleValue in f.conditionValues
      case NOTIN => tupleValue !in f.conditionValues
      case _ => false
  }

  /** `evaluate`: scan the children in order for the tuple-side value, then
      decide. */
  method Evaluate<V(==)>(f: Filter<V>, childValues: seq<Option<V>>, isNull: V -> bool, compare: (V, V) -> int)
    returns (b: bool)
    requires |childValues| == |f.children|
    ensures b == Decide(f, TupleValue(f.children, childValues), isNull, compare)
  {
    var tupleValue: Option<V> := None;
    var i := 0;
    while i < |f.children|
      invariant 0 <= i <= |f.children|
      invariant tupleValue == TupleValue(f.children[..i], childValues[..i])
    {
      if !IsConstantRole(f.children[i]) {
        tupleValue := childValues[i];
      }
      assert f.children[..i + 1][..i] == f.children[..i];
      assert childValues[..i + 1][..i] == childValues[..i];
      i := i + 1;
    }
    assert f.children[..i] == f.children;
    assert childValues[..i] == childValues;
    b := Decide(f, tupleValue, isNull, compare);
  }

  /** Once both sides are non-null, the four complementary operator pairs of
      the complement table give opposite answers: EQ/NEQ, LT/GTE, LTE/GT by
      the sign of `compare`, IN/NOTIN by membership in the condition set. The
      null-check pair does not: both fall through to false. */
  lemma ComplementaryOperatorsDisagree<V>(f: Filter<V>, tupleValue: Option<V>, isNull: V -> bool, compare: (V, V) -> int)
    requires !IsNullRef(isNull, tupleValue) && !IsNullRef(isNull, f.firstCondValue)
    requires f.operator in ReverseOpMap && f.operator != ISNULL && f.operator != ISNOTNULL
    ensures Decide(f.(operator := ReverseOpMap[f.operator]), tupleValue, isNull, compare)
            == !Decide(f, tupleValue, isNull, compare)
  {
  }

  /** With a non-null tuple value, ISNULL and ISNOTNULL both reject, so the
      complement table does not negate the null checks. */
  lemma NullChecksRejectNonNull<V>(f: Filter<V>, tupleValue: Option<V>, isNull: V -> bool, compare: (V, V) -> int)
    requires !IsNullRef(isNull, tupleValue)
    requires f.operator == ISNULL || f.operator == ISNOTNULL
    ensures !Decide(f, tupleValue, isNull, compare)
    ensures !Decide(f.(operator := ReverseOpMap[f.operator]), tupleValue, isNull, compare)
  {
  }
}
