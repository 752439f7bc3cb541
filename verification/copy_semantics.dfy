/** The copy constructor leaves the first condition value behind, so a copy
    or a reversal of a filter with condition values rejects every non-null
    tuple value until another value is attached or bound. This module shows
    the consequence on the as-written `Copy`/`Reverse` and gives the copy
    that carries the first value over, with the negation property a reversal
    is meant to have. */
module CopySemantics {
  import opened Wrappers
  import opened Operators
  import opened CompareFilter
  import opened Evaluation
  import opened Scenarios

  /** As written: whatever the receiver held, its copy and its reversal
      reject every non-null tuple value. */
  lemma CopyRejectsNonNull<V>(f: Filter<V>, tupleValue: Option<V>, isNull: V -> bool, compare: (V, V) -> int)
    requires !IsNullRef(isNull, tupleValue)
    ensures !Decide(Copy(f), tupleValue, isNull, compare)
    ensures Reverse(f).Success? ==> !Decide(Reverse(f).value, tupleValue, isNull, compare)
  {
  }

  /** The input that shows it: for the tuple value 6, `c = 5` is false, and
      its reversal `c <> 5` is false as well, where true is meant. */
  lemma ReverseOfEqualsFiveRejectsSix()
    ensures var f := ColumnThenConstant(EQ, {Some(5)}, Some(5));
            && !Decide(f, Some(6), NeverNull, Difference)
            && Reverse(f).Success?
            && Reverse(f).value.operator == NEQ
            && !Decide(Reverse(f).value, Some(6), NeverNull, Difference)
  {
    var f := ColumnThenConstant(EQ, {Some(5)}, Some(5));
    assert f.operator == EQ && f.firstCondValue == Some(5);
    assert !NeverNull(5) && !NeverNull(6) && Difference(6, 5) == 1;
    assert !Decide(f, Some(6), NeverNull, Difference);
    assert ReverseOpMap[EQ] == NEQ;
    CopyRejectsNonNull(f, Some(6), NeverNull, Difference);
  }

  /** Corrected copy: every field, the first condition value included. */
  function CopyKeepingFirst<V(==)>(f: Filter<V>): (r: Filter<V>)
    ensures r.operator == f.operator && r.children == f.children && r.column == f.column
    ensures r.conditionValues == f.conditionValues && r.dynamicVariables == f.dynamicVariables
    ensures r.firstCondValue == f.firstCondValue
    ensures Valid(f) ==> Valid(r)
  {
    Copy(f).(firstCondValue := f.firstCondValue)
  }

  /** Corrected reversal: the complement operator on the corrected copy. */
  function ReverseKeepingFirst<V(==)>(f: Filter<V>): (r: Result<Filter<V>, FilterError>)
    ensures r.Success? <==> IsComparison(f.operator)
    ensures r.Success? ==> f.operator in ReverseOpMap && r.value.operator == ReverseOpMap[f.operator]
    ensures r.Success? ==> r.value.firstCondValue == f.firstCondValue
    ensures Valid(f) ==> r.Success? && Valid(r.value)
  {
    ReverseTableIsInvolution(f.operator);
    if f.operator in ReverseOpMap then Success(CopyKeepingFirst(f).(operator := ReverseOpMap[f.operator]))
    else Failure(MissingComplement(f.operator))
  }

  /** The corrected copy evaluates exactly like the original. */
  lemma CopyKeepingFirstEvaluatesAlike<V>(f: Filter<V>, tupleValue: Option<V>, isNull: V -> bool, compare: (V, V) -> int)
    ensures Decide(CopyKeepingFirst(f), tupleValue, isNull, compare) == Decide(f, tupleValue, isNull, compare)
  {
  }

  /** The corrected reversal negates the original wherever the decision
      table has complementary rows: for a null tuple value under the null
      checks, and for non-null values under the ordered and membership
      operators. */
  lemma ReverseKeepingFirstNegates<V>(f: Filter<V>, tupleValue: Option<V>, isNull: V -> bool, compare: (V, V) -> int)
    requires IsComparison(f.operator)
    ensures var r := ReverseKeepingFirst(f).value;
            IsNullRef(isNull, tupleValue) && (f.operator == ISNULL || f.operator == ISNOTNULL) ==>
              Decide(r, tupleValue, isNull, compare) == !Decide(f, tupleValue, isNull, compare)
    ensures var r := ReverseKeepingFirst(f).value;
            !IsNullRef(isNull, tupleValue) && !IsNullRef(isNull, f.firstCondValue) &&
            f.operator != ISNULL && f.operator != ISNOTNULL ==>
              Decide(r, tupleValue, isNull, compare) == !Decide(f, tupleValue, isNull, compare)
  {
    if !IsNullRef(isNull, tupleValue) && !IsNullRef(isNull, f.firstCondValue) &&
       f.operator != ISNULL && f.operator != ISNOTNULL {
      ComplementaryOperatorsDisagree(f, tupleValue, isNull, compare);
    }
  }
}
