/** Worked examples of a comparison filter over integer-encoded values, where
    no value is null and `compare` is the integer difference. */
module Scenarios {
  import opened Wrappers
  import opened Operators
  import opened CompareFilter
  import opened Evaluation

  function NeverNull(x: int): bool { false }

  function Difference(a: int, b: int): int { a - b }

  /** A filter built as: operator, then a column child, then a constant. */
  function ColumnThenConstant(op: Operator, values: set<Option<int>>, pick: Option<int>): (r: Filter<int>)
    requires IsComparison(op) && pick in values
    ensures Valid(r) && IsEvaluable(r) && r.operator == op
    ensures r.conditionValues == values && r.firstCondValue == pick
    ensures r.children == [Column(ColumnRef("c")), Constant(values)]
  {
    NewIsValid<int>(op);
    var f := New<int>(op).value;
    var g := AddChild(f, Column(ColumnRef("c")), pick).value;
    assert Valid(g) && g.column == Some(ColumnRef("c")) && g.operator == op;
    var h := AddChild(g, Constant(values), pick).value;
    assert Valid(h) && h.column.Some? && pick in h.conditionValues;
    h
  }

  /** `c = 5` holds for 5 and not for 6. */
  lemma EqualityScenario()
    ensures Decide(ColumnThenConstant(EQ, {Some(5)}, Some(5)), Some(5), NeverNull, Difference)
    ensures !Decide(ColumnThenConstant(EQ, {Some(5)}, Some(5)), Some(6), NeverNull, Difference)
  {
    assert Difference(5, 5) == 0 && Difference(6, 5) == 1;
  }

  /** `c < 5` holds for 4 and not for 5. */
  lemma OrderScenario()
    ensures Decide(ColumnThenConstant(LT, {Some(5)}, Some(5)), Some(4), NeverNull, Difference)
    ensures !Decide(ColumnThenConstant(LT, {Some(5)}, Some(5)), Some(5), NeverNull, Difference)
  {
    var f := ColumnThenConstant(LT, {Some(5)}, Some(5));
    assert f.operator == LT && f.firstCondValue == Some(5);
    assert !NeverNull(4) && !NeverNull(5) && Difference(4, 5) == -1 && Difference(5, 5) == 0;
  }

  /** `c IN (1, 2, 3)` holds for 2 and not for 4, whichever value the set
      yielded first. */
  lemma MembershipScenario(f: Filter<int>)
    requires f.operator == IN && f.conditionValues == {Some(1), Some(2), Some(3)}
    requires f.firstCondValue in f.conditionValues
    ensures Decide(f, Some(2), NeverNull, Difference)
    ensures !Decide(f, Some(4), NeverNull, Difference)
  {
    assert f.firstCondValue.Some? && !NeverNull(f.firstCondValue.value);
  }

  /** A constant attached before the column under GT turns the operator
      into LT: "5 > c" becomes "c < 5". */
  lemma ValueFirstSwapScenario()
    ensures var f := New<int>(GT).value;
            var g := AddChild(f, Constant({Some(5)}), Some(5)).value;
            AddChild(g, Column(ColumnRef("c")), None).value.operator == LT
  {
  }

  /** With only a column attached: ISNULL holds for a null tuple value, and
      ISNOTNULL rejects a non-null one because no condition value exists. */
  lemma NullCheckScenarios()
    ensures var f := AddChild(New<int>(ISNULL).value, Column(ColumnRef("c")), None).value;
            Decide(f, None, NeverNull, Difference)
    ensures var f := AddChild(New<int>(ISNOTNULL).value, Column(ColumnRef("c")), None).value;
            !Decide(f, Some(7), NeverNull, Difference)
  {
  }
}
