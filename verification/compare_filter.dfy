/** The state of one comparison filter node (`column OP value(s)`) and the
    transitions that build it: construction, child attachment, variable
    binding, copy and reverse. */
module CompareFilter {
  import opened Wrappers
  import opened Operators

  /** A column reference, identified by its name. */
  datatype ColumnRef = ColumnRef(name: string)

  /** The role of a child attached to a comparison filter. */
  datatype Child<V(==)> =
    | Column(col: ColumnRef)
      /** A constant holder and the (encoded) values it exposes. */
    | Constant(values: set<Option<V>>)
      /** A late-bound variable placeholder. */
    | Dynamic(variable: string)
      /** Any other filter node, such as a nested function filter. */
    | Other

  /** Whether a child contributes condition values rather than the tuple-side value. */
  predicate IsConstantRole<V(==)>(c: Child<V>)
    ensures IsConstantRole(c) <==> !c.Column? && !c.Other?
    ensures IsConstantRole(c) ==> ColumnsOf([c]) == []
  {
    c.Constant? || c.Dynamic?
  }

  datatype FilterError =
    | UnsupportedOperator(op: Operator)
    | DuplicateColumns(existing: string, added: string)
      /** The complement table has no entry for the operator. */
    | MissingComplement(op: Operator)

  /** The comparison filter node. A `None` value stands for Java's `null`:
      `column` is unset, `firstCondValue` was never chosen (or the set yielded
      its null element), a variable is declared but unbound. */
  datatype Filter<V(==)> = Filter(
    operator: Operator,
    children: seq<Child<V>>,
    column: Option<ColumnRef>,
    conditionValues: set<Option<V>>,
    firstCondValue: Option<V>,
    dynamicVariables: map<string, Option<V>>)

  /** The columns of the column-role children, in attachment order. */
  function ColumnsOf<V(==)>(children: seq<Child<V>>): seq<ColumnRef>
  {
    if children == [] then []
    else
      var last := children[|children| - 1];
      ColumnsOf(children[..|children| - 1]) + (if last.Column? then [last.col] else [])
  }

  /** The invariant every filter built by the operations below keeps: a
      comparison operator, at most one column child and `column` recording it,
      and a first condition value that is null or drawn from the set. */
  predicate Valid<V(==)>(f: Filter<V>)
  {
    && IsComparison(f.operator)
    && |ColumnsOf(f.children)| <= 1
    && f.column == (if ColumnsOf(f.children) == [] then None else Some(ColumnsOf(f.children)[0]))
    && (f.firstCondValue.Some? ==> f.firstCondValue in f.conditionValues)
  }

  /** A filter can run without a missing tuple-independent input once it has
      a column and at least one condition value. */
  predicate IsEvaluable<V(==)>(f: Filter<V>)
    ensures IsEvaluable(f) <==> f.column.Some? && exists v :: v in f.conditionValues
    ensures Valid(f) ==> (IsEvaluable(f) <==> |ColumnsOf(f.children)| == 1 && f.conditionValues != {})
  {
    f.column.Some? && f.conditionValues != {}
  }

  /** Construction: only the ten comparison operators are accepted; the new
      node has no children, no column, no values and no variables. */
  function New<V(==)>(op: Operator): (r: Result<Filter<V>, FilterError>)
    ensures r.Success? <==> IsComparison(op)
    ensures r.Failure? ==> r.error == UnsupportedOperator(op)
    ensures r.Success? ==>
              && r.value.operator == op
              && r.value.children == []
              && r.value.column.None?
              && r.value.conditionValues == {}
              && r.value.firstCondValue.None?
              && r.value.dynamicVariables == map[]
  {
    if IsComparison(op) then Success(Filter(op, [], None, {}, None, map[]))
    else Failure(UnsupportedOperator(op))
  }

  /** Every node starts out satisfying the invariant and not yet evaluable. */
  lemma NewIsValid<V>(op: Operator)
    requires IsComparison(op)
    ensures Valid(New<V>(op).value) && !IsEvaluable(New<V>(op).value)
  {
  }

  /** Attaching a column child: the column is write-once, and a value attached
      before the column turns an order-sensitive operator around
      ("1 >= c1" becomes "c1 <= 1"). */
  function AttachColumn<V(==)>(f: Filter<V>, c: ColumnRef): (r: Result<Filter<V>, FilterError>)
    ensures r.Failure? <==> f.column.Some?
    ensures r.Failure? ==> r.error == DuplicateColumns(f.column.value.name, c.name)
    ensures r.Success? ==>
              && r.value.column == Some(c)
              && r.value.children == f.children
              && r.value.conditionValues == f.conditionValues
              && r.value.firstCondValue == f.firstCondValue
              && r.value.dynamicVariables == f.dynamicVariables
    ensures r.Success? ==>
              (r.value.operator != f.operator <==> f.conditionValues != {} && NeedsSwap(f.operator))
    ensures r.Success? && r.value.operator != f.operator ==>
              f.operator in SwapOpMap && r.value.operator == SwapOpMap[f.operator]
  {
    if f.column.Some? then
      Failure(DuplicateColumns(f.column.value.name, c.name))
    else
      var op := if f.conditionValues != {} && NeedsSwap(f.operator) then SwapOpMap[f.operator] else f.operator;
      Success(f.(column := Some(c), operator := op))
  }

  /** Attaching a constant child: its values join the condition set and the
      first condition value is re-chosen from the enlarged set. Which element
      a hash set yields first is not modelled: `pick` is any element of it.
      The source fails when the enlarged set is still empty, so such a call
      has no `pick` to offer. */
  function AttachConstant<V(==)>(f: Filter<V>, values: set<Option<V>>, pick: Option<V>): (r: Filter<V>)
    requires pick in f.conditionValues + values
    ensures r.conditionValues == f.conditionValues + values
    ensures f.conditionValues <= r.conditionValues
    ensures r.firstCondValue == pick && r.firstCondValue in r.conditionValues
    ensures r.operator == f.operator && r.column == f.column && r.children == f.children
    ensures r.dynamicVariables == f.dynamicVariables
    ensures IsEvaluable(r) <==> r.column.Some?
  {
    f.(conditionValues := f.conditionValues + values, firstCondValue := pick)
  }

  /** Attaching a variable placeholder declares the name as unbound unless it
      is already known; an existing binding survives. */
  function AttachVariable<V(==)>(f: Filter<V>, name: string): (r: Filter<V>)
    ensures r.dynamicVariables.Keys == f.dynamicVariables.Keys + {name}
    ensures forall k :: k in f.dynamicVariables ==> r.dynamicVariables[k] == f.dynamicVariables[k]
    ensures name !in f.dynamicVariables ==> r.dynamicVariables[name].None?
    ensures r.conditionValues == f.conditionValues && r.firstCondValue == f.firstCondValue
    ensures r.column == f.column && r.operator == f.operator && r.children == f.children
  {
    if name in f.dynamicVariables then f
    else f.(dynamicVariables := f.dynamicVariables[name := None])
  }

  /** `addChild`: append the child to the node's children, then apply the
      bookkeeping of its role. Only a second column child fails. */
  function AddChild<V(==)>(f: Filter<V>, child: Child<V>, pick: Option<V>): (r: Result<Filter<V>, FilterError>)
    requires child.Constant? ==> pick in f.conditionValues + child.values
    ensures r.Failure? <==> child.Column? && f.column.Some?
    ensures r.Success? ==> r.value.children == f.children + [child]
    ensures child.Other? ==> r == Success(f.(children := f.children + [child]))
    ensures r.Success? ==> f.conditionValues <= r.value.conditionValues
    ensures Valid(f) && r.Success? ==> Valid(r.value)
  {
    var g := f.(children := f.children + [child]);
    assert g.children[..|f.children|] == f.children;
    match child
    case Column(c) => AttachColumn(g, c)
    case Constant(values) => Success(AttachConstant(g, values, pick))
    case Dynamic(name) => Success(AttachVariable(g, name))
    case Other => Success(g)
  }

  /** `bindVariable`: the variable is (re)bound, its value joins the condition
      set and the first condition value is re-chosen (`pick`) from it. */
  function BindVariable<V(==)>(f: Filter<V>, name: string, value: Option<V>, pick: Option<V>): (r: Filter<V>)
    requires pick in f.conditionValues + {value}
    ensures name in r.dynamicVariables && r.dynamicVariables[name] == value
    ensures r.dynamicVariables.Keys == f.dynamicVariables.Keys + {name}
    ensures forall k :: k in f.dynamicVariables && k != name ==> r.dynamicVariables[k] == f.dynamicVariables[k]
    ensures r.conditionValues == f.conditionValues + {value}
    ensures r.firstCondValue == pick && r.firstCondValue in r.conditionValues
    ensures r.operator == f.operator && r.column == f.column && r.children == f.children
    ensures IsEvaluable(r) <==> r.column.Some?
    ensures Valid(f) ==> Valid(r)
  {
    f.(dynamicVariables := f.dynamicVariables[name := value],
       conditionValues := f.conditionValues + {value},
       firstCondValue := pick)
  }

  /** `copy`: the private copy constructor clones the children list, the
      condition set and the variable table and shares the column, but does
      not carry the first condition value over: the copy starts with it null. */
  function Copy<V(==)>(f: Filter<V>): (r: Filter<V>)
    ensures r.operator == f.operator && r.children == f.children && r.column == f.column
    ensures r.conditionValues == f.conditionValues && r.dynamicVariables == f.dynamicVariables
    ensures r.firstCondValue.None?
    ensures Valid(f) ==> Valid(r)
    ensures IsEvaluable(r) <==> IsEvaluable(f)
  {
    Filter(f.operator, f.children, f.column, f.conditionValues, None, f.dynamicVariables)
  }

  /** `reverse`: a copy whose operator is the logical complement of the
      receiver's. The receiver is a value and so cannot change. */
  function Reverse<V(==)>(f: Filter<V>): (r: Result<Filter<V>, FilterError>)
    ensures r.Success? <==> IsComparison(f.operator)
    ensures r.Failure? ==> r.error == MissingComplement(f.operator)
    ensures r.Success? ==>
              && f.operator in ReverseOpMap
              && r.value.operator == ReverseOpMap[f.operator]
              && r.value == Copy(f).(operator := r.value.operator)
    ensures r.Success? ==> r.value.operator != f.operator && IsComparison(r.value.operator)
    ensures Valid(f) ==> r.Success? && Valid(r.value)
  {
    ReverseTableIsInvolution(f.operator);
    if f.operator in ReverseOpMap then Success(Copy(f).(operator := ReverseOpMap[f.operator]))
    else Failure(MissingComplement(f.operator))
  }

  /** Reversing twice gives back the operator; what is lost is the first
      condition value, exactly as with a plain copy. */
  lemma ReverseTwiceIsCopy<V>(f: Filter<V>)
    requires IsComparison(f.operator)
    ensures Reverse(f).Success? && Reverse(Reverse(f).value) == Success(Copy(f))
  {
    ReverseTableIsInvolution(f.operator);
    ReverseTableIsInvolution(ReverseOpMap[f.operator]);
  }

  /** A column child, once attached, can never be replaced: every later child
      attachment either fails or keeps the column. */
  lemma ColumnIsWriteOnce<V>(f: Filter<V>, child: Child<V>, pick: Option<V>)
    requires f.column.Some?
    requires child.Constant? ==> pick in f.conditionValues + child.values
    ensures AddChild(f, child, pick).Success? ==> AddChild(f, child, pick).value.column == f.column
    ensures child.Column? ==> AddChild(f, child, pick).Failure?
  {
  }

  /** Attaching the column first never swaps: once a column is set, no
      child attachment and no variable binding changes the operator (nor
      does deserialization, whose contract keeps it unconditionally). */
  lemma ColumnFirstNeverSwaps<V>(f: Filter<V>, child: Child<V>, pick: Option<V>,
                                 name: string, value: Option<V>, bindPick: Option<V>)
    requires f.column.Some?
    requires child.Constant? ==> pick in f.conditionValues + child.values
    requires bindPick in f.conditionValues + {value}
    ensures AddChild(f, child, pick).Success? ==> AddChild(f, child, pick).value.operator == f.operator
    ensures BindVariable(f, name, value, bindPick).operator == f.operator
  {
  }
}
