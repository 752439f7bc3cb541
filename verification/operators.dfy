/** The filter operators and the two rewriting tables a comparison filter uses.
    The operator enumeration and both tables are declared in the parent filter
    class, which is not part of this model: the tables below are the assumed
    contents restricted to the comparison operators. */
module Operators {

  datatype Operator =
    | EQ | NEQ | LT | LTE | GT | GTE | IN | NOTIN | ISNULL | ISNOTNULL
      /** Any other constant of the operator enumeration (AND, OR, NOT, ...). */
    | NonComparison(name: string)

  /** The ten operators a comparison filter accepts. */
  predicate IsComparison(op: Operator)
  {
    !op.NonComparison?
  }

  /** The order-sensitive operators, whose direction depends on operand order. */
  predicate NeedsSwap(op: Operator)
    ensures NeedsSwap(op) <==> op in SwapOpMap
    ensures NeedsSwap(op) ==> IsComparison(op) && op != EQ && op != NEQ
  {
    op == LT || op == GT || op == LTE || op == GTE
  }

  /** Directional swap: the operator that keeps the truth value when the two
      operands change places (assumed table). */
  const SwapOpMap: map<Operator, Operator> :=
    map[LT := GT, GT := LT, LTE := GTE, GTE := LTE]

  /** Logical complement of each comparison operator (assumed table). */
  const ReverseOpMap: map<Operator, Operator> :=
    map[EQ := NEQ, NEQ := EQ, LT := GTE, GTE := LT, LTE := GT, GT := LTE,
        IN := NOTIN, NOTIN := IN, ISNULL := ISNOTNULL, ISNOTNULL := ISNULL]

  /** The swap table covers exactly the order-sensitive operators, maps them
      among themselves, never to themselves, and undoes itself. */
  lemma SwapTableIsInvolution(op: Operator)
    ensures op in SwapOpMap <==> NeedsSwap(op)
    ensures op in SwapOpMap ==>
              && NeedsSwap(SwapOpMap[op])
              && SwapOpMap[op] != op
              && SwapOpMap[SwapOpMap[op]] == op
  {
  }

  /** The complement table is total over the comparison operators, stays among
      them, has no fixed point and undoes itself. */
  lemma ReverseTableIsInvolution(op: Operator)
    ensures op in ReverseOpMap <==> IsComparison(op)
    ensures op in ReverseOpMap ==>
              && IsComparison(ReverseOpMap[op])
              && ReverseOpMap[op] != op
              && ReverseOpMap[ReverseOpMap[op]] == op
  {
  }
}
