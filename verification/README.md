# Comparison filter node, modelled in Dafny

This project models `CompareTupleFilter`, the comparison node of a query
engine's filter tree (`column OP value(s)`). The node classifies its children
by role: column, constant holder, late-bound variable or anything else. It
keeps a write-once column, a set of encoded condition values and a
designated "first" condition value, and a table of named variables. It turns
order-sensitive operators around when a value was attached before the column.
It evaluates one tuple with NULL-aware rules through an abstract value codec,
produces a copy or a logically reversed copy, and serializes only its variable
table.

The model is functional: the node is an immutable `Filter` record, and every
mutating Java method is a function from the old record to the new one. Where
Java throws on a modelled input, the model either returns a `Failure` or rules
the input out with a precondition; "## Left out" lists each such case. `Reverse`
is the one place where the model returns a `Failure` although Java does not
throw.

- `wrappers.dfy`, module `Wrappers`: `Option` stands for a nullable reference
  (`None` is Java `null`), and `Result` stands for an operation that may throw.
- `operators.dfy`, module `Operators`: the operator enumeration, the directional
  swap table and the complement table. Both tables are declared in the parent
  filter class, which is not part of this model. The model assumes
  LT↔GT, LTE↔GTE for the swap table and EQ↔NEQ, LT↔GTE, LTE↔GT, IN↔NOTIN,
  ISNULL↔ISNOTNULL for the complement table.
- `compare_filter.dfy`, module `CompareFilter`: the node state, construction,
  child attachment, variable binding, copy and reverse. It also defines the
  invariant `Valid` that every operation preserves.
- `evaluation.dfy`, module `Evaluation`: extraction of the tuple-side value and
  the decision table of `evaluate`.
- `variable_codec.dfy`, module `VariableCodec`: `serialize`/`deserialize` of the
  variable table at the level of (name, value) entries.
- `copy_semantics.dfy`, module `CopySemantics`: the first condition value is lost
  by copy and reverse (see Findings).
- `scenarios.dfy`, module `Scenarios`: worked examples over integer-encoded values.

Modelling choices:
- A hash set's iteration order is not modelled. Every time the source takes
  `conditionValues.iterator().next()`, the model takes a `pick` argument that
  must be an element of the new set. Every contract holds for every such
  choice.
- The value codec is two function parameters, `isNull: V -> bool` and
  `compare: (V, V) -> int`. A Java `null` (`None`) counts as null for every
  codec. Nothing is assumed about the order `compare` induces.
- The tuple is represented by `childValues`: the value each child yields for
  the tuple under evaluation. The tuple-side value is the value of the last
  child that is neither a constant nor a variable, or `null` when no such
  child exists.

## Model

| member | source | states |
|---|---|---|
| Operators.SwapTableIsInvolution | metadata/src/main/java/org/apache/kylin/metadata/filter/CompareTupleFilter.java:73-76 | the swap table (assumed contents) covers exactly LT, LTE, GT, GTE, maps each to a different order-sensitive operator and undoes itself |
| Operators.ReverseTableIsInvolution | metadata/src/main/java/org/apache/kylin/metadata/filter/CompareTupleFilter.java:120-125 | the complement table (assumed contents) is defined exactly on the ten comparison operators, stays among them, has no fixed point and is an involution |
| Operators.NeedsSwap | metadata/src/main/java/org/apache/kylin/metadata/filter/CompareTupleFilter.java:88-90 | an operator needs the swap exactly when the swap table has an entry for it; such an operator is a comparison operator other than EQ and NEQ |
| CompareFilter.IsConstantRole | metadata/src/main/java/org/apache/kylin/metadata/filter/CompareTupleFilter.java:192-194 | constant holders and variable placeholders are the constant roles; column children and other nodes are not, and a constant-role child contributes no column |
| CompareFilter.IsEvaluable | metadata/src/main/java/org/apache/kylin/metadata/filter/CompareTupleFilter.java:196-199 | a node is evaluable iff it has a column and some condition value; for a valid node, iff exactly one column child is attached and the condition set is non-empty |
| CompareFilter.New | metadata/src/main/java/org/apache/kylin/metadata/filter/CompareTupleFilter.java:42-53 | construction succeeds exactly for EQ, NEQ, LT, LTE, GT, GTE, IN, NOTIN, ISNULL, ISNOTNULL, otherwise fails naming the operator; a new node has no children, column, condition values, first value or variables |
| CompareFilter.NewIsValid | metadata/src/main/java/org/apache/kylin/metadata/filter/CompareTupleFilter.java:42-53 | a newly constructed node satisfies the invariant and is not evaluable |
| CompareFilter.AttachColumn | metadata/src/main/java/org/apache/kylin/metadata/filter/CompareTupleFilter.java:67-76 | fails exactly when a column is already set, reporting the old and new column names; otherwise sets the column, and the operator changes iff condition values exist and it is LT/LTE/GT/GTE, into its swap |
| CompareFilter.AttachConstant | metadata/src/main/java/org/apache/kylin/metadata/filter/CompareTupleFilter.java:77-79 | the condition set becomes the old set united with the child's values (never shrinks), the first value is an element of it, nothing else changes, and the node is then evaluable iff it has a column |
| CompareFilter.AttachVariable | metadata/src/main/java/org/apache/kylin/metadata/filter/CompareTupleFilter.java:80-85 | the variable's name is declared: a new name is unbound, an existing binding is kept, other variables, values, first value and column are unchanged |
| CompareFilter.AddChild | metadata/src/main/java/org/apache/kylin/metadata/filter/CompareTupleFilter.java:64-86 | the child is appended to the children; only a second column child fails; other children change nothing else; the condition set never shrinks; the invariant is preserved |
| CompareFilter.BindVariable | metadata/src/main/java/org/apache/kylin/metadata/filter/CompareTupleFilter.java:109-113 | the name is bound to the value, other variables are unchanged, the value joins the condition set, the first value is drawn from it, the node is then evaluable iff it has a column, and the invariant is preserved |
| CompareFilter.Copy | metadata/src/main/java/org/apache/kylin/metadata/filter/CompareTupleFilter.java:55-62 | the copy has the same operator, children, column, condition set and variable table but a null first value; it is valid and evaluable exactly when the original is |
| CompareFilter.Reverse | metadata/src/main/java/org/apache/kylin/metadata/filter/CompareTupleFilter.java:120-125 | succeeds for every comparison operator with a copy whose operator is the complement (a different comparison operator); a valid node always reverses into a valid node |
| CompareFilter.ReverseTwiceIsCopy | metadata/src/main/java/org/apache/kylin/metadata/filter/CompareTupleFilter.java:115-125 | reversing twice gives back the original operator, and the result equals a plain copy |
| CompareFilter.ColumnIsWriteOnce | metadata/src/main/java/org/apache/kylin/metadata/filter/CompareTupleFilter.java:67-72 | once a column is set, no child attachment replaces it, and a second column child always fails |
| CompareFilter.ColumnFirstNeverSwaps | metadata/src/main/java/org/apache/kylin/metadata/filter/CompareTupleFilter.java:64-113 | once a column is set, no child attachment and no variable binding changes the operator, so a value attached after the column never triggers the swap |
| Evaluation.TupleValue | metadata/src/main/java/org/apache/kylin/metadata/filter/CompareTupleFilter.java:136-143 | the tuple-side value is null when every child is a constant or variable, and otherwise the value of the last child that is neither |
| Evaluation.Decide | metadata/src/main/java/org/apache/kylin/metadata/filter/CompareTupleFilter.java:145-189 | a null tuple value gives true iff the operator is ISNULL; otherwise a null first value gives false; ISNOTNULL never holds; ISNULL holds iff the tuple value is null; with both values non-null, EQ, NEQ, LT, LTE, GT and GTE hold iff `compare(tuple value, first value)` is respectively zero, non-zero, negative, non-positive, positive or non-negative, and IN holds iff the tuple value is in the condition set and NOTIN iff it is not |
| Evaluation.Evaluate | metadata/src/main/java/org/apache/kylin/metadata/filter/CompareTupleFilter.java:135-190 | the child scan finds the last non-constant child's value, and the result is the decision table applied to it |
| Evaluation.ComplementaryOperatorsDisagree | metadata/src/main/java/org/apache/kylin/metadata/filter/CompareTupleFilter.java:158-188 | with non-null tuple and first values, EQ/NEQ, LT/GTE, LTE/GT and IN/NOTIN always give opposite answers |
| Evaluation.NullChecksRejectNonNull | metadata/src/main/java/org/apache/kylin/metadata/filter/CompareTupleFilter.java:145-188 | with a non-null tuple value, both ISNULL and ISNOTNULL evaluate to false, so the complement table does not negate the null checks |
| VariableCodec.TableOfKeys | metadata/src/main/java/org/apache/kylin/metadata/filter/CompareTupleFilter.java:216-226 | a name is bound after replaying entries exactly when some entry carries it |
| VariableCodec.TableOfLastWins | metadata/src/main/java/org/apache/kylin/metadata/filter/CompareTupleFilter.java:221-225 | when a name appears in several entries, the last entry decides its binding |
| VariableCodec.TableOfListing | metadata/src/main/java/org/apache/kylin/metadata/filter/CompareTupleFilter.java:203-226 | replaying any duplicate-free listing of a table rebuilds exactly that table |
| VariableCodec.ValuesOfListing | metadata/src/main/java/org/apache/kylin/metadata/filter/CompareTupleFilter.java:203-226 | the entries of such a listing carry exactly the table's values, so deserializing them adds exactly those values to the condition set |
| VariableCodec.Serialize | metadata/src/main/java/org/apache/kylin/metadata/filter/CompareTupleFilter.java:203-214 | the count written equals the number of variables, and the entries list every binding of the table once, in some order |
| VariableCodec.Deserialize | metadata/src/main/java/org/apache/kylin/metadata/filter/CompareTupleFilter.java:216-226 | the table becomes exactly the one built from the entries (old bindings cleared, last entry wins); the condition set is only extended by the entries' values; the first value is drawn from the final set unless there are no entries; the invariant is preserved |
| VariableCodec.Transfer | metadata/src/main/java/org/apache/kylin/metadata/filter/CompareTupleFilter.java:203-226 | serializing one node and deserializing into another gives the receiver exactly the sender's variable table, in whatever order the entries were written |
| CopySemantics.CopyRejectsNonNull | metadata/src/main/java/org/apache/kylin/metadata/filter/CompareTupleFilter.java:55-62 | the as-written copy and reversal reject every non-null tuple value, whatever the original held |
| CopySemantics.ReverseOfEqualsFiveRejectsSix | metadata/src/main/java/org/apache/kylin/metadata/filter/CompareTupleFilter.java:115-125 | for `c = 5` and the tuple value 6, both the filter and its reversal `c <> 5` evaluate to false |
| CopySemantics.CopyKeepingFirst | metadata/src/main/java/org/apache/kylin/metadata/filter/CompareTupleFilter.java:55-62 | the corrected copy keeps every field, the first value included, and preserves the invariant |
| CopySemantics.ReverseKeepingFirst | metadata/src/main/java/org/apache/kylin/metadata/filter/CompareTupleFilter.java:120-125 | the corrected reversal succeeds for every comparison operator with the complement operator and keeps the first value |
| CopySemantics.CopyKeepingFirstEvaluatesAlike | metadata/src/main/java/org/apache/kylin/metadata/filter/CompareTupleFilter.java:55-62 | the corrected copy evaluates exactly like the original on every tuple value |
| CopySemantics.ReverseKeepingFirstNegates | metadata/src/main/java/org/apache/kylin/metadata/filter/CompareTupleFilter.java:120-125 | the corrected reversal negates the original on every row of the decision table where complementary rows exist |
| Scenarios.ColumnThenConstant | metadata/src/main/java/org/apache/kylin/metadata/filter/CompareTupleFilter.java:64-86 | a node built from the operator, a column and a constant is valid, evaluable and holds exactly that constant's values |
| Scenarios.EqualityScenario | metadata/src/main/java/org/apache/kylin/metadata/filter/CompareTupleFilter.java:162-164 | `c = 5` holds for 5 and fails for 6 |
| Scenarios.OrderScenario | metadata/src/main/java/org/apache/kylin/metadata/filter/CompareTupleFilter.java:168-170 | `c < 5` holds for 4 and fails for 5 |
| Scenarios.MembershipScenario | metadata/src/main/java/org/apache/kylin/metadata/filter/CompareTupleFilter.java:180-182 | a node `c IN (1, 2, 3)` holds for 2 and fails for 4, whichever of its values is the first one |
| Scenarios.ValueFirstSwapScenario | metadata/src/main/java/org/apache/kylin/metadata/filter/CompareTupleFilter.java:73-76 | `5 > c` built value-first becomes `c < 5` |
| Scenarios.NullCheckScenarios | metadata/src/main/java/org/apache/kylin/metadata/filter/CompareTupleFilter.java:145-154 | ISNULL holds for a null tuple value; ISNOTNULL rejects a non-null one when no condition value exists |

## Left out

- The byte-level wire layout is not modelled: the variable-length count, the length-prefixed UTF-8 names, the buffer and its fixed size. Serialization stops at the count and the (name, value) entries.
- The value codec's own `serialize`/`deserialize` are not modelled. Entries carry the value itself, which assumes the codec round-trips every value, null included.
- Child evaluation is not modelled: `filter.evaluate(tuple, cs)` and taking the first value of the child's result. The value each child yields is the `childValues` input to `Evaluation.Evaluate`.
- The parent filter class is not part of this model. That covers the operator enumeration, the two rewriting tables (their contents are assumed, as listed above), the children list (assumed to append), `toString`, and the plain getters `getValues`, `getFirstValue`, `getColumn` and `getVariables`, which read fields of the record.
- A column reference is identified by its name only.
- Hash-set and hash-map iteration orders are not modelled. They appear as the `pick` arguments and as the arbitrary order in which `VariableCodec.Serialize` lists the table.
- Concurrency is not modelled: the node is unsynchronised shared state, and the model is single-threaded values.
- CompareFilter.AddChild: after a second column child, Java has already appended that child to the children list before it throws. The model returns only the error and does not describe that partly changed node.
- CompareFilter.AttachConstant: Java throws `NoSuchElementException` when a constant with no values is attached while the condition set is empty. The model makes a non-empty resulting set a precondition, through the `pick` argument.
- CompareFilter.Reverse: for an operator missing from the complement table, Java stores a `null` operator in the copy. The model reports `MissingComplement` instead. No filter built by `New` can reach this case.

## Findings

| source | as written | input that shows it | evidently intended | confidence | as-written member | corrected member |
|---|---|---|---|---|---|---|
| metadata/src/main/java/org/apache/kylin/metadata/filter/CompareTupleFilter.java:55-62 | the copy constructor does not copy `firstCondValue`, so `copy()` and `reverse()` return a node whose first value is null, and every non-null tuple value is rejected | the filter `c = 5` (column `c`, constant 5) reversed to `c <> 5` and evaluated with `c` = 6 gives false | the copy carries the first value over, so the reversal of `c = 5` holds for 6 | medium, not executed | CopySemantics.ReverseOfEqualsFiveRejectsSix | CopySemantics.ReverseKeepingFirst |

`CompareFilter.Copy` and `CompareFilter.Reverse` model the source as written.
The corrected `CopySemantics.CopyKeepingFirst` and `CopySemantics.ReverseKeepingFirst`
sit beside them, and `CopySemantics.ReverseKeepingFirstNegates` proves the
negation property for the corrected reversal.

A second oddity is a designed behaviour rather than a finding. ISNOTNULL never
evaluates to true (`Evaluation.Decide`). A null tuple value rejects every
operator except ISNULL. A non-null tuple value is rejected either by the
missing first value or by the default branch of the operator switch.
