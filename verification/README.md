# DB25 semantic analyzer: a verified model

This project models the parts of the DB25 semantic analyzer whose correctness is hard to see from
one function at a time, gives each a small reference semantics, and proves the analyzer's verdicts
against it. `dafny verify dfyconfig.toml` checks everything.

The project has five parts. Where the source updates state step by step the model is a class or a
method with loops, proved equal to a function on values; the theorems are about the functions.

1. **FROM, scopes and joins.** `Scope.dfy` is the scope class and name lookup, `FromClause.dfy` the
   walk over FROM that marks ranges of the relation list. `JoinTree.dfy` gives FROM its meaning as a
   tree of joins over rows (ISO/IEC 9075-2:2003, section 7.7), and `FlatWalk.dfy`, `JoinScope.dfy`,
   `BareReads.dfy`, `Visibility.dfy`, `FromTheorems.dfy`, `QualifiedReads.dfy`, `MergedReads.dfy`
   relate the flat walk to the tree, and what a reference reports to what the rows hold.
   `Identifier.dfy` is case-insensitive identity and the lazy name index, `References.dfy` what a
   reference spelled `q.c` denotes, `Correlation.dfy` which subqueries are flagged correlated, and
   `CorrelationMeaning.dfy` what that says about rows.
2. **Expressions.** `Ast.dfy` and `Semantics.dfy` are expression trees and their value in a row;
   `Types.dfy`, `Infer.dfy`, `InferWalk.dfy`, `InferWarnings.dfy`, `ConstantFolding.dfy`,
   `EvaluatedPositions.dfy` the inference walk, its nullability, its suppression counter and its
   warnings; `TypeSoundness.dfy`, `TypeExactness.dfy` what an inferred type says about values, and
   `NullTightness.dfy` when an expression recorded nullable can be NULL. `NodePaths.dfy`,
   `Congruence.dfy`, `Grouping.dfy`, `GroupingTheorems.dfy`, `GroupingExact.dfy`, `GroupingPaths.dfy`,
   `GroupingSets.dfy`, `GroupingClauses.dfy` are GROUP BY legality and grouping sets; `SetOps.dfy`
   nullability of set operations; `Numerals.dfy` the numeral loops.
3. **CHECK.** `CheckEval.dfy`, `CheckSound.dfy`, `CheckExact.dfy`: the partial evaluator, its verdicts,
   and when it reaches one.
4. **Catalog.** `Catalogs.dfy`, `Ddl.dfy`, `DdlEffects.dfy`, `DdlRemovals.dfy`, `DdlCreation.dfy`,
   `CatalogInvariant.dfy`, `CatalogRuns.dfy`, `CatalogTheorems.dfy`, `CatalogManager.dfy`: fourteen schema
   commands, what each of them changes, and what every run keeps.
5. **Storage.** `Lines.dfy`, `Snapshot.dfy`, `SnapshotStore.dfy`, `SnapshotTheorems.dfy`,
   `SnapshotGrammar.dfy`, `SnapshotRoundTrip.dfy`, `PrintableRuns.dfy`, `Durability.dfy`: the snapshot
   text, the texts that are accepted, the round trip, the runs it is good for, and crashes.

## Where a property fails

Each of these has a lemma with a concrete input and a theorem that says exactly when the property
does hold.

- USING and NATURAL: a merged column is reported NOT NULL although its left relation is already
  null-supplied (`NullKeyExample`). Exact for left sides joined by ON (`MergeVerdictsAreExact`); over
  left sides that are merged themselves the verdict is proved right under the same condition
  (`BareReferenceIsSound`), without the converse.
- GROUP BY keys: a key that is an expression covers any column spelled like its alias
  (`AliasCollisionExample`), and a key on an outer column covers an inner one of the same identity
  (`OuterKeyExample`). Exact for both: with keys at any level and expression keys that do not read the
  column, an accepted column is fixed within the groups if and only if some key is that very column,
  and a rejected one never is (`VerdictIsExact`, `DeterminedIffKeyed`).
- GROUP BY depth: columns under 200 nested CASE expressions are not looked at, and differ within a
  group (`NestedCaseIsUnchecked`). Exact: a column under `k` CASEs is accepted if and only if the
  nesting reaches the limit or the column is fixed (`NestedVerdictIsExact`).
- Grouping sets: a key without a catalogue identity is not re-marked nullable
  (`UnidentifiedKeyExample`). Exact: `KeyIsRemarkedIfIdentified`.
- CHECK: `(5 BETWEEN 10 AND NULL) IS NULL` folds to TRUE (`CoarseBetweenExample`). Exact:
  `NullTestOfBetweenIsExact`.
- Constants: the negation of the least INTEGER folds to a value that is not an INTEGER, with no
  warning (`NegatedMinimumExample`). Exact: `UnwarnedConstantsFit`.
- Quantified comparisons: `1 = ANY (ARRAY[NULL])` is recorded NOT NULL (`QuantifiedExample`). Exact
  for arrays of columns and NULLs: right if and only if every element is recorded NOT NULL
  (`QuantifiedIsExact`); sound for every array whose elements are (`NotNullIsSound`).
- Untyped operands: an operand of unknown type takes the other operand's type, as in `a + x` with `x`
  untyped, and a CASE takes the type of its typed branches. Exact over columns: the type is right if
  and only if the operands fit (`OperandTypesAreExact`), both branches are typed, or no type is
  inferred (`BranchTypesAreExact`); sound wherever operand types are known (`TypeIsSound`).
- DROP COLUMN: leaves a key of the same table that refers to the column, and the next column added
  takes over its id (`OrphanExample`). Exact: `SelfReferencesSurviveExactly`. The header comment says
  ids are never reused (include/db25/semantic/catalog_manager.hpp:271-273); the code reuses the highest.
- Snapshot: a name that opens with a space, or an empty table or column name, is written and does not
  come back (`LeadingSpaceIsLost`). Exact: `RoundTripIsExact`; `RunIsPrintable` says which runs of
  commands never meet this.

## Model

| member | source | states |
|---|---|---|
| Identifier.CompareIdentifiers | include/db25/semantic/identifier.hpp:36-46 | the byte loop decides equality of the folded spellings, which makes `iequals` an equivalence |
| Identifier.HashIdentifier | include/db25/semantic/identifier.hpp:50-60 | the hash is a function of the fold, so equal identifiers hash alike |
| Identifier.NameIndex.Emplace | include/db25/semantic/scope.hpp:100-105 | entering a name keeps the first index already filed under it |
| Identifier.NameIndex.FindColumn | include/db25/semantic/scope.hpp:91-115 | the lazily built hash index answers exactly as the linear scan does, before and after it is built |
| Scopes.TallyAnswers | include/db25/semantic/scope.hpp:315-364 | the counting scan with its early exits finds a bare name exactly when one relation answers, once |
| Scopes.OnlyAnswerFound | include/db25/semantic/scope.hpp:334-358 | a relation that alone answers a bare name is the one found |
| Scopes.Scope.LookUpBare | include/db25/semantic/scope.hpp:313-367 | the outward walk resolves to the nearest block that knows the name and returns that scope as owner |
| Scopes.BareFromLevel | include/db25/semantic/scope.hpp:314-318 | blocks that do not know the name only shift where the answer lies |
| Scopes.Scope.constructor | include/db25/semantic/scope.hpp:174 | a new scope sees nothing of its own and everything its parent sees |
| Scopes.Scope.AddRelation | include/db25/semantic/scope.hpp:178-180 | relations are kept in FROM order |
| Scopes.Scope.MarkJoinNullable | include/db25/semantic/scope.hpp:199-215 | exactly the relations of the range become null-supplied, and their merged columns note an enclosing join |
| Scopes.Scope.MarkColumnCoalesced | include/db25/semantic/scope.hpp:188-197 | exactly the copies of the name in the range are hidden |
| Scopes.Scope.SetMergedColumnNullability | include/db25/semantic/scope.hpp:222-232 | exactly the visible copies in the range take the merged verdict |
| FromClause.ResolveUsing | src/analyzer.cpp:2573-2627 | the USING list merges name by name, the last match on each side deciding |
| FromClause.LastHitIsLast | src/analyzer.cpp:2583-2599 | no relation after the one the search ends on exposes the name |
| FromClause.ResolveNatural | src/analyzer.cpp:2635-2660 | NATURAL merges the left columns in order, each against its first right match |
| FromClause.ResolveFromItem | src/analyzer.cpp:2450-2566 | one item adds, marks and merges as its kind says, over the current comma group |
| FromClause.ResolveFrom | src/analyzer.cpp:2245-2255 | the walk with its moving group start is the fold over the items |
| FlatWalk.NaturalIsUsing | src/analyzer.cpp:2629-2660 | NATURAL is USING over the common names, in left column order |
| FlatWalk.JoinShift | src/analyzer.cpp:2489-2509 | a join inside a comma group does to its group what it does alone, and nothing to the groups before it |
| FlatWalk.FlatIsTree | src/analyzer.cpp:2245-2255 | the flat list the walk leaves is the scope of the join tree the clause denotes |
| JoinScope.ScopeMarks | src/analyzer.cpp:2497-2509 | a relation is marked in the tree's scope exactly when an outer join of the tree null-supplies it |
| JoinScope.MergeNamesColumn | src/analyzer.cpp:2577-2626 | what a merge of distinct, once-exposed names does to each column on each side |
| JoinTree.UnmarkedIsPresent | include/db25/semantic/scope.hpp:199-201 | in no row of the join is an unmarked relation null-extended |
| JoinTree.MarkedIsExtended | include/db25/semantic/scope.hpp:199-201 | for a marked relation there are tables and ON predicates with a row that null-extends it |
| JoinTree.MarksAreExact | include/db25/semantic/scope.hpp:78-83 | marked means that some tables and ON predicates null-extend it, both ways |
| FromTheorems.ClauseMarksAreExact | src/analyzer.cpp:2245-2255 | for every FROM of comma groups, parenthesised groups and ON joins, the walk's marks are sound and exact |
| Visibility.ScopeExposes | include/db25/semantic/scope.hpp:123-131 | the scope exposes a name as often as the clause has visible columns of it, a shared column counting once |
| Visibility.BareByCount | include/db25/semantic/scope.hpp:313-367 | a bare name is missing, found or ambiguous as its visible columns number none, one or more |
| BareReads.ReportedIsPresent | include/db25/semantic/scope.hpp:345-357 | a column that reads NOT NULL, merged or not, is NULL in no row, under its own join and any outside it |
| FromTheorems.BareReferenceIsSound | src/analyzer.cpp:2573-2660 | under clean merges a bare reference is found exactly when one visible column carries the name, and its NOT NULL holds in every row |
| FromTheorems.ExpandStarInto | src/analyzer.cpp:1979-2006 | the star loops project the visible columns in order, each as a bare read sees it |
| FromTheorems.StarEmitsOnce | src/analyzer.cpp:1979-2006 | the star projects each name as often as it is visible, so a shared column once |
| FromTheorems.MergeFailure | src/analyzer.cpp:2608-2611 | a merged NOT NULL over a null-supplied left copy is contradicted by a row of the join |
| FromTheorems.MergeVerdictsAreExact | src/analyzer.cpp:2602-2612 | over ON joins the merged verdicts are right if and only if each rests on a left copy reported NOT NULL |
| FromTheorems.NullKeyExample | src/analyzer.cpp:2608-2611 | a concrete LEFT JOIN chain in which a USING column reported NOT NULL is NULL |
| QualifiedReads.FirstOfferDecides | include/db25/semantic/scope.hpp:274-309 | the first relation, block by block outward, that goes by the qualifier and has the column decides: found if it exposes the name once, ambiguous otherwise |
| QualifiedReads.NothingOffered | include/db25/semantic/scope.hpp:304-309 | nothing is found exactly when no relation offers the column, and the qualifier is at fault exactly when no relation goes by it |
| QualifiedReads.QualifiedReferenceIsSound | include/db25/semantic/scope.hpp:295-302 | `q.c` denotes a declared column of a relation so qualified; it reads nullable exactly when declared so or null-supplied, and NOT NULL holds in every row of the join |
| QualifiedReads.QualifiedReferenceIsExact | include/db25/semantic/scope.hpp:295-302 | over ON joins it reads nullable if and only if some row has it NULL; a NOT NULL column, if and only if its relation can be null-extended |
| MergedReads.BareReferenceIsExact | include/db25/semantic/scope.hpp:345-357 | over ON joins a bare reference reads nullable if and only if some row has it NULL |
| MergedReads.MergedReportIsTight | src/analyzer.cpp:2602-2612 | for an outer join, a merged column reported nullable is NULL in some row |
| MergedReads.InnerMergeIsCautious | src/analyzer.cpp:2602-2612 | for an inner join the report follows the left copy, although no row has the shared column NULL |
| References.SameTextSameSlot | include/db25/semantic/ast_helpers.hpp:52-58 | references equal under case folding split alike and denote the same column |
| References.SameNameSameSlot | src/analyzer.cpp:3733-3757 | in one unmerged block, equal column names and agreeing qualifiers denote one column |
| References.SameSlotSameName | src/analyzer.cpp:3733-3757 | and references to one column have equal names and agreeing qualifiers |
| References.StarColumnIsSlot | src/analyzer.cpp:4236-4259 | a reference agreeing with a star column in name and qualifier denotes that column |
| Correlation.LookUpQualified | include/db25/semantic/scope.hpp:274-309 | the outward walk for `q.c`, with its owner and its unseen-qualifier verdict; what it answers is `FirstOfferDecides`, `NothingOffered` and `QualifiedReferenceIsExact` |
| Correlation.Analyzer.MarkCorrelated | src/analyzer.cpp:2688-2697 | exactly the active subqueries whose enclosing scope has the owner on its chain are flagged |
| Correlation.Analyzer.ResolveColumnRef | src/analyzer.cpp:2662-2699 | a reference flags exactly the active subqueries it reaches out of |
| Correlation.Analyzer.AnalyzeSubquery | src/analyzer.cpp:3579-3614 | the stack is restored, and the flag says whether a reference in the body is owned at or outside the enclosing scope |
| Correlation.Analyzer.AnalyzeQuery | src/analyzer.cpp:1854-1866 | a whole query, derived tables and set operations included, yields the flags its references call for |
| Correlation.ReachesOutIsOwned | src/analyzer.cpp:2688-2697 | reaching out is having, at any depth, a reference whose owner is one of those blocks |
| Correlation.IntermediateIsCorrelated | src/analyzer.cpp:2675-2682 | a subquery that reaches past its own block makes every subquery in between correlated |
| CorrelationMeaning.ReachesOutIsDependence | src/analyzer.cpp:2675-2697 | a query reaches the `n` outermost blocks if and only if something it reads can change with their rows |
| CorrelationMeaning.FlagsAreExact | src/analyzer.cpp:3594-3613 | run over rows, every subquery of every query is flagged if and only if something it reads can change with the rows around it |
| Types.ReconcileBranches | src/analyzer.cpp:3323-3332 | the CASE loop folds its branch types from Unknown |
| Types.ReconcileFromFirst | src/analyzer.cpp:2179-2198 | the set-operation loop folds from its first branch to the same result |
| Types.CoerceIsJoin | src/analyzer.cpp:365-438 | one reconciling step is a join in the widening order, or a clash |
| Types.PromoteTakesWider | src/analyzer.cpp:138-147 | reconciling two numbers gives the wider one of a total order |
| Types.ReconcileIsLeast | src/analyzer.cpp:3324-3332 | the fold flags a mismatch exactly when two branches clash, and otherwise ends on the least common type |
| Types.OrderIndependent | src/analyzer.cpp:2190-2199 | a mismatch in one order is one in all; without it, and with a non-wildcard branch, every order gives one type |
| Types.OrderIndependenceIsExact | src/analyzer.cpp:2190-2199 | every permutation gives one result if and only if no two branches clash beyond the flag and the wildcards allow it |
| Numerals.ParseU32 | src/catalog_snapshot.cpp:135-145 | accepts exactly the digit strings whose unbounded value fits 32 bits, and returns it |
| Numerals.ParseOrdinal | src/analyzer.cpp:4062-4082 | the clamped loop accepts exactly the values 1 to N, whatever the length of the text, inside 64 bits |
| Numerals.DecimalOfNumeral | src/catalog_snapshot.cpp:156-158 | a printed number reads back as itself |
| Infer.CombineNullableAny | src/analyzer.cpp:750-761 | nullable if any part is, not-null if all of at least one are, else unknown |
| Infer.NotNullIsSound | src/analyzer.cpp:2749-3577 | an expression recorded NOT NULL evaluates to NULL in no row that keeps the columns' flags |
| Infer.CallIsSound | src/analyzer.cpp:764-799 | COALESCE, GREATEST, LEAST, NULLIF, COUNT, current-time and strict functions included |
| Infer.CaseIsSound | src/analyzer.cpp:3338-3344 | a CASE recorded NOT NULL has an ELSE and yields NULL for no row |
| Infer.InIsSound | src/analyzer.cpp:3348-3432 | an IN list recorded NOT NULL is never NULL |
| Infer.BetweenIsSound | src/analyzer.cpp:3452-3475 | a BETWEEN recorded NOT NULL is never NULL |
| Infer.QuantifiedIsSound | src/analyzer.cpp:3052-3074 | a quantified comparison over an array whose elements are recorded NOT NULL is never NULL |
| Infer.QuantifiedIsExact | src/analyzer.cpp:3168-3172 | it is always recorded NOT NULL; over columns and NULLs that is right if and only if every element is recorded NOT NULL |
| Infer.QuantifiedExample | src/analyzer.cpp:3052-3074 | a quantified comparison with an array is recorded NOT NULL and is NULL |
| NullTightness.FlagIsDecided | src/analyzer.cpp:750-761 | an expression whose parts are flagged is recorded NOT NULL or nullable, never unknown |
| NullTightness.StrictIsExact | src/analyzer.cpp:3168-3172 | a strict expression of any depth is recorded NOT NULL if and only if it is NULL in no row |
| NullTightness.CaseTight | src/analyzer.cpp:3338-3344 | a CASE over columns recorded nullable is NULL in some row |
| NullTightness.OperatorIsExact | src/analyzer.cpp:750-799 | AND, OR, IN, BETWEEN, CASE and every call, over columns, are recorded NOT NULL if and only if they are NULL in no row |
| NullTightness.NeverNullIsRecorded | src/analyzer.cpp:3040-3083 | a kind of expression that is never NULL, whatever its parts, is recorded NOT NULL |
| TypeSoundness.TypeIsSound | src/analyzer.cpp:2749-3577 | in every row that keeps the declared types the value of an expression belongs to its inferred type: Boolean, integer, text and array values or NULL |
| TypeExactness.TypeIsKnown | src/analyzer.cpp:2749-3577 | operators with typed operands, predicates, literals and arrays are given a type |
| TypeExactness.TruthIsBoolean | src/analyzer.cpp:3028-3083 | an expression with a truth value is inferred Boolean |
| TypeExactness.OperandTypesAreExact | src/analyzer.cpp:3084-3136 | arithmetic and concatenation over columns are typed right if and only if the operands fit |
| TypeExactness.BranchTypesAreExact | src/analyzer.cpp:3323-3332 | a CASE over columns is typed right if and only if both branches are typed or no type is inferred |
| InferWalk.Inference.InferExpr | src/analyzer.cpp:2749-2767 | type, nullability and warnings of the walk, with both counters restored on every path |
| InferWalk.Inference.InferBinary | src/analyzer.cpp:3020-3174 | operands, result, and the two constant warnings outside suppressed regions |
| InferWalk.Inference.InferCall | src/analyzer.cpp:2867-3018 | arguments without the date part and the star, then the signature's type and nullability |
| InferWalk.Inference.InferCase | src/analyzer.cpp:3236-3346 | operand, arms, reconciled type and nullability |
| InferWalk.Inference.InferArms | src/analyzer.cpp:3273-3322 | arms after a constant TRUE guard are dead, ELSE included |
| InferWalk.Inference.InferArm | src/analyzer.cpp:3279-3321 | suppression is raised around a dead arm's result only, never around its guard |
| InferWarnings.WarningsAreRaised | src/analyzer.cpp:3145-3165 | a warning is raised at exactly the offending nodes the walk reaches unsuppressed |
| ConstantFolding.FoldedIntIsExact | src/analyzer.cpp:1037-1077 | a folded integer is the expression's exact value in every row |
| ConstantFolding.FoldedBoolIsExact | src/analyzer.cpp:1125-1150 | a folded guard is the guard's value in every row |
| ConstantFolding.FoldsIffComputable | src/analyzer.cpp:1037-1077 | exactly the trees of decimal literals, signs and + - * whose every intermediate value fits 64 bits fold |
| ConstantFolding.GuardFolds | src/analyzer.cpp:1125-1150 | a guard folds exactly when it is a Boolean literal or compares two such trees |
| ConstantFolding.ArmGuardFolds | src/analyzer.cpp:3293-3303 | the guard of an arm is constant exactly when it folds, in a simple CASE when operand and value do |
| ConstantFolding.LiteralTypeIsNarrowest | src/analyzer.cpp:2769-2822 | an integer literal takes the narrowest of INTEGER, BIGINT and DECIMAL that holds it |
| ConstantFolding.TakenArmDecides | src/analyzer.cpp:3236-3246 | the arm a row reaches and takes is the one whose result the CASE yields |
| ConstantFolding.DeadArmIsNeverTaken | src/analyzer.cpp:3296-3311 | an arm held for dead is taken in no row |
| ConstantFolding.SuppressedIsNeverEvaluated | src/analyzer.cpp:3265-3322 | a node the walk reaches suppressed is evaluated in no row |
| ConstantFolding.ZeroDivisionIsWarned | src/analyzer.cpp:3145-3152 | every constant division by zero that some row evaluates is warned about |
| ConstantFolding.WarnedIsZeroDivision | src/analyzer.cpp:3145-3152 | and a warning names an unsuppressed division by a constant zero |
| ConstantFolding.OverflowIsExact | src/analyzer.cpp:1102-1118 | overflow means both operands fold and the exact result leaves the inferred integer type |
| ConstantFolding.FitsUnlessMinimumNegated | src/analyzer.cpp:1051-1060 | with fitting operands and no overflow only negating a least value misfits |
| ConstantFolding.UnwarnedConstantsFit | src/analyzer.cpp:3158-3165 | in an unwarned constant tree every folded value fits its type if and only if no least value is negated |
| ConstantFolding.NegatedMinimumExample | src/analyzer.cpp:1051-1060 | the concrete misfit |
| EvaluatedPositions.UnevaluatedIsIrrelevant | src/analyzer.cpp:3236-3246 | replacing an expression that the row does not evaluate leaves the value as it is |
| EvaluatedPositions.SuppressedIsIrrelevant | src/analyzer.cpp:3265-3322 | so does replacing one the walk reaches suppressed, in every row |
| EvaluatedPositions.DivisionWarningIsExact | src/analyzer.cpp:3145-3152 | division by zero is warned about at exactly the unsuppressed quotients and remainders with a computable divisor of zero |
| EvaluatedPositions.OverflowWarningIsExact | src/analyzer.cpp:3158-3165 | overflow, at exactly the unsuppressed sums, differences and products of computable operands whose value leaves their integer type |
| Congruence.SameValue | src/analyzer.cpp:3779-3788 | expressions of one shape with parts of equal value have equal values |
| Grouping.GroupExprEqual | src/analyzer.cpp:3789-3825 | the sibling walk compares head, arity and children, and refuses past the depth limit |
| Grouping.GroupingCheck.CheckGroupingExpr | src/analyzer.cpp:4350-4440 | the recursive pass raises exactly the findings of its specification and restores the depth |
| Grouping.CheckStar | src/analyzer.cpp:4218-4270 | reports exactly the shown star columns no key covers |
| GroupingTheorems.EqualIsSameValue | src/analyzer.cpp:3789-3825 | an expression recognised as a key has the key's value in every row |
| GroupingTheorems.MatchedColumnIsKey | src/analyzer.cpp:3762-3777 | a reference matching a column key denotes the key's column |
| GroupingTheorems.CoveredIsKeyed | src/analyzer.cpp:3762-3777 | a covered local column is a key itself, or is spelled like an expression key |
| GroupingTheorems.AcceptedIsDetermined | src/analyzer.cpp:4350-4440 | an expression without findings has one value in all rows that agree on the keys |
| GroupingExact.MatchIsExact | src/analyzer.cpp:3762-3777 | among columns with identity, matching a key is denoting its column, both ways |
| GroupingExact.DeterminedIffKeyed | src/analyzer.cpp:4417-4426 | with keys at any level and expression keys that do not read it, a column is fixed within the groups if and only if some key is that column |
| GroupingExact.KeyedIsMatched | src/analyzer.cpp:3762-3777 | a key that is the column matches any reference to it, if the column has an identity |
| GroupingExact.VerdictIsExact | src/analyzer.cpp:4417-4435 | what is rejected is never fixed, and what is accepted is fixed if and only if some key is that column |
| GroupingExact.ColumnCheckIsExact | src/analyzer.cpp:4417-4435 | with column keys of the block a column is reported exactly when two rows of a group can differ in it |
| GroupingExact.AcceptedStarIsDetermined | src/analyzer.cpp:4229-4269 | every accepted star column is fixed within the group |
| GroupingExact.StarCheckIsExact | src/analyzer.cpp:4229-4269 | a star column with an identity is accepted exactly when some key is that column |
| GroupingExact.AliasCollisionExample | src/analyzer.cpp:3776 | the alias of an expression key covers an unrelated column |
| GroupingExact.OuterKeyExample | src/analyzer.cpp:3765-3775 | an outer key covers an inner column |
| GroupingExact.NestFindings | src/analyzer.cpp:4437-4439 | a CASE and its WHEN cost the pass two levels and add no finding of their own |
| GroupingExact.NestedVerdictIsExact | src/analyzer.cpp:4355-4358 | a column under `k` CASEs is accepted if and only if the limit is reached or the column is fixed |
| GroupingExact.NestedCaseIsUnchecked | src/analyzer.cpp:4355-4358 | under 200 CASEs an ungrouped column is accepted and typed, and two rows of one group differ in it |
| GroupingPaths.FindingsAreExact | src/analyzer.cpp:4350-4440 | the pass reports exactly the findings due at some position of the tree |
| GroupingPaths.NestedAggregatesAreExact | src/analyzer.cpp:4390-4396 | a nested aggregate is reported if and only if an aggregate lies above it, with no subquery, whole key or depth limit between |
| GroupingPaths.AcceptedHasNoNestedAggregate | src/analyzer.cpp:4390-4396 | within the depth limit an expression without findings has no such aggregate |
| GroupingPaths.NonGroupedColumnsAreExact | src/analyzer.cpp:4417-4435 | a column is reported if and only if it is reached outside aggregates and no key covers it |
| GroupingPaths.ReadsAreExact | src/analyzer.cpp:4442-4516 | the key reader answers yes if and only if some position outside aggregates, GROUPING and subqueries reads a key |
| GroupingPaths.GroupEqualIsExact | src/analyzer.cpp:3789-3825 | two expressions are held equal if and only if they agree at every position, all within the depth limit |
| GroupingPaths.SelfIsKey | src/analyzer.cpp:3789-3825 | an expression within the depth limit is recognised as itself |
| GroupingSets.EffectiveKeys | src/analyzer.cpp:4005-4040 | the worklist finds the keys of the clause and the list of the marked ones; which and how often is `KeysAreExact` |
| GroupingClauses.KeysAreExact | src/analyzer.cpp:4009-4040 | a key comes out marked as often as the clause has it under a grouping element, and unmarked as often as outside, counted by paths |
| GroupingClauses.HandedKeysAreExact | src/analyzer.cpp:4179-4186 | exactly the keys under a grouping element are handed to the re-mark |
| GroupingSets.KeyReader.ExprReadsGroupingKey | src/analyzer.cpp:4442-4516 | whether the expression reads a key outside aggregates and GROUPING, with the depth restored |
| GroupingSets.RemarkOutput | src/analyzer.cpp:4179-4211 | the two passes together mark a column by identity or by what its expression reads |
| GroupingSets.UnreadIsUnchanged | src/analyzer.cpp:4442-4516 | what reads no key keeps its value when keys are nulled |
| GroupingSets.NotNullSurvivesGroupingSets | src/analyzer.cpp:4179-4211 | a column left NOT NULL is not NULL in any super-aggregate row |
| GroupingSets.KeyIsRemarkedIfIdentified | src/analyzer.cpp:4180-4196 | a key is re-marked if and only if it has an identity |
| GroupingSets.UnidentifiedKeyExample | src/analyzer.cpp:4183-4185 | a derived key column left NOT NULL that is NULL in the grand total |
| GroupingClauses.RemarkIsExact | src/analyzer.cpp:4179-4211 | from clause to output, a column ends nullable if and only if it was or depends on a key under a grouping element |
| GroupingClauses.ClauseOutputIsSound | src/analyzer.cpp:4179-4211 | an output column left NOT NULL is NULL in no super-aggregate row, whichever identified columns under grouping elements are nulled |
| SetOps.AnalyzeSetOp | src/analyzer.cpp:2178-2215 | the left fold over the branches, a branch of another arity skipped |
| SetOps.ClaimsAreSound | src/analyzer.cpp:2200-2214 | no row of a tree of set operations is NULL in a column reported NOT NULL |
| SetOps.ClaimsAreExact | src/analyzer.cpp:2200-2214 | and a column reported nullable can be NULL for some honest leaves |
| CheckEval.Evaluator.Evaluate | src/check_eval.cpp:64-112 | the recursive evaluator returns the specified fold, fits 64 bits throughout and restores its depth |
| CheckEval.BinaryFits | src/check_eval.cpp:163-255 | no arithmetic of the evaluator leaves 64 bits |
| CheckSound.CompareAgrees | src/check_eval.cpp:257-278 | a folded comparison is the real one |
| CheckSound.BinaryAgrees | src/check_eval.cpp:163-255 | so is a folded connective or arithmetic result |
| CheckSound.VerdictAgrees | src/check_eval.cpp:64-278 | a folded value is the expression's value in every row completing the bindings |
| CheckSound.NoFalseVerdict | src/check_eval.cpp:283-300 | True and False are the predicate's value whatever the unbound columns are |
| CheckExact.FoldsExactly | src/check_eval.cpp:64-278 | the evaluator reaches a value exactly for what can be folded, said of the values of its operands |
| CheckExact.VerdictIsExact | src/check_eval.cpp:283-300 | it answers True, or False, exactly when the predicate can be folded and has that value |
| CheckSound.NullTestOfBetweenIsExact | src/check_eval.cpp:150-161 | IS NULL over BETWEEN is right exactly when the BETWEEN is not coarse |
| CheckSound.CoarseBetweenExample | src/check_eval.cpp:155 | a concrete wrong verdict |
| Catalogs.EraseConstraints | include/db25/semantic/catalog.hpp:194-199 | erase-remove keeps exactly the other constraints, in order |
| Catalogs.InMemoryCatalog.AddTable | include/db25/semantic/catalog.hpp:94-107 | a fresh table id, columns numbered from one, an existing name untouched |
| Catalogs.InMemoryCatalog.RestoreTable | include/db25/semantic/catalog.hpp:141-144 | the table replaces any of its name |
| Catalogs.InMemoryCatalog.RemoveTable | include/db25/semantic/catalog.hpp:149-151 | exactly that table goes and no id is given back |
| Catalogs.InMemoryCatalog.AddIndex | include/db25/semantic/catalog.hpp:156-167 | a fresh index id |
| Catalogs.InMemoryCatalog.DropIndexesOn | include/db25/semantic/catalog.hpp:181-188 | the erase loop removes exactly the indexes of the table and counts them |
| Catalogs.InMemoryCatalog.DropForeignKeysReferencing | include/db25/semantic/catalog.hpp:189-203 | in every table exactly the keys to this one go |
| Catalogs.InMemoryCatalog.DropIndexesOnColumn | include/db25/semantic/catalog.hpp:207-220 | exactly the indexes over the column go |
| Catalogs.InMemoryCatalog.DropForeignKeysReferencingColumn | include/db25/semantic/catalog.hpp:226-244 | in every other table exactly the keys to the column go |
| CatalogInvariant.ReplaceKeepsInv | include/db25/semantic/catalog_manager.hpp:284-291 | a table may be replaced by one that loses no column |
| CatalogRuns.PrimaryKeyExtends | include/db25/semantic/catalog_manager.hpp:475-507 | adding a primary key leaves one key, over existing columns now NOT NULL |
| CatalogRuns.ForeignKeyIsOk | include/db25/semantic/catalog_manager.hpp:666-697 | a built key has equal arity and names columns that exist on both sides |
| CatalogRuns.AddColumnExtends | include/db25/semantic/catalog_manager.hpp:274-294 | the new column has a name and an id of its own |
| CatalogRuns.RemoveColumnKeepsInv | include/db25/semantic/catalog_manager.hpp:339-360 | removing an unreferenced column keeps the invariant |
| CatalogRuns.DropConstraintExtends | include/db25/semantic/catalog_manager.hpp:628-645 | dropping a constraint, and relaxing its columns if it was the primary key, keeps the table in order |
| CatalogRuns.CreatedIsBuilt | include/db25/semantic/catalog_manager.hpp:102-179 | a created table is in order and refers only to what exists, itself included |
| DdlCreation.CreateTableEffect | include/db25/semantic/catalog_manager.hpp:102-179 | when it commits, one table is added under the next id: the statement's columns numbered from one, those of the primary key NOT NULL, and its primary key, uniques, foreign keys and checks in order |
| DdlEffects.AddColumnEffect | include/db25/semantic/catalog_manager.hpp:274-294 | the column is appended, its id one above the highest; nothing else changes |
| DdlEffects.AddCheckEffect | include/db25/semantic/catalog_manager.hpp:537-560 | the table gains one CHECK of the given name and expression over the columns so named; nothing else changes |
| DdlEffects.AddUniqueEffect | include/db25/semantic/catalog_manager.hpp:510-533 | it gains one unique key |
| DdlEffects.AddPrimaryKeyEffect | include/db25/semantic/catalog_manager.hpp:475-507 | it gains one primary key if it had none, and the key's columns become NOT NULL |
| DdlEffects.AddForeignKeyEffect | include/db25/semantic/catalog_manager.hpp:563-578 | it gains one foreign key, column for column |
| DdlEffects.SetColumnDefaultEffect | include/db25/semantic/catalog_manager.hpp:370-392 | one column takes the default |
| DdlEffects.DropColumnDefaultEffect | include/db25/semantic/catalog_manager.hpp:441-466 | one column loses its default; without one nothing happens |
| DdlEffects.SetColumnNullableEffect | include/db25/semantic/catalog_manager.hpp:402-436 | one flag changes; a primary key column cannot be relaxed |
| DdlRemovals.DropTableEffect | include/db25/semantic/catalog_manager.hpp:192-218 | the table and its indexes go, with CASCADE the foreign keys to it; without, a dependent refuses the command |
| DdlRemovals.CreateIndexEffect | include/db25/semantic/catalog_manager.hpp:224-255 | one index over the named columns is filed under the next id |
| DdlRemovals.DropIndexEffect | include/db25/semantic/catalog_manager.hpp:258-269 | that index goes and nothing else |
| DdlRemovals.DropColumnEffect | include/db25/semantic/catalog_manager.hpp:301-364 | the column, the table's own constraints and indexes over it, and with CASCADE the foreign keys of other tables to it go |
| DdlRemovals.DropConstraintEffect | include/db25/semantic/catalog_manager.hpp:584-646 | the constraints of the name go, with foreign keys that rely on a dropped key, and a primary key's columns become nullable |
| CatalogTheorems.StepKeepsInv | include/db25/semantic/catalog_manager.hpp:102-646 | every command keeps the catalog invariant |
| CatalogTheorems.RunKeepsInv | include/db25/semantic/catalog_manager.hpp:102-646 | so does every run of commands from the empty catalog |
| CatalogTheorems.SelfReferencesSurviveExactly | include/db25/semantic/catalog_manager.hpp:345-355 | keys of a table to itself survive a command exactly when it orphans none |
| CatalogTheorems.VersionStep | include/db25/semantic/catalog_manager.hpp:177-178 | a committed change bumps the version by one, nothing else does |
| CatalogTheorems.FreshColumnIdIsUnreferenced | include/db25/semantic/catalog_manager.hpp:283-291 | the id of a new column is referred to by nothing but an orphaned key of its table |
| CatalogTheorems.OrphanExample | include/db25/semantic/catalog_manager.hpp:345-355 | a concrete orphan, and the column that takes over its id |
| Manager.CatalogManager.constructor | include/db25/semantic/catalog_manager.hpp:44-49 | the manager holds what the file reads as, or nothing |
| Manager.CatalogManager.AddWatcher | include/db25/semantic/catalog_manager.hpp:59-61 | a new watcher has heard nothing |
| Manager.CatalogManager.Commit | include/db25/semantic/catalog_manager.hpp:705-716 | file, memory and every watcher take the new catalog, or none does |
| Manager.CatalogManager.CreateTable | include/db25/semantic/catalog_manager.hpp:102-179 | the copy-mutate-commit method has exactly the command's effect; refused, empty and unsaved commands change nothing |
| Manager.CatalogManager.DropTable | include/db25/semantic/catalog_manager.hpp:192-218 | likewise, RESTRICT and CASCADE included |
| Manager.CatalogManager.CreateIndex | include/db25/semantic/catalog_manager.hpp:224-255 | likewise |
| Manager.CatalogManager.DropIndex | include/db25/semantic/catalog_manager.hpp:258-269 | likewise |
| Manager.CatalogManager.AddColumn | include/db25/semantic/catalog_manager.hpp:274-294 | likewise |
| Manager.CatalogManager.DropColumn | include/db25/semantic/catalog_manager.hpp:301-364 | likewise, with dependents outside the table refused or detached |
| Manager.CatalogManager.SetColumnDefault | include/db25/semantic/catalog_manager.hpp:370-392 | likewise |
| Manager.CatalogManager.SetColumnNullable | include/db25/semantic/catalog_manager.hpp:402-436 | likewise; a primary key column cannot be relaxed |
| Manager.CatalogManager.DropColumnDefault | include/db25/semantic/catalog_manager.hpp:441-466 | likewise; no default is no change |
| Manager.CatalogManager.AddPrimaryKey | include/db25/semantic/catalog_manager.hpp:475-507 | likewise; a second key is refused |
| Manager.CatalogManager.AddUnique | include/db25/semantic/catalog_manager.hpp:510-533 | likewise |
| Manager.CatalogManager.AddCheck | include/db25/semantic/catalog_manager.hpp:537-560 | likewise |
| Manager.CatalogManager.AddForeignKey | include/db25/semantic/catalog_manager.hpp:563-578 | likewise |
| Manager.CatalogManager.DropConstraint | include/db25/semantic/catalog_manager.hpp:584-646 | likewise, with keys that depend on it refused or detached |
| Manager.BuildFkConstraint | include/db25/semantic/catalog_manager.hpp:666-697 | names become ids, or the key is refused |
| Manager.DetachReferrers | include/db25/semantic/catalog_manager.hpp:599-626 | column by column, refuses exactly when another table's key depends on the constraint and CASCADE is off |
| Manager.ReloadGivesMemory | include/db25/semantic/catalog_manager.hpp:4-9 | opening the file again gives the catalog in memory |
| Lines.SplitFields | src/catalog_snapshot.cpp:109-119 | the loop returns the maximal runs without spaces |
| Lines.RestAfterFields | src/catalog_snapshot.cpp:122-133 | the loop returns what follows the k-th field and its spaces |
| Lines.ReadField | src/catalog_snapshot.cpp:109-133 | a word written before a space is read back, and so is what follows |
| Lines.SplitUnlines | src/catalog_snapshot.cpp:244-256 | lines written with their newlines are the lines read |
| Snapshot.SnapshotWriter.WriteTable | src/catalog_snapshot.cpp:159-189 | a table's records, columns before constraints |
| Snapshot.SnapshotWriter.WriteConstraint | src/catalog_snapshot.cpp:171-188 | the sub-records of a constraint, by kind |
| Snapshot.SnapshotWriter.WriteIndex | src/catalog_snapshot.cpp:190-198 | the sub-records of an index |
| SnapshotStore.SerializeCatalog | src/catalog_snapshot.cpp:153-200 | the text is the snapshot of the catalog: header, then tables, then indexes, by ascending id |
| SnapshotStore.SnapshotReader.ReadLine | src/catalog_snapshot.cpp:253-353 | one line updates the reader's records and flags, or is an error, exactly as specified |
| SnapshotStore.DeserializeCatalog | src/catalog_snapshot.cpp:202-365 | the loop over the text yields the catalog it denotes, or an error |
| SnapshotTheorems.TableReads | src/catalog_snapshot.cpp:281-330 | a table's lines are read back into that table |
| SnapshotTheorems.ColumnReads | src/catalog_snapshot.cpp:288-306 | so are a column's |
| SnapshotTheorems.ConstraintReads | src/catalog_snapshot.cpp:307-330 | so are a constraint's, through every optional sub-record |
| SnapshotGrammar.AcceptanceIsExact | src/catalog_snapshot.cpp:202-365 | a text is accepted if and only if its lines follow the grammar: header first, known records with the fields they need, each inside what it belongs to, version and next table id given |
| SnapshotRoundTrip.IndexReads | src/catalog_snapshot.cpp:331-350 | so are an index's |
| SnapshotRoundTrip.CleanReadsBack | src/catalog_snapshot.cpp:153-365 | the text of a clean catalog reads back as what the format keeps of it |
| SnapshotRoundTrip.ReadIsClean | src/catalog_snapshot.cpp:202-365 | whatever text is read, the catalog it yields is clean |
| SnapshotRoundTrip.RoundTripIsExact | src/catalog_snapshot.cpp:153-365 | reading back gives the catalog if and only if it is printable |
| SnapshotRoundTrip.TextIsUnique | include/db25/semantic/catalog.hpp:114-127 | a catalog has one text |
| SnapshotRoundTrip.TextIsInjective | src/catalog_snapshot.cpp:153-200 | printable catalogs with one text are one catalog |
| SnapshotRoundTrip.LeadingSpaceIsLost | src/catalog_snapshot.cpp:147-149 | a name that passes the writer's check and does not come back |
| PrintableRuns.StepKeepsPrintable | include/db25/semantic/catalog_manager.hpp:102-646 | printable texts in the command, and room for its numbers in 32 bits, keep the catalog printable |
| PrintableRuns.StepKeepsSpacious | include/db25/semantic/catalog_manager.hpp:102-646 | a command moves the numbers of a catalog up by at most one, wide tables aside |
| PrintableRuns.RunIsPrintable | include/db25/semantic/catalog_manager.hpp:102-646 | every run of fewer than 2^31 commands with printable texts reaches a printable catalog |
| Durability.RunIsConsistent | include/db25/semantic/catalog_manager.hpp:705-716 | at every step of every run the file holds a catalog in order, and memory agrees with it |
| Durability.CrashIsAtomic | src/catalog_snapshot.cpp:393-419 | wherever a run is cut, the file reads back as the catalog before or after the command |
| Durability.CrashRestores | include/db25/semantic/catalog_manager.hpp:6-8 | a crash brings memory to one of the two |
| Durability.VersionsAreConsecutive | include/db25/semantic/catalog_manager.hpp:711-714 | watchers hear consecutive versions, the current one last |
| Durability.MemoryIsInvariant | include/db25/semantic/catalog_manager.hpp:44-49 | memory satisfies the catalog invariant in every reachable state, crashes included |
| Durability.CommitAccounts | include/db25/semantic/catalog_manager.hpp:705-716 | a commit carried through its steps has the effect the manager's method states |

## Left out

- Parser, AST arena, message texts: trees are an inductive datatype and diagnostics are codes with a
  node or a position; an operator's spelling, negation included, is part of a node's kind.
- FromClause.ResolveFrom: the duplicate-relation diagnostic is not modelled.
- FromClause.ResolveFromItem: FROM has relations, groups on the left and joins with one relation on the
  right; parenthesised groups to the right of JOIN, lateral derived tables, table functions, VALUES
  tables and the typing of ON are not modelled.
- FromClause.ResolveUsing: the missing-column diagnostic and the identity recorded on the USING
  identifier are not modelled.
- FromTheorems.BareReferenceIsSound: assumes that USING and NATURAL names are not exposed by earlier
  comma groups, which the search from index 0 would also reach, and that each is merged once.
- FromTheorems.MergeVerdictsAreExact: exact for left sides joined by ON; over a merged left side a later
  USING match can filter out the rows that would contradict a verdict.
- QualifiedReads.QualifiedReferenceIsSound: under the same assumption on merges.
- QualifiedReads.QualifiedReferenceIsExact: exact for ON joins; a later USING match can filter out the
  rows that have the column NULL.
- MergedReads.MergedReportIsTight: a column shared once by two ON-joined sides.
- Correlation.Analyzer.AnalyzeQuery: CTEs, recursive ones included, are not modelled, and neither are
  join marks and merges, which do not change the owner of a reference.
- Correlation.Analyzer.ResolveColumnRef: recorded types and the diagnostics of failed references are
  not modelled.
- Infer.NotNullIsSound: recognised operators and functions are taken as total on values that are not
  NULL; a quantified comparison ranges over a subquery or an array constructor.
- Infer.QuantifiedIsExact: the left side is an integer literal or a NOT NULL column, and elements are
  other columns or NULL, as a literal element may decide the comparison by its value.
- NullTightness.StrictIsExact: operators and functions that are NULL as soon as an operand is, over any
  leaves; whether a function is known does not depend on its arguments.
- NullTightness.OperatorIsExact: operands are different columns, as two parts that read one column can
  exclude each other's NULL.
- TypeSoundness.TypeIsSound: function signatures and the types of date literals are taken from the
  environment; operands of arithmetic, concatenation, CASE and the functions that return an argument have
  known types, and without that the type can be wrong ("Where a property fails").
- Infer.InIsSound: IN over a subquery is not modelled.
- InferWalk.Inference.InferExpr: window calls, FILTER, the report of an expression that is too deep, and
  diagnostics other than the two constant warnings and the mismatch of branches are not modelled.
- InferWalk.Inference.InferBinary: coercion and boolean-context diagnostics are not modelled.
- InferWalk.Inference.InferCall: arity diagnostics are not modelled; function signatures and type names
  are parameters (`Facts`), so their tables are not checked.
- InferWalk.Inference.InferCase: diagnostics about the type of a guard are not modelled.
- Grouping.GroupingCheck.CheckGroupingExpr: windowed calls are not modelled, and the exemption of ORDER
  BY items that name an output column is not either; how a GROUP BY item becomes a key by position or
  alias is given by the three cases of `KeySource`.
- GroupingTheorems.AcceptedIsDetermined: for whole expressions one way, with no subqueries, references
  in the block, no merged columns, and an expression within the depth limit; a reference spelled like an
  expression key must be a key itself.
- GroupingExact.VerdictIsExact: expression keys that read the column are excluded, as it then depends on
  the function whether their value determines the column.
- GroupingSets.KeyReader.ExprReadsGroupingKey: windowed calls are not modelled.
- GroupingSets.NotNullSurvivesGroupingSets: nulled keys are columns with an identity, as the re-mark
  skips all others.
- CheckEval.Evaluator.Evaluate: floating point is not modelled, a float literal gives up here; the
  choice of constraints to evaluate and the coercion of inserted literals are outside.
- CheckExact.VerdictIsExact: no BETWEEN is coarse; a coarse one folds to NULL where FALSE is known.
- SetOps.AnalyzeSetOp: nullability only; types are `Types.ReconcileFromFirst`, and the arity diagnostic
  is not modelled.
- SetOps.ClaimsAreSound: branches of unequal arity, which are diagnosed, are excluded.
- Manager.CatalogManager.CreateTable: column names are distinct, which the code leaves to its caller.
- Manager.CatalogManager.constructor: a readable snapshot may break the catalog invariant; then the
  manager is not `Valid()` and nothing is promised of its commands.
- Manager.ReloadGivesMemory: for printable catalogs; `PrintableRuns.RunIsPrintable` says which runs keep
  to them.
- SnapshotGrammar.AcceptanceIsExact: says which texts are read; what a text that no writer produced is
  read as is given by `DeserializeCatalog` only.
- SnapshotStore.SerializeCatalog: table ids are distinct and so are index ids, as every run keeps them;
  with repeated ids the order of the text is not determined.
- Durability.CrashIsAtomic: commands have printable texts, fewer than 2^31 changes are committed, fsync
  succeeds, and the rename is atomic and durable (the directory is not synced by the code).
- The wrap of 32-bit ids and versions: numbers are unbounded outside `PrintableRuns` and `Durability`.
- Names unique among a table's constraints: CREATE TABLE does not check them, so they are not part of
  the invariant.
- `src/ddl.cpp`, `src/transaction.cpp` and the INSERT, UPDATE, DELETE and LIMIT checks: plumbing
  around the manager and the inference engine, or single-branch checks.
