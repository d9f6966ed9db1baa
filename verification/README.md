# Verified models of the Kconfig engine, the RV32 interpreters and three small algorithms

Each file is one module (or two) about one part of the repository.

**Kconfig (tools/kconfig).** Dependency expressions are trees over AND, OR, NOT, comparisons and symbols, with the
three values n < m < y.

- `Tristates`, `Exprs`: the lattice, expressions, environments and evaluation. An environment gives every symbol a
  value and a text; a valid one gives y, m and n themselves, agrees on value and text of bool and tristate symbols,
  and never gives a bool symbol m. The C library's number parser is a parameter.
- `ExprEquality`, `ExprForms`, `ExprTransform`, `ExprJoin`, `ExprDups`: the simplifiers on trees, with their meaning,
  their normal forms and their termination. `ExprDups` walks an expression against itself through two pointers
  that share one row of operands; `DedupLimits` says when that keeps the value.
- `Orderings`: the six comparisons by the order of what is compared.
- `ExprNodes`, `ExprCopies`: the simplifiers that overwrite nodes, proved against the functions on trees.
- `ExprText`: the printer and the shift-reduce parser of the expression grammar. `Grammar`: the grammar by itself, as
  derivations, which the parser accepts exactly.
- `MenuConditions`: the conditions that `menu_finalize` computes and the decision about automatic submenus.
  `Submenus`: when that decision is wrong.
- `MenuTree`: the restructuring of the menu by pointer surgery and the walk without a stack. Which entry joins the
  submenu of which is a parameter: every pair is decided at most once, so a fixed relation covers every outcome of
  the conditions. `MenuNesting`: the same restructuring as one pass with a stack, which determines the result.
- `SymbolGraph`: the dependency check by depth-first search. `SymbolValues`, `UserValues`: the value equations of
  symbols, their unique solution, the caching evaluator, and setting a value from outside. `FollowedEdges` says which
  edges the graph has by what is written in conditions, `ValueMeaning` what the solution is by the values of conditions.
- `Preprocess`: macro expansion with its expansion counts. Environment and shell output are parameters. `MacroCalls`:
  calls with arguments as substitution.
- `QuotedStrings`: the escaper and the in-place decoder of string values.

**RV32.** `Isa` (with `MachineWords`) defines RV32IM, the fences and the AMOs after the RISC-V Unprivileged ISA
20191213, chapters 2, 3, 7 and 8, independently of both interpreters; an instruction or situation in which a hart
would trap or leave this subset is *excluded*. `WordNumbers`, `IsaNumbers`, `IsaFields`, `IsaMemory` and `IsaSteps` say
what that definition computes, as arithmetic on the numbers that words stand for. `Rv32Dut` models the interpreter under
test, `Rv32Ref` the reference, and both are proved against the definition, `WordProducts` supplying the arithmetic.
Neither meets it everywhere: the interpreter under test knows the fences only with zeros in the fields that the
instruction set ignores, and the reference wants four bytes of RAM for accesses of any width. Each is proved equal to
the definition if and only if its condition holds, and `Lockstep`, which runs them side by side, proves that they agree
if and only if both do. RAM starts at 0x80000000; its size and whether misaligned accesses are supported are parameters;
jump targets are multiples of four (compressed instructions are off).

**Others.** `GdbPackets`: sending and receiving packets of the GDB Remote Serial Protocol; `PacketBytes`: the same in
terms of bytes, runs and a total. `InstPatterns`: pattern strings of the instruction decoder; `PatternWords` (with
`WordBits`) and `InstTable` apply it to the table of the interpreter under test. `Div64`: 64-by-32-bit division. `Powers`: powers of two.

Some results are negative; each comes with a concrete input and with the condition under which the code does meet
the property:

- `expr_join_and` joins (a=b) && (a!=c) wrongly if and only if b and c are different constants that both denote the
  value of a (`JoinOperandsExactly`; `EqualAndUnequalAlways` for all values of a). Deduplication keeps the value of
  every expression over given constants if and only if no two of the constants that can be derived from them denote
  the same value (`DedupKeepsExactly`; inputs: `DedupMistakesNumerals`, `DedupMistakesDerivedTests`).
- `expr_trans_compare` is right on a symbol if and only if its text shows its value (`TransCompareOfSymbol`), on a
  negation if and only if what is negated is not m (`TransCompareOfNegation`), and for comparisons with m under the
  condition of `TransCompareWithM`. So the superset test of `menu_finalize` can put an entry below a prompt that is
  invisible while the entry is visible (`PlaceMisreadsNegation`): some prompt does so if and only if the entry's
  condition reads as n without being n, and its reading is a conjunction (`MisplacedExactly`).
- `expr_eq` is equality up to order and grouping if no operand is y or n (`ExprEqIsForm`), and need not be otherwise
  (`UncleanEquality`).
- The rewrite of `expr_trans_bool` keeps a negated test against n if and only if the symbol is not m
  (`TransBoolOfNegatedTest`); its caller passes normal forms, where no such test occurs.
- `sym_set_tristate_value` accepts the current value without a range check, and at the next recalculation the symbol
  can drop to its visibility (`ConfirmingCanLower`; the condition is that of `UserValueHonoured`).
- A clause of exactly 17 parts passes the check of `eval_clause` and is written behind its table of 16 arguments
  (`OverrunExactly`, `SixteenCommasOverrun`).
- A byte or half-word access in the last three bytes of RAM is retired by the interpreter under test and trapped by
  the reference (`RunAtTheEnd`); FENCE.TSO and other fences with nonzero fields the other way round (`RunFenceTso`).
  `Compare` has the exact condition.

Where the code and its comments differ the models follow the code: the comment above `expr_eq` calls two chains equal
if every operand of one equals some operand of the other, but the code cancels operands one to one, so that
`A && A && B` and `A && B && B` are not equal (`ChainsEqual`).

## Model

| member | source | states |
|---|---|---|
| Exprs.LogicCompare | tools/kconfig/expr.c:1068-1096 | comparing a bool or tristate symbol with y, m or n for equality is comparing their tristate values, in both directions |
| Exprs.DenotedEquals | tools/kconfig/expr.c:994-1083 | a bool or tristate symbol equals a constant if and only if it has the value the constant denotes: y, m and n denote theirs, a numeral for 0, 1 or 2 denotes n, m or y, and other constants denote none |
| Orderings.TextsOrdered | tools/kconfig/expr.c:1068-1101 | symbols of which one has a text that is no number, or that are both strings, are ordered as texts: by their first different byte or the end of the shorter; all six comparisons follow |
| Orderings.NumbersOrdered | tools/kconfig/expr.c:1068-1101 | other symbols are ordered as signed numbers, or as unsigned numbers of 64 bits where one of them is unsigned; all six comparisons follow |
| Orderings.TristatesOrdered | tools/kconfig/expr.c:1003-1008 | two bool or tristate symbols are ordered n < m < y |
| ExprEquality.EliminateYnSound | tools/kconfig/expr.c:316-397 | eliminating y and n operands keeps the value in every environment |
| ExprEquality.EliminateYnShape | tools/kconfig/expr.c:316-397 | no join keeps a y or n operand; an expression without any is returned unchanged; otherwise a leaf disappears |
| ExprEquality.CancelEqualSound | tools/kconfig/expr.c:150-188 | cancellation takes one and the same value out of both sides: put back with the connective it restores both original values |
| ExprEquality.ExprEqSound | tools/kconfig/expr.c:252-303 | two expressions found equal have the same value in every environment, through the mutual recursion with cancellation |
| ExprEquality.CancelReflectsOrder | tools/kconfig/expr.c:150-188 | an order between what is left of two sides was an order between the sides themselves |
| ExprEquality.SupersetTest | tools/kconfig/expr.c:221-241 | when cancelling leaves y of the second expression, the first is bounded by the second in every environment, whatever the two root connectives |
| ExprForms.CancelParts | tools/kconfig/expr.c:150-188 | on chains of one connective with clean operands (no y or n inside) cancellation is one-to-one: each side keeps the multiset difference of the forms of its operands |
| ExprForms.ChainsEqual | tools/kconfig/expr.c:252-303 | two chains of one connective with clean operands are equal if and only if both contain its zero, or neither does and their operands other than the unit have the same forms as often |
| ExprForms.ExprEqIsForm | tools/kconfig/expr.c:252-303 | clean expressions, nested to any depth, are equal if and only if they are the same tree up to order and grouping of the operands of each connective, with their multiplicities |
| ExprForms.ExprEqIsEquivalence | tools/kconfig/expr.c:252-303 | so equality is reflexive, symmetric and transitive on clean expressions |
| ExprForms.UncleanEquality | tools/kconfig/expr.c:252-303 | without that condition it is no such relation: (A && y) || B equals A || B although A && y does not equal A |
| ExprForms.SupersetIsParts | tools/kconfig/expr.c:221-241 | cancellation leaves y of the second of two clean expressions if and only if it is y, or the first is a conjunction that has every operand of the second, taken as a conjunction, as often |
| ExprCopies.CancelInPlace | tools/kconfig/expr.c:150-188 | cancelling on nodes, operand pointers being replaced on both sides, leaves exactly the two trees of the specification, in separate memory |
| ExprCopies.EliminateEqInPlace | tools/kconfig/expr.c:221-241 | both rounds of cancellation and the constant elimination on nodes |
| ExprCopies.EqualOnCopies | tools/kconfig/expr.c:252-303 | the comparison works on copies: it decides equality and modifies neither argument |
| ExprTransform.TransformSound | tools/kconfig/expr.c:694-849 | transformation keeps the value in every environment |
| ExprTransform.TransformNormal | tools/kconfig/expr.c:694-849 | the result is in negation normal form and tests no bool symbol for y, m or n |
| ExprTransform.TransformFixpoint | tools/kconfig/expr.c:694-849 | the fixed points are exactly the normal forms, and transforming twice is transforming once |
| ExprTransform.NormalIsQuiet | tools/kconfig/expr.c:402-426 | in a normal form the bool rewrite touches nothing below a negation |
| ExprTransform.TransBoolKeepsVisibility | tools/kconfig/expr.c:402-426 | where nothing below a negation is rewritten, dropping tests against n never raises the value and never changes whether it is n |
| ExprTransform.TransBoolOfNegatedTest | tools/kconfig/expr.c:402-426 | the condition on negations is sharp: on a negated test against n the rewrite keeps the value, and whether it is n, if and only if the symbol is not m (menu.c:405 passes normal forms, which contain no such test) |
| ExprTransform.TransBoolDropsTests | tools/kconfig/expr.c:402-426 | no test of a tristate against n is left, and an expression is unchanged exactly if it has none |
| ExprTransform.TransCompareIsCrisp | tools/kconfig/expr.c:922-985 | for c = y or n the rewritten comparison of any expression is y or n according to its two-valued reading, in every environment |
| ExprTransform.CrispIsValue | tools/kconfig/expr.c:922-985 | that reading is "has the value" whenever no negated subterm is m and the texts of the symbols show their values |
| ExprTransform.NotCrispNotNo | tools/kconfig/expr.c:922-985 | on a normal form what does not read as n is not n, whatever its negations are |
| ExprTransform.TransCompareDecides | tools/kconfig/expr.c:922-985 | then the rewritten expression is y exactly when the expression has (or lacks) the value, and n otherwise |
| ExprTransform.TransCompareOfNegation | tools/kconfig/expr.c:922-985 | on a negation the answer is right if and only if the negated expression is not m |
| ExprTransform.TransCompareOfSymbol | tools/kconfig/expr.c:977-981 | on a symbol the answer is right if and only if its text shows whether it has the value |
| ExprTransform.TransCompareOfText | tools/kconfig/expr.c:977-981 | a symbol of value n is answered rightly for n if and only if its text is "n", and for y if and only if its text is not "y" |
| ExprTransform.TransCompareWithM | tools/kconfig/expr.c:922-985 | when comparing with m is answered rightly, for every expression: a join only where it is n, a negated join only where the join is y, a comparison always and its negation never, a negated symbol only where the symbol does not show it |
| ExprTransform.RewriteMBoundsM | tools/kconfig/menu.c:82-105 | rewriting m to m && MODULES gives the value of the original read with m bounded by MODULES |
| ExprJoin.EqualAndUnequalAlways | tools/kconfig/expr.c:540-553 | the rule for (a=b) && (a!=c) is right for every value of a if and only if b and c are the same constant, or b denotes no value, or they denote different values |
| ExprJoin.JoinOperandsExactly | tools/kconfig/expr.c:431-587 | each joining rule keeps the value of the pair, in every environment, if and only if it is not that rule applied to two constants that both denote the value of the symbol |
| ExprJoin.JoinOperandsSound | tools/kconfig/expr.c:431-587 | so every rule keeps the value where no two constants that a tristate is, or can come to be, compared with denote the same value |
| ExprJoin.JoinOperandsDerivable | tools/kconfig/expr.c:431-587 | the joined operand tests a symbol only for what the pair tests it for, or for y, m and n where those can be derived |
| ExprJoin.JoinOperandsShape | tools/kconfig/expr.c:431-587 | the joined operand has fewer leaves than the pair, stays normal and is no join of the same connective |
| ExprJoin.JoinedExactly | tools/kconfig/expr.c:431-587 | two operands are joined if and only if they are equal or one of the listed kinds of pairs, in either order |
| ExprJoin.JoinMistakesNumerals | tools/kconfig/expr.c:540-553 | (a="1") && (a!=m) is n for a = m and is joined into (a="1"), which is y |
| ExprJoin.JoinMistakesDerivedTests | tools/kconfig/expr.c:456-553 | ((a=y) || (a=m)) && (a="0"), whose constants all denote different values, is joined in two steps into (a="0"), which for a = n is y instead of n |
| ExprDups.RebuildOperands | tools/kconfig/expr.c:596-612 | the nodes of the root connective and the row of operands below them determine the expression, and back |
| ExprDups.RowsWalked | tools/kconfig/expr.c:596-612 | comparing the operands below one pointer with those below another, both writing to one shared row, refines the row; nothing is counted if and only if no pair could be joined, and then nothing changed |
| ExprDups.Deduplicator.Walk | tools/kconfig/expr.c:596-612 | the two-pointer walk over shared cells computes that row and count |
| ExprDups.Deduplicator.Meet | tools/kconfig/expr.c:614-652 | one pair of operands: nested pass, pointer test and join, on the cells |
| ExprDups.PassedRefines | tools/kconfig/expr.c:596-655 | a pass of an expression against itself keeps the value, does not add leaves, and counts nothing exactly when no two operands of any level could be joined |
| ExprDups.Deduplicator.Pass | tools/kconfig/expr.c:596-655 | the pass over cells computes that expression and count |
| ExprDups.DeduplicatedKeeps | tools/kconfig/expr.c:664-686 | passes and constant elimination in turn end, keep the value in every environment where no two constants that a tristate can come to be compared with denote the same value, make no comparison beyond those, keep normal forms, leave no two operands of any level that could be joined, and leave an expression alone that has none |
| ExprDups.DeduplicatedYnFree | tools/kconfig/expr.c:664-686 | what is changed at all ends without y and n operands |
| ExprDups.Deduplicator.EliminateDups | tools/kconfig/expr.c:664-686 | the loop computes that expression and restores the shared counter |
| DedupLimits.DedupKeepsExactly | tools/kconfig/expr.c:664-686 | deduplication keeps the value of every expression that tests a tristate for given constants only, whatever the value of the tristate, if and only if no two of the constants that can be derived from these denote the same value |
| DedupLimits.DedupMistakesNumerals | tools/kconfig/expr.c:540-553 | (a="1") && (a!=m), which is n for a = m, is deduplicated to (a="1"), which is y |
| DedupLimits.DedupMistakesDerivedTests | tools/kconfig/expr.c:456-553 | ((a=y) || (a=m)) && (a="0"), whose constants denote different values and which is n for a = n, is deduplicated to (a="0"), which is y |
| ExprNodes.Node.EliminateYnInPlace | tools/kconfig/expr.c:316-397 | constant elimination overwriting the nodes it is given |
| ExprNodes.Node.TransBoolInPlace | tools/kconfig/expr.c:402-426 | the bool rewrite overwriting the nodes it is given |
| ExprNodes.Copy | tools/kconfig/expr.c:66-105 | a copy has the same tree and shares no node |
| ExprNodes.TransformInPlace | tools/kconfig/expr.c:694-849 | transformation overwriting nodes ends, by a weight that doubles under negation, with the transformed tree |
| ExprNodes.Distribute | tools/kconfig/expr.c:794-811 | one De Morgan step re-uses the negated join as the negation of its own left operand |
| ExprNodes.PushNegation | tools/kconfig/expr.c:760-846 | the negation cases of the transformation on nodes |
| ExprText.LeftNestedMeaning | tools/kconfig/expr.c:1138-1228 | re-association to the left keeps the value |
| ExprText.LeftNestedForm | tools/kconfig/expr.c:1138-1228 | re-association gives a left-nested expression and leaves one alone exactly if it is left-nested |
| ExprText.ParsePrint | tools/kconfig/expr.c:1104-1228 | shift-reduce parsing with the grammar's precedences, applied to what the printer writes, gives the expression back with its chains nested to the left |
| ExprText.RoundTrip | tools/kconfig/parser.y:447-458 | so printing and parsing is the identity if and only if the expression is left-nested, is always accepted, and always keeps the value |
| Grammar.ParsesExactly | tools/kconfig/parser.y:87-91 | shift-reduce parsing accepts a sequence of tokens as an expression if and only if the grammar with its precedences derives the sequence with that meaning; everything else is rejected |
| Grammar.DerivedAccepted | tools/kconfig/parser.y:447-458 | in particular every text the grammar derives is accepted with its meaning, redundant parentheses included |
| Grammar.ParenthesesIgnored | tools/kconfig/parser.y:454 | parentheses around a whole expression change nothing |
| Grammar.PrintedExactly | tools/kconfig/expr.c:1104-1228 | the printer puts parentheses around a disjunction below a conjunction and around a join below a negation, and nowhere else |
| MenuConditions.Inherit | tools/kconfig/menu.c:356-360 | the propagated condition has the smaller of the two values (m bounded by MODULES in the own one), is normal and has no joinable operands |
| MenuConditions.PropertyVisibility | tools/kconfig/menu.c:400-406 | the condition of a property: equal to that for a tristate, and for other symbols not above it and n exactly when it is n |
| MenuConditions.DependsOnSymbolSound | tools/kconfig/expr.c:879-906 | an expression with an absolute dependency on a symbol is n whenever the symbol is n |
| MenuConditions.DependsOnSymbolExactly | tools/kconfig/expr.c:879-906 | the dependency is found if and only if an operand of the conjunction is the symbol, a test of it for y or m, or a test of it against n |
| FollowedEdges.ContainsExactly | tools/kconfig/expr.c:851-877 | a symbol is found in an expression if and only if it is a word of the printed text |
| MenuConditions.ReadingIsSeen | tools/kconfig/menu.c:456-458 | "the condition is not n", rewritten and transformed, is y or n according to the two-valued reading of the condition, for every condition and environment |
| MenuConditions.IsVisible | tools/kconfig/menu.c:456-458 | the method computes its deduplication, which still is that reading where no two constants in it denote the same value, and is normal |
| MenuConditions.SupersetTestSeen | tools/kconfig/menu.c:480-491 | passing the superset test means that the prompt's condition reads as something else than n whenever the entry's does |
| MenuConditions.Place | tools/kconfig/menu.c:460-491 | the three answers exactly: an absolute dependency, else a condition that contains the symbol and passes the superset test, else outside; whenever an entry placed by that test is seen, a prompt whose condition is a normal form is visible |
| Submenus.ReadingOfNormal | tools/kconfig/menu.c:456-458 | the test of a normal form against n tests its symbols one by one |
| Submenus.MisplacedExactly | tools/kconfig/menu.c:455-491 | in an environment there is a prompt below which an entry is put although it is visible and the prompt is not, if and only if the entry's condition is not n but reads as n, and its deduplicated reading is a conjunction |
| Submenus.ReadableIsPlacedRightly | tools/kconfig/menu.c:455-491 | there is none where no negated subterm of the entry's condition is m |
| Submenus.PlaceMisreadsNegation | tools/kconfig/menu.c:455-491 | the placement of an entry that depends on (S || Q) && !A below the prompt of S that depends on A=n, although with all three at m the entry is visible and the prompt is not |
| SymbolGraph.AcyclicHasNoCycle | tools/kconfig/symbol.c:1250-1279 | a ranking of the symbols excludes closed walks |
| SymbolGraph.CycleOnWalk | tools/kconfig/symbol.c:1250-1265 | a symbol met again while it is being checked closes a walk |
| FollowedEdges.EdgesExactly | tools/kconfig/symbol.c:1165-1210 | a symbol has an edge to another if and only if the other occurs in its dependency, reverse dependency or implication, in the condition of one of its properties other than selects and implies, or in the value of one of its defaults |
| FollowedEdges.SelectsDoNotMatter | tools/kconfig/symbol.c:1190-1205 | deleting all selects and implies, and the expressions of all properties but defaults, changes neither acyclicity nor the existence of cycles |
| FollowedEdges.CheckBoth | tools/kconfig/parser.y:514-519 | so the check counts nothing in the reduced graph if and only if it counts nothing in the whole one |
| SymbolGraph.DependencyChecker.CheckExpr | tools/kconfig/symbol.c:1130-1162 | the mutually recursive check ends, restores the stack and the flags, reports only real cycles, and without a report has completed every mentioned symbol |
| SymbolGraph.DependencyChecker.CheckProperties | tools/kconfig/symbol.c:1190-1205 | the property loop completes what all properties mention |
| SymbolGraph.DependencyChecker.CheckProperty | tools/kconfig/symbol.c:1190-1205 | one property: visibility conditions of all but select and imply, expressions of defaults |
| SymbolGraph.DependencyChecker.CheckSymbolDeps | tools/kconfig/symbol.c:1165-1210 | the edges of a symbol are all followed |
| SymbolGraph.DependencyChecker.CheckSymbol | tools/kconfig/symbol.c:1250-1279 | the same for one symbol, with the flags |
| SymbolGraph.DependencyChecker.CheckAll | tools/kconfig/parser.y:514-519 | the loop counts no error if and only if the graph is acyclic, if and only if it has no cycle, and leaves no symbol flagged as being checked |
| SymbolValues.SolutionUnique | tools/kconfig/symbol.c:325-447 | on a graph accepted by the check the value equations have at most one solution |
| SymbolValues.SolutionExists | tools/kconfig/symbol.c:325-447 | and they have one |
| SymbolValues.SolutionIsEnvironment | tools/kconfig/symbol.c:404-417 | in the solution no bool symbol is m, and no symbol is m while modules are off, so the expression theorems apply to it |
| SymbolValues.RewrittenVisibility | tools/kconfig/symbol.c:190-203 | the rewrite of expr_trans_bool does not change the visibility of a symbol that is not a tristate, because m is promoted to y |
| ValueMeaning.AssignmentShown | tools/kconfig/symbol.c:769-791 | in the environment of an assignment every symbol has its value, and its text shows it, m as n while modules are off |
| ValueMeaning.ConnectiveValues | tools/kconfig/expr.h:47-49 | when conjunctions, disjunctions and negations are n and when they are y |
| ValueMeaning.VisibilityExactly | tools/kconfig/symbol.c:183-207 | the visibility of a symbol is that of its most visible prompt, m counting as y for a symbol that cannot be m |
| ValueMeaning.ConditionsExactly | tools/kconfig/symbol.c:210-237 | so are dependency, reverse dependency and implication, y and n standing for missing ones |
| ValueMeaning.OtherTypesAreNo | tools/kconfig/symbol.c:353-357 | symbols of other types are n in conditions |
| ValueMeaning.ValueExactly | tools/kconfig/symbol.c:364-417 | the value of every bool and tristate symbol in the solution, told by the values of its conditions: the user's value up to the most visible prompt, or else the first default that applies, raised by an implication up to the dependency; and always at least the reverse dependency |
| ValueMeaning.SelectedAtLeast | tools/kconfig/symbol.c:410 | no symbol is below its reverse dependency, visible or not, whatever the user says |
| ValueMeaning.DefaultTaken | tools/kconfig/symbol.c:392-399 | without a user's value in force, selection and implication a symbol has the value of its first default whose condition is not n, cut down to that condition, and n without one |
| ValueMeaning.ImpliedUpToDependency | tools/kconfig/symbol.c:400-405 | an implication raises a symbol to at most its direct dependency, and at least to the lower of the two |
| ValueMeaning.WrittenExactly | tools/kconfig/symbol.c:350-404 | a symbol is written if and only if it is visible, selected, implied or has a default other than n; every symbol that is not n is |
| SymbolValues.FormulaLocal | tools/kconfig/symbol.c:325-447 | the equation of a symbol depends only on the symbols that the dependency check follows from it |
| SymbolValues.Calculator.CalcExpr | tools/kconfig/expr.c:1030-1102 | evaluating an expression yields its value in the solution, whatever has been cached before |
| SymbolValues.Calculator.CalcVisibility | tools/kconfig/symbol.c:177-238 | visibility, dependency, reverse dependency and implication of a symbol in the solution |
| SymbolValues.Calculator.CalcDefault | tools/kconfig/symbol.c:83-93 | the first default that applies |
| SymbolValues.Calculator.CalcTristate | tools/kconfig/symbol.c:364-417 | the bool and tristate case computes the right-hand side of the equation in the solution |
| SymbolValues.Calculator.CalcValue | tools/kconfig/symbol.c:325-447 | a symbol flagged valid has its final value, although the flag is set before the value is computed |
| SymbolValues.Calculator.Query | tools/kconfig/symbol.c:325-447 | for every order of queries, with repetitions, each symbol gets its value in the unique solution |
| UserValues.UserValueHonoured | tools/kconfig/symbol.c:499-533 | a visible symbol takes a given value if and only if it is not below what selects it, not above its visibility unless equal to what selects it, and not m for a symbol that behaves as a bool |
| UserValues.InRangeIsHonoured | tools/kconfig/symbol.c:480-497 | every value in range is accepted and is the next value |
| ValueMeaning.RangeExactly | tools/kconfig/symbol.c:480-505 | a value is in range if and only if the symbol is visible beyond what selects it and would have the value next; refused are exactly the values out of range other than the current one |
| UserValues.ConfirmingCanLower | tools/kconfig/symbol.c:499-505 | a concrete symbol whose value, recalculated, is lower than the current one that the user has just confirmed |
| MenuTree.FinalizePreorder | tools/kconfig/menu.c:431-585 | restructuring keeps the preorder sequence of entries, for every decision about submenus |
| MenuTree.FinalizeTidy | tools/kconfig/menu.c:575-584 | below a finalised entry only entries with a prompt have entries below them |
| MenuNesting.MenuIsPassed | tools/kconfig/menu.c:431-585 | below an entry of the menu every entry ends up, at every level, with the ancestors that one pass from top to bottom with a stack of open entries gives it |
| MenuNesting.PassDetermines | tools/kconfig/menu.c:431-585 | and no other arrangement has those ancestors |
| MenuNesting.ParentsPassed | tools/kconfig/menu.c:493-502 | after restructuring on links the parent link of every entry is the innermost ancestor that the pass gives |
| MenuNesting.SymbolTakes | tools/kconfig/menu.c:461-502 | a symbol with nothing below it takes the entry that follows if and only if that joins it, stops before the first that does not, and takes only entries that join it or stood below one without a prompt |
| MenuNesting.OthersTakeNothing | tools/kconfig/menu.c:438-502 | an entry that has entries below it, or no symbol, takes none of those that follow |
| MenuTree.Menu.FinalizeEntry | tools/kconfig/menu.c:431-585 | the pointer surgery yields the finalised row with every parent link naming the actual parent, and touches no other entry |
| MenuTree.Menu.AbsorbFollowing | tools/kconfig/menu.c:461-502 | the entries that belong below are cut out of the row and hung below the symbol, each finalised before the next is looked at |
| MenuTree.Menu.FlattenRow | tools/kconfig/menu.c:575-584 | the flattening loop with the parent links it rewrites |
| MenuTree.Climb | tools/kconfig/confdata.c:900-911 | climbing ends at the next entry of the first ancestor whose row goes on, or without one at the root |
| MenuTree.Forward | tools/kconfig/confdata.c:893-911 | one turn of the walk goes into the submenu, else along the row, else to where an ancestor's row goes on |
| MenuTree.WalkMenu | tools/kconfig/confdata.c:868-912 | the stackless walk ends and visits each entry exactly once, in preorder |
| MenuTree.FinalizeAndWalk | tools/kconfig/confdata.c:868-912 | after restructuring, the walk visits the entries of the original menu in their original order |
| Preprocess.EnterSpends | tools/kconfig/preprocess.c:251-277 | entering a variable spends one unit of a budget that is finite because of the depth limit |
| Preprocess.ExpandSame | tools/kconfig/preprocess.c:251-277 | expansion counts only decide whether expansion fails: where it succeeds the text does not depend on them |
| Preprocess.ReferenceExpands | tools/kconfig/preprocess.c:453-488 | a reference by name is replaced by what calling the name gives, whatever follows |
| Preprocess.SimpleReference | tools/kconfig/preprocess.c:251-277 | a reference to a variable that was expanded when it was defined gives its value |
| Preprocess.SelfReferenceRefused | tools/kconfig/preprocess.c:255-260 | a reference without arguments to a variable being expanded is refused |
| MacroCalls.ArgumentReference | tools/kconfig/preprocess.c:357-365 | a reference by decimal numeral is replaced by the argument of that number, counted from 1, whatever follows |
| MacroCalls.NumeralForms | tools/kconfig/preprocess.c:362-363 | white space and a plus sign before a numeral do not matter, a minus sign counts modulo 2^64, and text behind the digits makes it no number |
| MacroCalls.NumberOutOfRange | tools/kconfig/preprocess.c:357-365 | a reference by a number no argument has is a reference by name |
| MacroCalls.CallExpands | tools/kconfig/preprocess.c:384-437 | a call with up to 15 arguments is replaced by what its name gives for the expansions of the arguments |
| MacroCalls.TemplateFilled | tools/kconfig/preprocess.c:357-365 | expanding a text with arguments in scope puts the k-th argument wherever it has $(k) |
| MacroCalls.CallSubstitutes | tools/kconfig/preprocess.c:251-277 | a call of a recursive variable is replaced by the text of the variable with the expansion of the k-th argument for every $(k) |
| MacroCalls.EndlessCallRefused | tools/kconfig/preprocess.c:255-264 | a variable whose value is a call of itself is given up as too deep |
| MacroCalls.FindFirst | tools/kconfig/preprocess.c:239-249 | the variable found is the first of that name |
| MacroCalls.OtherNames | tools/kconfig/preprocess.c:112-222 | what a name that is no variable stands for, by name and number of arguments |
| MacroCalls.TokenExpands | tools/kconfig/preprocess.c:559-574 | a token ends before the first character that is not of a word |
| Preprocess.ClosingMeaning | tools/kconfig/preprocess.c:469-486 | the closing parenthesis found is the first one at which more are closed than opened, and none is found only if there is none |
| Preprocess.SplitExactly | tools/kconfig/preprocess.c:384-400 | the parts of a clause are the one way to write it as texts, balanced but for the last and without a comma outside parentheses, joined by commas |
| Preprocess.OverrunExactly | tools/kconfig/preprocess.c:384-400 | a clause overruns the table of arguments if and only if it is no argument reference and has exactly 17 parts, for the check at line 387 looks only at commas |
| Preprocess.SixteenCommasOverrun | tools/kconfig/preprocess.c:384-400 | a clause of sixteen commas does, whatever the variables |
| Preprocess.ExpandWord | tools/kconfig/preprocess.c:495-537 | text without a dollar sign expands to itself |
| Preprocess.Expander.ExpandString | tools/kconfig/preprocess.c:495-537 | the expansion loop gives the specified text for every string and variable table in which no clause overruns the table of arguments, names the clause where one does, ends, and on success restores every count |
| Preprocess.Expander.ExpandReference | tools/kconfig/preprocess.c:453-488 | a parenthesised reference up to its matching parenthesis; a lone dollar stands for itself |
| Preprocess.Expander.FindClosing | tools/kconfig/preprocess.c:469-486 | the scan with its nesting counter |
| Preprocess.Expander.EvaluateClause | tools/kconfig/preprocess.c:346-444 | argument references, splitting at commas outside parentheses, the errors for 18 parts and more and the overrun for 17, and expansion of each part before the call |
| Preprocess.Expander.SplitParts | tools/kconfig/preprocess.c:384-400 | the comma loop with its nesting counter |
| Preprocess.Expander.CallByName | tools/kconfig/preprocess.c:412-430 | variables before built-in functions before the environment, with the count raised around the nested expansion |
| QuotedStrings.BufferSize | tools/kconfig/symbol.c:882-894 | the size computed before allocation is exactly that of the quoted text with its terminator |
| QuotedStrings.Escape | tools/kconfig/symbol.c:875-916 | the buffer is filled exactly and ends in its only terminator |
| QuotedStrings.UnescapeEscape | tools/kconfig/confdata.c:261-275 | decoding undoes escaping, whatever follows the closing quote |
| QuotedStrings.QuotedInjective | tools/kconfig/symbol.c:875-916 | no two strings are written alike, even as the beginning of a longer line |
| QuotedStrings.EscapesExactly | tools/kconfig/symbol.c:895-916 | a backslash is put before quotes and backslashes and before nothing else |
| QuotedStrings.UnescapeOutcome | tools/kconfig/confdata.c:261-275 | decoding gives a value if and only if a quote behind an even number of backslashes closes the string |
| QuotedStrings.UnescapeUnits | tools/kconfig/confdata.c:261-275 | a backslash is dropped and whatever follows it is kept, be it special or not |
| QuotedStrings.Decode | tools/kconfig/confdata.c:261-275 | deleting backslashes in place leaves the decoded string if and only if a quote closes the line, and rejects every other NUL-free line, one that ends in a lone backslash included; nothing behind the terminator is touched and every access is in bounds |
| GdbPackets.HexRoundTrip | tools/qemu-diff/src/protocol.c:39-52 | decoding two digits undoes encoding a byte, in either case of letters |
| GdbPackets.ReceiveValid | tools/qemu-diff/src/protocol.c:174-274 | every valid encoding, with escapes and repetitions, decodes to its bytes after any leading bytes other than the start marker; the flag is the comparison of the checksums |
| GdbPackets.ReceiveRestarted | tools/qemu-diff/src/protocol.c:192-196 | a packet interrupted by the start of another leaves no trace |
| GdbPackets.Send | tools/qemu-diff/src/protocol.c:138-159 | the checksum loop and the three writes |
| GdbPackets.ReceiveSent | tools/qemu-diff/src/protocol.c:138-159 | receiving undoes sending for commands free of the four markers, with a true checksum flag and the rest of the input untouched |
| PacketBytes.SumIsTotal | tools/qemu-diff/src/protocol.c:141-143 | the checksum is the total of the bytes modulo 256 |
| PacketBytes.FlipIsXor | tools/qemu-diff/src/protocol.c:250-254 | an escaped byte is exclusive-ored with 0x20 |
| PacketBytes.SentIsThat | tools/qemu-diff/src/protocol.c:138-155 | what is sent: the command between markers and its total modulo 256 as two upper-case digits |
| PacketBytes.RunsReceived | tools/qemu-diff/src/protocol.c:173-266 | bytes written singly, escaped or in runs of a byte and a count plus 29, with the total of what was written as checksum, are received as those bytes |
| PacketBytes.StarKept | tools/qemu-diff/src/protocol.c:219-248 | a star with nothing to repeat or without a count stands for itself |
| GdbPackets.Connection.ReceiveInto | tools/qemu-diff/src/protocol.c:174-274 | the loop with its growing buffer receives exactly the specified packet, for every input; every write is inside the buffer |
| InstPatterns.PatternDecode | include/cpu/decode.h:31-60 | one step per character on 64-bit registers: accepted exactly for legal patterns of fewer than 64 characters |
| InstPatterns.MaskedIsKey | include/cpu/decode.h:37-44 | masking and comparing is matching every fixed position |
| InstPatterns.TrimTail | include/cpu/decode.h:56-59 | shifting the trailing wildcards away does not change the comparison |
| InstPatterns.InstMatches | include/cpu/decode.h:90-97 | the test of the instruction table succeeds if and only if every fixed position of the stripped pattern is the instruction's bit |
| PatternWords.MatchesWord | include/cpu/decode.h:31-60 | on 32-bit words that is a comparison of the masked word with the key, for every pattern of at most 32 positions |
| PatternWords.TableTest | include/cpu/decode.h:90-97 | the test of the table decides it for every word |
| WordNumbers.BitsAreNumber | include/cpu/decode.h:90-97 | the number that patterns are matched against is the number of the instruction word |
| InstTable.JumpsDecode | src/isa/riscv32/inst.c:225-235 | the strings of lui, auipc, jal and jalr select exactly the words that the instruction set defines as these |
| InstTable.BranchDecodes | src/isa/riscv32/inst.c:238-244 | so do the strings of the branches |
| InstTable.LoadDecodes | src/isa/riscv32/inst.c:246-250 | of the loads |
| InstTable.StoreDecodes | src/isa/riscv32/inst.c:252-254 | of the stores |
| InstTable.OpImmDecodes | src/isa/riscv32/inst.c:256-266 | of the register-immediate operations, that of slli together with the test of its shift amount |
| InstTable.OpDecodes | src/isa/riscv32/inst.c:269-278 | of the register-register operations |
| InstTable.MulDivDecodes | src/isa/riscv32/inst.c:291-303 | of multiplication and division |
| InstTable.AmoDecodes | src/isa/riscv32/inst.c:314-322 | of the AMOs |
| InstTable.FencesSelected | src/isa/riscv32/inst.c:348-349 | the two fence strings select the fences that the interpreter recognises |
| Div64.ReduceHigh | testdemo/test.c:10-18 | the first reduction keeps the value; the 32-bit product does not overflow |
| Div64.Align | testdemo/test.c:20-23 | the doubling loop ends without 64-bit overflow, with divisor and digit in step |
| Div64.Divide | testdemo/test.c:5-36 | quotient and remainder for every 64-bit dividend and nonzero 32-bit base |
| WordNumbers.ToSignedExactly | src/isa/riscv32/inst.c:238-244 | the signed reading of a word is the one number in [-2^31, 2^31) congruent to the unsigned one modulo 2^32 |
| WordNumbers.ShiftSignedNumber | src/isa/riscv32/inst.c:266-276 | the arithmetic shift divides the signed number by a power of two, rounding down |
| WordNumbers.SignedLessExactly | src/isa/riscv32/inst.c:240-242 | the signed comparison is the comparison of the signed numbers |
| WordNumbers.AddNumber | src/isa/riscv32/inst.c:256-269 | words are added modulo 2^32 |
| WordNumbers.ShiftLeftNumber | src/isa/riscv32/inst.c:271 | a shift to the left multiplies by a power of two modulo 2^32 |
| WordNumbers.ShiftRightNumber | src/isa/riscv32/inst.c:275 | a shift to the right divides by a power of two |
| IsaNumbers.ComputeNumbers | src/isa/riscv32/inst.c:256-273 | sums, differences and comparisons of the definition as arithmetic on numbers |
| IsaNumbers.ComputeShifts | src/isa/riscv32/inst.c:263-276 | its shifts as multiplication and division by 2 to the power of the second operand modulo 32 |
| IsaNumbers.ComputeBits | src/isa/riscv32/inst.c:259-278 | its bitwise operations bit by bit |
| IsaNumbers.TakenNumbers | src/isa/riscv32/inst.c:238-244 | its branch conditions as comparisons of signed and unsigned numbers |
| IsaNumbers.ProductNumbers | src/isa/riscv32/inst.c:291-294 | its products: the low word modulo 2^32, the high words as quotients by 2^32, rounded down |
| IsaNumbers.DivisionNumbers | src/isa/riscv32/inst.c:295-302 | signed quotient and remainder round toward zero, with the values for a zero divisor and for the one overflow |
| IsaNumbers.UnsignedDivisionNumbers | src/isa/riscv32/inst.c:298-304 | unsigned quotient and remainder, with the values for a zero divisor |
| IsaFields.FieldNumbers | src/isa/riscv32/inst.c:133-136 | opcode, function codes and register numbers as fields of the instruction word |
| IsaFields.ImmINumber | src/isa/riscv32/inst.c:124 | the I immediate as a signed number made of fields |
| IsaFields.ImmSNumber | src/isa/riscv32/inst.c:126 | the S immediate |
| IsaFields.ImmBNumber | src/isa/riscv32/inst.c:127 | the B immediate |
| IsaFields.ImmJNumber | src/isa/riscv32/inst.c:128 | the J immediate |
| IsaFields.ImmUNumber | src/isa/riscv32/inst.c:125 | the U immediate is the word without its twelve low bits |
| IsaMemory.LoadNumber | src/isa/riscv32/inst.c:246-250 | a load reads the bytes from its offset on, lowest first |
| IsaMemory.StoreNumber | src/isa/riscv32/inst.c:252-254 | a store writes the low bytes of the value, lowest first, and nothing else |
| IsaMemory.LoadStored | src/isa/riscv32/inst.c:246-254 | loading what was stored gives it back modulo 2 to the power of its width |
| IsaMemory.LoadElsewhere | src/isa/riscv32/inst.c:246-254 | a store leaves loads from other bytes alone |
| IsaMemory.ExtendNumber | src/isa/riscv32/inst.c:246-250 | a loaded value is extended as a signed or an unsigned number of its width |
| IsaMemory.AmoNumbers | src/isa/riscv32/inst.c:314-322 | what AMOs write: sums, the other operand, or the lesser or greater number, signed or unsigned |
| IsaMemory.AmoBits | src/isa/riscv32/inst.c:316-318 | and the bitwise ones |
| IsaSteps.UpperSteps | src/isa/riscv32/inst.c:225-226 | LUI and AUIPC as steps on numbers |
| IsaSteps.JumpSteps | src/isa/riscv32/inst.c:227-236 | jumps: target modulo 2^32, the low bit of JALR cleared, the link, and exclusion of unaligned targets |
| IsaSteps.BranchSteps | src/isa/riscv32/inst.c:238-244 | branches, with exclusion of unaligned targets only where taken |
| IsaSteps.LoadSteps | src/isa/riscv32/inst.c:246-250 | loads: when they are excluded and which number they put into the register |
| IsaSteps.StoreSteps | src/isa/riscv32/inst.c:252-254 | stores: when they are excluded and which bytes change |
| IsaSteps.AmoSteps | src/isa/riscv32/inst.c:314-322 | AMOs: the old word goes to the register, the new one to memory |
| IsaSteps.RegisterSteps | src/isa/riscv32/inst.c:256-304 | operations on registers write what they compute and go on; fences only go on |
| WordProducts.MixedProduct | src/isa/riscv32/inst.c:293 | the signed by unsigned high product, computed modulo 2^64, is the instruction set's MULHSU |
| WordProducts.UnsignedProduct | src/isa/riscv32/inst.c:294 | the same for MULHU |
| WordProducts.LowProduct | src/isa/riscv32/inst.c:291 | the low word of a product is the same for signed and unsigned factors |
| Rv32Dut.ImmJAgrees | src/isa/riscv32/inst.c:128 | the bit-field form of the J immediate is the immediate of the instruction format |
| Rv32Dut.ImmBAgrees | src/isa/riscv32/inst.c:127 | the same for the B immediate |
| Rv32Dut.ImmSAgrees | src/isa/riscv32/inst.c:126 | the same for the S immediate |
| Rv32Dut.ImmIAgrees | src/isa/riscv32/inst.c:124 | the same for the I immediate |
| Rv32Dut.ImmUAgrees | src/isa/riscv32/inst.c:125 | the same for the U immediate |
| Rv32Dut.ImmBFits | src/isa/riscv32/inst.c:238-244 | extending a branch offset a second time does not change it |
| Rv32Dut.BytesExtend | src/isa/riscv32/inst.c:246-248 | sign extension of loaded bytes and half-words |
| Rv32Dut.BranchPatterns | src/isa/riscv32/inst.c:238-244 | each branch pattern selects the instruction of the definition |
| Rv32Dut.OpImmPatterns | src/isa/riscv32/inst.c:256-266 | the same for register-immediate operations |
| Rv32Dut.SlliPattern | src/isa/riscv32/inst.c:263 | the free bit in the pattern of slli is caught by the test of the shift amount |
| Rv32Dut.OpPatterns | src/isa/riscv32/inst.c:269-278 | the same for register-register operations |
| Rv32Dut.MulDivPatterns | src/isa/riscv32/inst.c:291-303 | the same for multiplication and division |
| Rv32Dut.AmoPatterns | src/isa/riscv32/inst.c:314-322 | the same for the AMOs |
| Rv32Dut.AmoPatternsComplete | src/isa/riscv32/inst.c:314-322 | and every AMO of the definition has a pattern |
| Rv32Dut.Dut.DecodeOperand | src/isa/riscv32/inst.c:131-147 | operands and immediates by type |
| Rv32Dut.Dut.ExecUpperAndJumps | src/isa/riscv32/inst.c:225-235 | lui, auipc, jal and jalr do what the instruction set defines, with the target check and the next counter |
| Rv32Dut.Dut.ExecBranches | src/isa/riscv32/inst.c:238-244 | the same for the six branches |
| Rv32Dut.Dut.ExecLoads | src/isa/riscv32/inst.c:246-250 | the same for the five loads |
| Rv32Dut.Dut.ExecStores | src/isa/riscv32/inst.c:252-254 | the same for the three stores |
| Rv32Dut.Dut.ExecOpImm | src/isa/riscv32/inst.c:256-266 | the same for register-immediate operations |
| Rv32Dut.Dut.ExecOp | src/isa/riscv32/inst.c:269-278 | the same for register-register operations |
| Rv32Dut.Dut.ExecMulDiv | src/isa/riscv32/inst.c:291-304 | the same for multiplication and division, with division by zero and overflow |
| Rv32Dut.Dut.ExecAmo | src/isa/riscv32/inst.c:314-322 | the same for the AMOs |
| Rv32Dut.Dut.DecodeExec | src/isa/riscv32/inst.c:211-360 | the patterns in order, then register zero is reset: for everything the definition retires the state is that of the definition if the word is recognised, which all words are but the fences with nonzero fields that the instruction set ignores; on those an exception is raised and nothing written |
| Rv32Dut.Dut.ExecOnce | src/isa/riscv32/inst.c:405-409 | one step of the interpreter under test is one step of the definition if and only if the word is recognised |
| Rv32Ref.RefImmJAgrees | tools/rv32ima-diff/include/mini-rv32ima.h:190-191 | the masked and shifted form of the J immediate is the immediate of the instruction format |
| Rv32Ref.RefImmBAgrees | tools/rv32ima-diff/include/mini-rv32ima.h:206-207 | the same for the B immediate |
| Rv32Ref.RefImmSAgrees | tools/rv32ima-diff/include/mini-rv32ima.h:270-271 | the same for the S immediate |
| Rv32Ref.RefImmIAgrees | tools/rv32ima-diff/include/mini-rv32ima.h:198-199 | the same for the I immediate |
| Rv32Ref.StoreOffsetAgrees | tools/rv32ima-diff/include/mini-rv32ima.h:270-272 | the store address built from the other end |
| Rv32Ref.SelectionsAgree | tools/rv32ima-diff/include/mini-rv32ima.h:496-499 | minimum and maximum do not depend on which operand is compared with which |
| Rv32Ref.Ref.UpperAndJumps | tools/rv32ima-diff/include/mini-rv32ima.h:182-203 | results, destination and counter, kept four short, complete to the defined state |
| Rv32Ref.Ref.Branches | tools/rv32ima-diff/include/mini-rv32ima.h:204-224 | the same for branches |
| Rv32Ref.Ref.Loads | tools/rv32ima-diff/include/mini-rv32ima.h:225-265 | the same for loads where four bytes fit, whatever the width; elsewhere trap 6 |
| Rv32Ref.Ref.Stores | tools/rv32ima-diff/include/mini-rv32ima.h:266-311 | the same for stores, with trap 8 |
| Rv32Ref.Ref.Arithmetic | tools/rv32ima-diff/include/mini-rv32ima.h:312-354 | the same for the case shared by register-immediate and register-register operations |
| Rv32Ref.Ref.Operate | tools/rv32ima-diff/include/mini-rv32ima.h:341-351 | the shared switch with its subtraction and arithmetic-shift bits |
| Rv32Ref.Ref.MultiplyOrDivide | tools/rv32ima-diff/include/mini-rv32ima.h:320-337 | the M extension, zero tested before overflow |
| Rv32Ref.Ref.Atomics | tools/rv32ima-diff/include/mini-rv32ima.h:460-505 | the AMOs |
| Rv32Ref.ImageIsWordInRam | tools/rv32ima-diff/include/mini-rv32ima.h:232-233 | the reference's bound, computed modulo 2^32, asks for four bytes of RAM at the address |
| Rv32Ref.Ref.Turn | tools/rv32ima-diff/include/mini-rv32ima.h:158-521 | one turn of the loop is one step of the definition if and only if a load or store, if it is one, has four bytes of RAM at its address; otherwise it traps with 6 or 8 and writes nothing back |
| Rv32Ref.Ref.StepMany | tools/rv32ima-diff/include/mini-rv32ima.h:158-522 | any number of turns is as many steps of the definition if and only if that holds at every one of them |
| Lockstep.RunExtends | tools/rv32ima-diff/include/mini-rv32ima.h:158-522 | a run goes on from where a shorter run ends |
| Lockstep.StepBoth | src/cpu/difftest/dut.c:121-157 | after one instruction that the definition retires neither machine has raised an exception and both have the defined state, if and only if the guard holds: a recognised word, and four bytes of RAM at a data address |
| Lockstep.Compare | src/cpu/difftest/dut.c:121-157 | for every run the definition allows, of any length, both interpreters agree on registers, program counter and memory after every instruction if and only if the guard holds at every one, and then they are those of the definition |
| Lockstep.LoadAtTheEnd | tools/rv32ima-diff/include/mini-rv32ima.h:232-233 | the definition retires a byte load from the last byte of RAM and the guard fails there |
| Lockstep.StoreAtTheEnd | tools/rv32ima-diff/include/mini-rv32ima.h:273-275 | the same for a byte store |
| Lockstep.RunAtTheEnd | tools/rv32ima-diff/include/mini-rv32ima.h:232-275 | on these the interpreter under test retires and the reference traps with 6 or 8 |
| Lockstep.FenceTso | src/isa/riscv32/inst.c:348-349 | the definition retires FENCE.TSO and the guard fails there |
| Lockstep.RunFenceTso | tools/rv32ima-diff/include/mini-rv32ima.h:355-357 | on it the interpreter under test raises an illegal instruction and the reference goes on |

## Left out

- Choice groups, `option modules`, and int, hex and string symbols in the value calculator and the dependency check; whether modules are enabled is a constant.
- SymbolGraph.DependencyChecker.CheckSymbol: choice groups and choice values, which the code checks as a group, are not modelled.
- SymbolValues.Calculator.CalcValue: int, hex and string symbols, whose values are texts, and choices are not computed.
- E_LIST and E_RANGE expressions.
- ExprJoin.JoinOperandsSound: assumes that no two constants a tristate can come to be compared with denote the same value; JoinOperandsExactly has the exact condition for one pair of operands, DedupKeepsExactly for all expressions over given constants.
- ExprDups.Deduplicator.EliminateDups: the joining rules build new trees by a function; the nodes of an operand are not modelled, only the cell that holds it.
- ExprForms.ExprEqIsForm: for expressions with y or n among the operands of inner joins only soundness (ExprEqSound) and the counterexample UncleanEquality are proved.
- The global counter of simplifications in `expr_eliminate_eq` and `expr_transform`, and the freeing of nodes.
- ExprText.ParsePrint: tokens, not characters; the lexer is not part of this model.
- MenuTree.FinalizeAndWalk: the decisions about submenus are a parameter; their computation is `MenuConditions.Place`.
- Submenus.MisplacedExactly: the prompts it quantifies over have conditions in normal form in which every symbol shows whether it is n.
- MenuConditions.Place: dependencies are values here, not fields of the menu that are overwritten.
- The direct dependencies that `menu_finalize` collects from the locations of a symbol, the select and imply expressions it adds, and choice values.
- Printing of recursive dependencies (`dep_stack`), warnings, help texts, regular expressions, reading and writing of files, and the user interfaces.
- SymbolValues.Calculator.Query: values are cached for one setting; clearing the cache when a value changes is not modelled.
- Preprocess.Expander.EvaluateClause: the table of arguments is a sequence; what happens after the write behind its 16 entries is not modelled, the outcome only says that it happened.
- MacroCalls.ArgumentReference: numbers above the greatest unsigned long, which the code reads as that, are left out; no call has as many arguments.
- MacroCalls.CallSubstitutes: arguments have balanced parentheses and no comma of their own.
- Preprocess: variable assignment and its flavours when a variable is defined, `$(shell,...)` beyond a given output, and messages.
- GdbPackets: acknowledgement and retransmission, `gdb_decode_hex_str`, and failing allocation.
- CSR, system and privileged instructions, interrupts, traps, load-reserved and store-conditional, devices and memory outside RAM in the RV32 models.
- Rv32Dut: the 64-bit sign extension is modelled by its low 32 bits; signed overflow wraps.
- Lockstep.Compare: runs the definition excludes (traps, other extensions, accesses outside RAM) are not compared; the differential tester tolerates small differences of registers, the theorem says when there are none.
- `src/monitor/sdb/expr.c`, devices, the mips32 and loongarch32r interpreters, the keyboard ring buffer, the MMIO table and fixdep.
