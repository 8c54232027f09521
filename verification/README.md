# Oscan: verified models of the compiler and its runtime

Oscan is a small language compiled to C. This project models four parts of its repository
and proves what they are for.

* **The C back end** (`src/codegen.rs` over `src/ir.rs`). Typed IR is flattened into C statements
  and a C expression with fresh temporaries. `Ir` gives the IR a typing and a semantics, `IrEffects` says
  what an expression does besides having a value, `CTree` gives the emitted C a semantics, `Codegen` holds the
  emitter, `CodegenCorrect`, `CodegenSimulation` and `CodegenTheorems` prove that the emitted C means what the
  IR means, `CodegenMeaning` says in numbers what it computes, and `CodegenLimits` shows programs for which it does
  not mean what the IR means. `IrVerifier` is the pass that runs before the emitter, `TypeDecls` orders the type
  declarations.
* **BuildGraph** (`LangugageComp/csharp/Program.cs`). `BuildGraph` turns task records into a dependency
  graph, `TopoSort` sorts it stably, `CriticalPath` finds the longest path with a lexicographic tie-break,
  `Affected` lists what a change reaches, and `BuildCommands` says what the two commands report, in terms of the
  records alone.
* **The runtime** (`runtime/osc_runtime.c`). `CheckedArith`, `Arena`, `DynArray`, `HashMap`, `Decimal`,
  `IntMap`, `StrOps`, `ShellSort` and `Glob`: each imperative form is proved against a simple one.
* **The lexer** (`src/lexer.rs`). `LexSpec` says what the tokens of a source text are, `Lexer` is the
  object that computes them, `LexTokens` says character by character which token a word, number, operator, escape or
  comment is, `LexRoundTrip` shows that the back end's string escapes are read back.

## How to read the model

**The back end.** The emitted C is a tree, not text. The C semantics has its own traps: reading an
uninitialised or undeclared variable, redeclaring one, or writing to a `const` one is `Undefined`, and no
theorem mentions a program that gets there. Comparisons are written without parentheses, so a comparison whose
operand is a comparison is read back from the left, as C does (`CTree.Splice`). `fuel` bounds the rounds of a
loop only; every theorem is for all fuel, and IR and C run out of it together. `IrFuel.MoreFuelBlock` shows that
a run that ends does so in the same way with any more fuel. User names and temporaries are
different constructors, so no user variable is called `_tmp_N`.

The translation is proved for every well-typed program that satisfies `CodegenCorrect.Faithful`:
32-bit integers, booleans and unit, variables, checked arithmetic, comparisons, `not`, negation, `and`, `or`,
valued and unit `if` and blocks, `let`, assignment to names, `while`, `break`, `continue`. `Faithful` asks three
things only.

1. Of an operator that evaluates both operands: the left operand leaves its value in a literal or a temporary of its
   own; or the right operand assigns no variable that the text of the left one reads, and either that text cannot
   panic, or the right operand has no loop and no jump that leaves it. Otherwise the prelude of the right operand,
   which runs before the text of the left one is evaluated, may change what that text yields, or keep a panic of it
   from happening.
2. No jump leaves a loop condition: it would land in the emitted `while (1)`.
3. No chain of `==` and `!=` that begins by comparing integers is the right operand of `==` or `!=`: without the
   parentheses C compares from the left. A chain over booleans means the same however it is grouped.

An expression without blocks and `if` meets the first two (`CodegenLimits.FlatIsFaithful`).
`CodegenLimits` has a program for each of these conditions, two for the jumps and loops of the first one, that meets
all the others and whose emitted code does something else. A panic ends the program, so the state it leaves behind is
not compared; `CodegenCorrect.TextState` says what the preludes have done by then.

**BuildGraph** starts at the parsed records; a record's duration is any integer, and range errors are reported
as the source does.

**The runtime.** A panic is `None` or `ok == false`, with the state unchanged. Integer widths are newtypes or
explicit bounds. A value pointer handed to the array is an array and an index, so it may point into the array itself.
The hash is an arbitrary function from strings to 32-bit numbers, and `hash & (cap - 1)` is the remainder by
`cap`, which `Valid` keeps a power of two. `snprintf` with `%d` is taken to be `Decimal.Dec`.

**The lexer.** Keywords and operators keep their text instead of having a constructor each.

Where the code does not do what its name or documentation suggests, the model follows the code:

* `osc_map_set` panics on a table without empty slots even when tombstones are free (`HashMap.OscMap.Set` says
  exactly when; `HashMap.RunOps` shows that it takes five deletions, `HashMap.TombstonesFillTable` that five are
  enough, with keys that `HashMap.LengthsApart` shows to exist).
* `osc_parse_i32` rejects the decimal form of INT32_MIN, so a typed map cannot read that value back
  (`Decimal.ParseUndoesDec`, `IntMap.I32Map.Get`).
* The glob loop takes a `*` in the text as a literal match of a pattern `*`; it is right for every
  pattern exactly on texts without one (`Glob.RightExactlyWithoutStars`).
* After a reset, an arena that grows again drops the blocks that followed the current one
  (`Arena.OscArena.Alloc` says exactly when; `Arena.ResetLosesABlock` is an example).

## Model

| member | source | states |
|---|---|---|
| CodegenTheorems.CompileBody | src/codegen.rs:938-951 | a fresh generator emits, for any faithful well-typed body, code that in every entry state panics, jumps, diverges and finishes exactly as the body does, with its state and value, writing only its own temporaries |
| CodegenTheorems.BlockMeaningPreserved | src/codegen.rs:998-1083 | meaning is preserved for blocks, from any matching pair of states and any temporary counter |
| CodegenTheorems.ExprMeaningPreserved | src/codegen.rs:1220-1350 | meaning is preserved for expressions |
| CodegenMeaning.SumsAndProducts | src/codegen.rs:1418-1434 | on any two literals, `+`, `-` and `*` become calls of the add, subtract and multiply functions, whose value is the exact result or a panic out of range |
| CodegenMeaning.Quotients | src/codegen.rs:1435-1444 | `/` becomes the division call and `%` the remainder call: the value is the quotient whose remainder is smaller than the divisor and has the sign of the dividend, and that remainder |
| CodegenMeaning.QuotientExists | src/codegen.rs:1435-1444 | every non-zero divisor has such a quotient |
| CodegenMeaning.QuotientsPanic | src/codegen.rs:1435-1444 | both panic on a zero divisor and on the smallest number by -1 |
| CodegenMeaning.Equalities | src/codegen.rs:1445-1454 | `==` and `!=` on literals are 1 or 0, as the numbers are equal or not |
| CodegenMeaning.Orderings | src/codegen.rs:1455-1470 | the four order comparisons, each under its own C operator |
| CodegenMeaning.BoolComparisons | src/codegen.rs:1445-1454 | `==` and `!=` on truth values |
| CodegenMeaning.UnaryOperators | src/codegen.rs:1259-1273 | literals, `not` and the negation that panics on the smallest number |
| CodegenMeaning.TypedOperators | src/semantic.rs:2725-2801 | which operators are well typed on two integers, two truth values, or one of each |
| CodegenMeaning.TruthTables | src/codegen.rs:1398-1413 | running what is emitted for `and` and `or` leaves the entry of the truth table in the temporary, and nothing else |
| CodegenMeaning.ShortCircuits | src/codegen.rs:1398-1413 | a left side that decides is the result, whatever the right side would do |
| CodegenMeaning.WithoutElse | src/codegen.rs:2298-2323 | `if true` runs the emitted block, `if false` nothing |
| CodegenMeaning.Choice | src/codegen.rs:2324-2343 | `if b { n } else { m }` leaves `n` or `m` in its temporary |
| CodegenMeaning.Declaration | src/codegen.rs:1002-1028 | `let` declares a variable of the C type with the value, const unless it is mutable |
| CodegenMeaning.Incremented | src/codegen.rs:1029-1033 | `x = x + 1` is one assignment of the checked sum, and panics at the largest number |
| CodegenMeaning.LocalValue | src/codegen.rs:1329-1350 | `{ let x = n; x }` leaves `n` in its temporary and no `x` |
| CodegenMeaning.DiscardedQuotient | src/codegen.rs:1055-1065 | a discarded result is still computed: `m / 0;` panics |
| CodegenMeaning.NeverEntered | src/codegen.rs:1067-1083 | `while false` does nothing, whatever its body is |
| CodegenMeaning.NeverLeft | src/codegen.rs:1067-1083 | `while true { }` runs out of every fuel |
| CodegenMeaning.Counts | src/codegen.rs:1067-1083 | `while x < n { x = x + 1; }`, also with a `continue` and anything after it, ends with `x == n` and takes exactly one round for every step and one to leave |
| CodegenMeaning.CountsOnce | src/codegen.rs:1067-1083 | with a `break` after the increment there is at most one step |
| CodegenLimits.FlatIsFaithful | src/codegen.rs:1396-1473 | expressions without blocks and `if` are faithful, unless an equality test stands directly to the right of another |
| CodegenLimits.OperandOrderMatters | src/codegen.rs:1397-1415 | `x + { x = n; 1 }` is emitted with another value, because the assignment runs before `x` is read |
| CodegenLimits.JumpInOperandMatters | src/codegen.rs:1397-1415 | `n / 0 + { break; 1 }` panics, but the emitted code leaves the loop around it |
| CodegenLimits.LoopInOperandMatters | src/codegen.rs:1397-1415 | `n / 0 + { while true {}; 1 }` panics, but the emitted code runs out of every fuel |
| CodegenLimits.BreakInConditionMatters | src/codegen.rs:1066-1082 | a `break` that leaves a loop condition ends the emitted loop normally |
| CodegenLimits.MissingParenthesesMatter | src/codegen.rs:1445-1454 | `b == (n == n)` is true for a true `b`, but the emitted text is false for every `n` other than 0 and 1 |
| CodegenSimulation.SimExpr | src/codegen.rs:1220-1350 | the simulation behind the theorems, for all expressions |
| CodegenSimulation.SimOperator | src/codegen.rs:1415-1471 | two operands and an operator: preludes in order, the left text still valid after the right prelude |
| CodegenSimulation.SimLogical | src/codegen.rs:1398-1414 | `and`/`or`: the right prelude runs exactly when the left value does not decide |
| CodegenSimulation.LogicalGuard | src/codegen.rs:1401-1413 | the emitted guard enters its body exactly in the undecided case |
| CodegenSimulation.SimBlockExpr | src/codegen.rs:1316-1350 | a block expression, valued or unit, keeps its scope and delivers its value |
| CodegenSimulation.SimIf | src/codegen.rs:2289-2344 | `if` runs exactly the taken branch and delivers its value |
| CodegenSimulation.SimStmts | src/codegen.rs:938-941 | statement lists: a panic or jump stops both sides at the same statement |
| CodegenSimulation.SimStmt | src/codegen.rs:998-1083 | every statement of the fragment |
| CodegenSimulation.SimLoop | src/codegen.rs:1066-1082 | `while (1) { ...; if (!c) break; ... }` runs the same rounds as the loop |
| CodegenCorrect.OperatorMeaning | src/codegen.rs:1415-1471 | the emitted operator on encoded operands yields the encoded result, or panics when the IR does |
| CodegenSimulation.RightEffects | src/codegen.rs:1397-1415 | the prelude of an admitted right operand goes on to the left text whenever that text panics, and leaves what it reads as it was |
| CodegenSimulation.SimChain | src/codegen.rs:1445-1454 | boolean text outside the third restriction is, whenever it is reached, a chain of equality tests over booleans |
| CodegenCorrect.SpliceOverBools | src/codegen.rs:1445-1454 | over booleans the text `l == r`, read by C from the left, has the value of the intended comparison, for any chain `r` |
| CodegenCorrect.CalmText | src/codegen.rs:1415-1471 | the text emitted for a calm expression has no part that can panic |
| CodegenCorrect.TextKept | src/codegen.rs:1415-1471 | all variables and temporaries that the left text reads have their values after the prelude of an admitted right operand |
| IrEffects.KeepsExpr | src/codegen.rs:1415-1471 | an operand that assigns none of some variables leaves them as they were, however it ends |
| CodegenCorrect.EmitShape | src/codegen.rs:1445-1468 | what the emitted text can be, so that unparenthesised comparisons read back as intended |
| Codegen.CodeGenerator.FreshTmp | src/codegen.rs:442-446 | temporaries are numbered consecutively |
| Codegen.CodeGenerator.EmitExpr | src/codegen.rs:1220-1350 | writes exactly the specified statements and returns the specified expression |
| Codegen.CodeGenerator.EmitBinaryOp | src/codegen.rs:1396-1473 | same, for binary operators |
| Codegen.CodeGenerator.EmitGuardedRight | src/codegen.rs:1398-1414 | the guarded right side of `and`/`or`, written inside the `if` |
| Codegen.CodeGenerator.EmitBlockExpr | src/codegen.rs:1316-1350 | same, for block expressions |
| Codegen.CodeGenerator.EmitIf | src/codegen.rs:2289-2344 | same, for `if` |
| Codegen.CodeGenerator.EmitUnitBranches | src/codegen.rs:2298-2323 | the unit form of `if` |
| Codegen.CodeGenerator.EmitValuedBranches | src/codegen.rs:2324-2343 | the valued form of `if`, through a temporary |
| Codegen.CodeGenerator.EmitBlockBody | src/codegen.rs:938-951 | the statements of a block, then its tail |
| Codegen.CodeGenerator.EmitStatement | src/codegen.rs:998-1083 | same, for statements |
| Codegen.CodeGenerator.EmitDiscard | src/codegen.rs:1055-1065 | a unit result is dropped, any other evaluated and discarded |
| IrVerifier.Verify | src/ir.rs:489-528 | a body that passes never ends a run with a pending `break` or `continue` |
| IrVerifier.CleanMeansNoJump | src/ir.rs:563-635 | an empty report means no jump escapes, in any state, with any fuel |
| IrVerifier.ExactOnTypedBlock | src/ir.rs:563-635 | on well-typed trees the report is empty if and only if no jump can leave the tree |
| IrVerifier.ExactOnTypedExpr | src/ir.rs:652-864 | same, for expressions |
| IrVerifier.PartsReported | src/ir.rs:652-864 | what is reported of a part is reported of the whole |
| IrVerifier.OperatorReport | src/ir.rs:652-864 | an operator on parts that are in order is reported exactly when arithmetic has not the type of its left operand, or another operator is not boolean |
| IrVerifier.UnaryReport | src/ir.rs:652-864 | same, for `not`, which must be boolean, and negation, which must have the type of its operand |
| IrVerifier.BranchReport | src/ir.rs:652-864 | an `if` on parts that are in order is reported exactly when it has a value and no `else`, or its type is not that of both branches, each as its own error |
| IrVerifier.JumpReport | src/ir.rs:578-635 | a `break` or `continue` is reported exactly outside of loops, each as its own error |
| IrVerifier.Verifier.VerifyExpr | src/ir.rs:652-864 | appends exactly the specified errors, in order |
| IrVerifier.Verifier.VerifyBlock | src/ir.rs:563-576 | same, for blocks |
| IrVerifier.Verifier.VerifyStmt | src/ir.rs:578-635 | same, for statements, one loop deeper in loop bodies |
| TypeDecls.EmitTypeDeclarations | src/codegen.rs:313-336 | succeeds if and only if some order puts each declaration after the types it names by value; then emits such an order of exactly the given declarations, in which every struct, enum, result and function type of a field, payload, side, parameter or return value is declared earlier; otherwise every declaration left over has such a part that is not declared; if all named types are declared, under distinct names, it fails exactly when declarations contain each other in a cycle |
| TypeDecls.ValidMeansCompiles | src/codegen.rs:339-375 | an order is valid if and only if every struct, enum, result and function type in every part of a declaration is declared before it or by the runtime |
| TypeDecls.ReadyMeansKnown | src/codegen.rs:339-375 | a declaration is ready if and only if all such types of its parts are known |
| TypeDecls.EmitEitherOrder | src/codegen.rs:313-336 | success does not depend on the order in which declarations are queued |
| TypeDecls.BlockedIsHopeless | src/codegen.rs:315-325 | declarations that are blocked after all the others rule out every order |
| TypeDecls.BlockedHasCycle | src/codegen.rs:318-325 | among blocked declarations whose named types are all declared there is a cycle |
| TypeDecls.CycleIsHopeless | src/codegen.rs:318-325 | a cycle of declarations with distinct names rules out every order |
| TypeDecls.ReadyMeansNeedsMet | src/codegen.rs:339-372 | readiness means that every needed name is declared |
| TypeDecls.FirstReady | src/codegen.rs:315-318 | the first ready declaration, if there is one |
| TypeDecls.ResultDecls | src/codegen.rs:302-308 | result types are queued once per C name and not at all if the runtime declares them |
| BuildGraph.ParseGraph | LangugageComp/csharp/Program.cs:99-207 | succeeds exactly on valid records with the declared edges and exact in-degrees; otherwise reports the first error |
| BuildGraph.ValidMeansGood | LangugageComp/csharp/Program.cs:73-207 | records are valid if and only if there are some, names are distinct letters, digits, `_` and `-` of length 1 to 32 after a first letter, durations positive 32-bit numbers, and the dependencies of each task are distinct names of other tasks |
| BuildGraph.TaskErrorKinds | LangugageComp/csharp/Program.cs:114-154 | which error a bad task gets: name, then duration, then repetition |
| BuildGraph.DependencyErrorKinds | LangugageComp/csharp/Program.cs:159-204 | which error a bad dependency gets, in the order of the tests |
| BuildGraph.IndexTasks | LangugageComp/csharp/Program.cs:104-154 | every name is indexed at its declaration; the first bad or repeated task is the error |
| BuildGraph.LinkTasks | LangugageComp/csharp/Program.cs:159-204 | edges and in-degrees of all dependencies, or the first bad dependency |
| BuildGraph.Analyze | LangugageComp/csharp/Program.cs:331-340 | a cycle is the only error; otherwise the stable order, the critical path and its duration |
| BuildCommands.AnalyzeRecords | LangugageComp/csharp/Program.cs:53-64 | `analyze` from records to report: fails exactly on bad records or a ring of dependencies; otherwise the order has every record once, after what it depends on, and is the first such order; the path is a longest chain of dependencies, the first of those, and its total duration is given |
| BuildCommands.AffectedRecords | LangugageComp/csharp/Program.cs:53-64 | `affected` from records to report: fails exactly on bad records, an unknown name or a ring; otherwise lists, in the order of `analyze`, exactly the records that a chain of dependencies leads to from the named one |
| TopoSort.StableTopologicalOrder | LangugageComp/csharp/Program.cs:209-243 | fails exactly on cyclic graphs; otherwise the lexicographically least topological order |
| TopoSort.GreedyIsLeast | LangugageComp/csharp/Program.cs:217-226 | always taking the first ready task gives the least of all topological orders |
| TopoSort.StuckMeansCycle | LangugageComp/csharp/Program.cs:227-230 | when no task is ready before all are taken, the graph has a cycle |
| TopoSort.CyclicHasNoOrder | LangugageComp/csharp/Program.cs:227-230 | a cyclic graph has no topological order |
| TopoSort.SelectReady | LangugageComp/csharp/Program.cs:217-226 | the first ready task, by remaining in-degree |
| TopoSort.ReleaseDependents | LangugageComp/csharp/Program.cs:232-240 | in-degrees count the pending incoming edges again |
| CriticalPath.FindCriticalPath | LangugageComp/csharp/Program.cs:276-329 | never overflows; the path has maximal duration over all dependency paths and is the least of those in index order |
| CriticalPath.LongestPaths | LangugageComp/csharp/Program.cs:281-314 | for every task, the table holds the best path ending there |
| CriticalPath.BestPredecessor | LangugageComp/csharp/Program.cs:283-310 | the best predecessor, ties broken by comparing whole paths |
| CriticalPath.BestExtends | LangugageComp/csharp/Program.cs:304-310 | extending the best path to the best predecessor gives the best path |
| CriticalPath.ExtendNoWorse | LangugageComp/csharp/Program.cs:258-274 | with positive durations, extending by the same task keeps the order of equally long paths |
| CriticalPath.BestOfAll | LangugageComp/csharp/Program.cs:316-326 | the best of the best paths is best of all paths |
| CriticalPath.CriticalUnique | LangugageComp/csharp/Program.cs:276-329 | there is exactly one such path |
| CriticalPath.BuildPath | LangugageComp/csharp/Program.cs:245-256 | following the links terminates and yields the tabled path |
| CriticalPath.ComparePaths | LangugageComp/csharp/Program.cs:258-270 | the sign of the result is the lexicographic order |
| CriticalPath.CandidatePathIsEarlier | LangugageComp/csharp/Program.cs:272-274 | whether the candidate's path comes first |
| CriticalPath.CostBound | LangugageComp/csharp/Program.cs:293-301 | a path of n tasks lasts at least n and at most n times INT32_MAX, so no sum leaves 64 bits |
| Affected.AffectedTasks | LangugageComp/csharp/Program.cs:342-370 | exactly the tasks reachable from the query, in the stable order; unknown names and cycles are the only errors |
| Affected.MarkAffected | LangugageComp/csharp/Program.cs:349-365 | marks a task if and only if the query reaches it |
| Affected.ReachableThrough | LangugageComp/csharp/Program.cs:354-361 | a task is reachable if and only if it is the query or depends on a reachable task |
| CheckedArith.AddI32 | runtime/osc_runtime.c:403-412 | the exact sum, or a panic exactly when it is out of range |
| CheckedArith.SubI32 | runtime/osc_runtime.c:414-423 | same, for subtraction |
| CheckedArith.MulI32 | runtime/osc_runtime.c:425-432 | same, for multiplication |
| CheckedArith.DivI32 | runtime/osc_runtime.c:434-443 | the truncated quotient; panics exactly on 0 and on MIN / -1 |
| CheckedArith.ModI32 | runtime/osc_runtime.c:445-454 | the truncated remainder; panics exactly on 0 and on MIN % -1 |
| CheckedArith.NegI32 | runtime/osc_runtime.c:456-462 | the exact negation, or a panic |
| CheckedArith.AddI64 | runtime/osc_runtime.c:468-477 | as for 32 bits |
| CheckedArith.SubI64 | runtime/osc_runtime.c:479-488 | as for 32 bits |
| CheckedArith.MulI64 | runtime/osc_runtime.c:490-516 | as for 32 bits, decided without a wider type |
| CheckedArith.MulI64GuardExact | runtime/osc_runtime.c:490-516 | the case analysis of the guard holds exactly when the product does not fit, and no guard overflows |
| CheckedArith.DivI64 | runtime/osc_runtime.c:518-527 | as for 32 bits |
| CheckedArith.ModI64 | runtime/osc_runtime.c:529-538 | as for 32 bits |
| CheckedArith.NegI64 | runtime/osc_runtime.c:540-546 | as for 32 bits |
| CheckedArith.TruncDivUnique | runtime/osc_runtime.c:434-454 | truncation is the only quotient whose remainder is small enough and has the dividend's sign |
| Arena.OscArena.constructor | runtime/osc_runtime.c:294-320 | one block of the requested or the default capacity |
| Arena.OscArena.Alloc | runtime/osc_runtime.c:322-361 | the next aligned bytes of the current block if they fit, else the start of a new block of the larger of block size and request; live allocations stay and are apart from it; panics exactly when rounding up overflows; loses blocks exactly when it grows with blocks after the current one |
| Arena.OscArena.Reset | runtime/osc_runtime.c:363-373 | no live allocation, every block of the chain empty |
| Arena.OscArena.Destroy | runtime/osc_runtime.c:375-397 | frees exactly the blocks of the chain |
| Arena.RunOps | runtime/osc_runtime.c:322-397 | in every run the live allocations are those since the last reset, pairwise apart, in bounds and aligned; without resets every block made is freed |
| Arena.ResetLosesABlock | runtime/osc_runtime.c:354-355 | a run with a reset in which a block is never freed |
| Arena.AlignUp | runtime/osc_runtime.c:331-335 | the next multiple of eight |
| DynArray.New | runtime/osc_runtime.c:552-575 | an empty array of the requested or default capacity, or a panic exactly on bad sizes |
| DynArray.DynArray.Reserve | runtime/osc_runtime.c:577-608 | room for the required number, contents unchanged, or a panic exactly when the size limits forbid it |
| DynArray.Grown | runtime/osc_runtime.c:587-594 | the grown capacity suffices, stays in range and doubles while it can |
| DynArray.DynArray.Get | runtime/osc_runtime.c:610-619 | a pointer to the element, or a panic exactly out of bounds |
| DynArray.DynArray.Set | runtime/osc_runtime.c:621-631 | updates one element, also from a pointer into the array |
| DynArray.DynArray.Push | runtime/osc_runtime.c:633-645 | appends the value, also when it lies in the array that grows |
| DynArray.DynArray.Pop | runtime/osc_runtime.c:647-657 | removes the last element, which stays readable |
| DynArray.DynArray.Clone | runtime/osc_runtime.c:677-688 | a separate array with the same contents and element size, or a panic exactly when it is too large |
| DynArray.Repeat | runtime/osc_runtime.c:690-704 | a new array of copies, or a panic exactly on bad sizes |
| DynArray.DynArray.Swap | runtime/osc_runtime.c:706-723 | exchanges two elements |
| DynArray.DynArray.Reverse | runtime/osc_runtime.c:725-737 | reverses the contents in place |
| DynArray.DynArray.Fill | runtime/osc_runtime.c:739-748 | all elements become the value, also one of them |
| DynArray.DynArray.Clear | runtime/osc_runtime.c:750-754 | empties the array |
| DynArray.DynArray.Extend | runtime/osc_runtime.c:756-776 | appends another array, or the array itself |
| DynArray.DynArray.Insert | runtime/osc_runtime.c:778-803 | inserts the value, also one of the elements that move |
| DynArray.DynArray.RemoveAt | runtime/osc_runtime.c:805-822 | removes and returns one element |
| DynArray.DynArray.Slice | runtime/osc_runtime.c:824-843 | a separate array with the elements of the range and the same element size, or a panic exactly out of bounds or when it is too large |
| DynArray.PushAll | runtime/osc_runtime.c:577-645 | `n` pushes onto an empty array copy fewer than `2n` elements |
| DynArray.RunOps | runtime/osc_runtime.c:552-843 | every run over any number of arrays, with values taken from outside or from elements of any of them, has the effect it has on a list of unrelated sequences; it panics where that is undefined, and nowhere else when the machine can count the bytes of every int32 length |
| DynArray.Step | runtime/osc_runtime.c:552-843 | one operation on the arrays of a program: its effect on their contents or a panic that changes nothing; arrays stay apart |
| HashMap.OscMap.constructor | runtime/osc_runtime.c:3636-3646 | an empty map of sixteen slots |
| HashMap.OscMap.Grow | runtime/osc_runtime.c:3610-3634 | doubles the table, drops tombstones, changes nothing observable |
| HashMap.OscMap.Set | runtime/osc_runtime.c:3648-3691 | updates the map; panics exactly when the table does not grow, has no empty slot and lacks the key; never without tombstones; a new key goes to the first slot of its probe sequence that holds no entry; the table doubles exactly at three quarters full |
| HashMap.OscMap.Store | runtime/osc_runtime.c:3658-3690 | one round of probing: overwrites the slot of the key, or fills the first slot of the probe sequence that holds no entry, and touches nothing else |
| HashMap.OscMap.Get | runtime/osc_runtime.c:3693-3718 | the value of the key, or a panic exactly when it is missing |
| HashMap.OscMap.Has | runtime/osc_runtime.c:3720-3742 | whether the key is in the map |
| HashMap.OscMap.Delete | runtime/osc_runtime.c:3744-3768 | removes the key, leaving a tombstone in its slot |
| HashMap.OscMap.Len | runtime/osc_runtime.c:3770-3774 | the number of entries |
| HashMap.OscMap.FindSlot | runtime/osc_runtime.c:3781-3800 | finds the slot of the key exactly when the key is present |
| HashMap.AbsentWhenPassed | runtime/osc_runtime.c:3731-3741 | an empty slot, or a full round, proves a key absent |
| HashMap.RoomLeft | runtime/osc_runtime.c:3654-3656 | a table without tombstones below its load limit has an empty slot |
| HashMap.ProbeWraps | runtime/osc_runtime.c:3659-3667 | step `i` probes the slot of the hash plus `i`, modulo the capacity |
| HashMap.RunOps | runtime/osc_runtime.c:3575-3800 | every run of set and delete on a new map, of any length, in which no load test overflows, has its effect on a finite map, up to a panic; before a panic there are five deletions, and more than a third as many as entries |
| HashMap.TombstonesFillTable | runtime/osc_runtime.c:3648-3691 | for every hash: of 16 keys with different homes, set and delete any five or more and set the others; the next set of a new key panics on a map of at most eleven entries |
| Decimal.FormatI32Dec | runtime/osc_runtime.c:177-196 | writes the decimal form, cut off at the end of the buffer, and nothing else |
| Decimal.DecInjective | runtime/osc_runtime.c:1569-1592 | different numbers print differently |
| Decimal.DecIsNumeral | runtime/osc_runtime.c:1569-1592 | the decimal form is a minus sign for negative numbers, then the digits of the magnitude without leading zeros |
| Decimal.ParseI32 | runtime/osc_runtime.c:1881-1926 | computes the specified value or error |
| Decimal.ReadDigits | runtime/osc_runtime.c:1912-1921 | the accumulator never overflows; rejects exactly the runs worth more than INT32_MAX |
| Decimal.ParseAccepts | runtime/osc_runtime.c:1881-1926 | succeeds exactly when the first 63 characters are white space, a sign, digits and a rest that denote a number of magnitude at most INT32_MAX |
| Decimal.NumeralParses | runtime/osc_runtime.c:1881-1926 | a numeral of up to 62 digits, bare or with a sign, parses as its number, or overflows beyond 2147483647 |
| Decimal.ParseRefuses | runtime/osc_runtime.c:1881-1926 | the text is blank exactly when its first 63 characters are codes 9 to 13 and 32, and not a number exactly when no digit follows those and a sign |
| Decimal.ParseUndoesDec | runtime/osc_runtime.c:1904-1925 | parsing undoes printing for every 32-bit number but INT32_MIN, which overflows |
| IntMap.I32Map.Set | runtime/osc_runtime.c:4022-4026 | updates the integer map, panicking exactly when the string map does |
| IntMap.I32Map.Get | runtime/osc_runtime.c:4028-4035 | the value, 0 for a missing key, unspecified for a stored INT32_MIN |
| IntMap.I32Map.Has | runtime/osc_runtime.c:4037-4042 | whether the key is present |
| IntMap.I32Map.Delete | runtime/osc_runtime.c:4044-4049 | removes the key |
| IntMap.I32Map.Len | runtime/osc_runtime.c:4051-4054 | the number of entries of the integer map |
| StrOps.SplitString | runtime/osc_runtime.c:2488-2533 | the pieces between leftmost delimiters; the whole string for an empty delimiter |
| StrOps.ReplaceString | runtime/osc_runtime.c:2559-2607 | every leftmost occurrence replaced, in a buffer of exactly the counted size; nothing replaced when the searched string is empty |
| StrOps.JoinStrings | runtime/osc_runtime.c:2638-2679 | the pieces with separators between them, in a buffer of exactly the computed size |
| StrOps.JoinUndoesSplit | runtime/osc_runtime.c:2488-2679 | joining the pieces with the delimiter gives the string back |
| StrOps.SplitUndoesJoin | runtime/osc_runtime.c:2498-2519 | splitting gives joined pieces back if and only if each delimiter is the first one possible |
| StrOps.PiecesAreFree | runtime/osc_runtime.c:2498-2532 | no piece contains the delimiter |
| StrOps.ReplaceIsSplitAndJoin | runtime/osc_runtime.c:2559-2607 | replacing is splitting and joining |
| StrOps.ReplaceLength | runtime/osc_runtime.c:2572-2606 | the two scans agree: the counted length is the length written |
| ShellSort.Sort | runtime/osc_runtime.c:3540-3556 | sorted for any total preorder, a permutation, the rest untouched |
| ShellSort.GapPass | runtime/osc_runtime.c:3549-3554 | one pass leaves elements a gap apart in order |
| ShellSort.InsertedKeepsOrder | runtime/osc_runtime.c:3550-3553 | shifting a gap chain up around the inserted value is a permutation that keeps the chain in order |
| ShellSort.IntOrder | runtime/osc_runtime.c:3448-3461 | the comparators of booleans and integers are total preorders; `ShellSort.SortInt` fixes their direction |
| ShellSort.SortInt | runtime/osc_runtime.c:3540-3559 | integers end up in ascending order, a permutation, the rest untouched |
| ShellSort.F64Order | runtime/osc_runtime.c:3463-3471 | the comparator of doubles is a total preorder |
| ShellSort.SortF64 | runtime/osc_runtime.c:3540-3556 | not-a-number values end up last, before them the infinite and finite values in ascending order |
| ShellSort.StrOrder | runtime/osc_runtime.c:3435-3446 | the comparator of strings is a total preorder |
| ShellSort.CompareStrMeaning | runtime/osc_runtime.c:3435-3446 | it is the lexicographic order by bytes |
| ShellSort.CompareStrValue | runtime/osc_runtime.c:3435-3446 | the loop computes that comparison |
| ShellSort.SortStr | runtime/osc_runtime.c:3540-3556 | strings end up in lexicographic order |
| Glob.GlobMatch | runtime/osc_runtime.c:4217-4245 | decides the meaning of the pattern when text or pattern has no star, of whole strings when they have no NUL and fewer than 1024 characters |
| Glob.WithoutStars | runtime/osc_runtime.c:4225-4238 | what a pattern without a star means: as many characters as the text has, each a question mark or the one of the text |
| Glob.AroundStar | runtime/osc_runtime.c:4225-4238 | what a star means: the pattern before it matches the beginning, the pattern after it some end of the text past that |
| Glob.Backtrack | runtime/osc_runtime.c:4225-4238 | the loop terminates and computes the specified scan |
| Glob.AcceptsIsMatches | runtime/osc_runtime.c:4225-4238 | without a star on one side, the scan decides the declarative meaning |
| Glob.RightExactlyWithoutStars | runtime/osc_runtime.c:4231-4232 | the scan is right for all patterns if and only if the text has no star |
| Glob.BuffersRightExactlyWithoutStars | runtime/osc_runtime.c:4217-4245 | the same of the function with its 1024-byte buffers, for every text that leaves room in its buffer or has a star before its last place |
| Glob.WronglyRejected | runtime/osc_runtime.c:4231-4232 | for every text with a star, a matching pattern that is rejected, at most one character longer |
| Lexer.Lexer.Tokenize | src/lexer.rs:29-40 | terminates on every source with the specified tokens or the first error; of all tokens read until the end or the first error, string tokens nest, braces in embedded expressions balance, and tokens lie in order with their own spans, before the error |
| Lexer.Lexer.NextToken | src/lexer.rs:450-497 | one token or error, with the new position, line, column and modes; brace depth never goes below zero |
| Lexer.Lexer.Advance | src/lexer.rs:50-60 | line and column stay those of the position |
| Lexer.Lexer.SkipTrivia | src/lexer.rs:284-305 | past all white space and comments, or the unfinished comment |
| Lexer.Lexer.SkipBlockComment | src/lexer.rs:85-102 | past the first end of comment |
| Lexer.Lexer.ReadStringEscape | src/lexer.rs:104-123 | decodes one escape, or reports it |
| Lexer.Lexer.ReadStringSegment | src/lexer.rs:125-179 | one segment of a string; the mode popped at its end is always string text |
| Lexer.Lexer.ReadNumber | src/lexer.rs:181-230 | an integer in range or a decimal fraction, or the error |
| Lexer.Lexer.ReadIdentifierOrKeyword | src/lexer.rs:232-280 | the longest word, classified |
| Lexer.Lexer.ReadOperator | src/lexer.rs:316-447 | the longest operator, branch by branch |
| Lexer.Lexer.LexNormalToken | src/lexer.rs:282-448 | one token outside string text |
| LexSpec.NextKeepsModes | src/lexer.rs:450-497 | string text and expressions alternate on the stack; its height is twice the number of open strings |
| LexSpec.SourceNested | src/lexer.rs:125-179 | the start, middle and end tokens of any source, up to its end or first error, are a prefix of a well-nested word |
| LexSpec.NextKeepsBraces | src/lexer.rs:474-491 | the depths on the stack count the unclosed braces of the tokens; a brace closes or an expression ends only at the right depth |
| LexSpec.SourceBalances | src/lexer.rs:474-491 | in any source, up to its end or first error, the braces of every embedded expression balance |
| LexSpec.ReadNested | src/lexer.rs:450-497 | tokens read on from any state between tokens continue a nested word |
| LexSpec.ReadBalances | src/lexer.rs:450-497 | and balance the braces of the expressions open there |
| LexSpec.ReadLaidOut | src/lexer.rs:29-40 | from any state, up to the end or the first error: each token but the one that ends the file takes up text, tokens do not overlap, spans are those of their starts, and an error lies after all of them |
| LexSpec.SpanMeaning | src/lexer.rs:50-64 | the line counts line ends before the position, the column counts from the line's start |
| LexSpec.SpansIncrease | src/lexer.rs:50-64 | later positions have later spans |
| LexTokens.WordToken | src/lexer.rs:232-280 | a source of letters, digits and underscores that begins with no digit is one token: a keyword exactly for the 25 words listed, the underscore, or an identifier |
| LexTokens.FnBang | src/lexer.rs:238-249 | `fn!` is one keyword |
| LexTokens.WordsAreWhole | src/lexer.rs:232-280 | in any source, up to its end or first error, no word token can be extended on either side, except to the left into a number it directly follows |
| LexTokens.WordAfterNumber | src/lexer.rs:181-280 | the exception occurs: `1a` is an integer and an identifier |
| LexTokens.OperatorAt | src/lexer.rs:316-447 | where no word, number, string or brace begins, the token is one of the listed two-character texts if it is there, else one of the listed characters, else an error |
| LexTokens.OperatorToken | src/lexer.rs:316-447 | each of the listed operators alone is one token with that text |
| LexTokens.OneCharacter | src/lexer.rs:282-448 | for every character, what a source of that character alone is |
| LexTokens.IntegerToken | src/lexer.rs:181-230 | the decimal text of a number is one integer token of that value, or an error beyond 9223372036854775807 |
| LexTokens.LeadingZeroError | src/lexer.rs:181-230 | more digits after a leading zero are an error |
| LexTokens.FractionToken | src/lexer.rs:181-230 | digits, a point and digits are one float token with that text |
| LexTokens.PointAfterInteger | src/lexer.rs:181-230 | a point without a digit after it is not part of the number |
| LexTokens.EscapeCodes | src/lexer.rs:104-123 | a quote, a backslash, `c` and a quote are the string of code 10, 9, 13, 92, 34 or 0 for `n`, `t`, `r`, backslash, quote and `0`, and an error for every other `c` |
| LexTokens.PlainCharacter | src/lexer.rs:125-179 | any other character between quotes stands for itself |
| LexTokens.DoubledBrace | src/lexer.rs:125-179 | a doubled brace between quotes stands for one |
| LexTokens.EmbeddedWord | src/lexer.rs:125-179 | a quote, a word in braces and a quote are the start, the word and the end of an interpolated string |
| LexTokens.SpaceEndIsLast | src/lexer.rs:66-74 | white space is the longest run of the codes 32, 9, 10, 12 and 13 |
| LexTokens.LineEndIsFirst | src/lexer.rs:76-83 | a line comment goes up to the first line feed |
| LexTokens.CommentEndIsFirst | src/lexer.rs:85-102 | a block comment goes up to the first star with a slash after it, past its opening |
| LexTokens.LineComment | src/lexer.rs:284-305 | a source that is one line comment has no token |
| LexTokens.BlockComment | src/lexer.rs:284-305 | nor has a source that is one block comment |
| LexTokens.OpenComment | src/lexer.rs:284-305 | a block comment without an end is an error past its opening |
| LexRoundTrip.LiteralReadsBack | src/lexer.rs:104-179 | a quote, the escaped string with braces doubled and a quote lex to exactly that string and the end of the file |
| LexRoundTrip.EscapesAreDecoded | src/codegen.rs:3008-3022 | the escapes written are exactly those decoded |
| LexRoundTrip.EscapeCString | src/codegen.rs:3008-3022 | escapes character by character |
| LexRoundTrip.EscapedCodes | src/codegen.rs:3008-3022 | codes 10, 9, 13, 92, 34 and 0 are written as a backslash and `n`, `t`, `r`, backslash, quote and `0`; every other character as itself; strings character by character |

## Left out

- Back end: strings, 64-bit integers and floats as IR values, calls, casts, structs, arrays, `match`, `for`, `try`, `return`, `defer`, arenas, compound assignment and foreign functions; layout, `#line` directives and the spelling of C text.
- CodegenTheorems.BlockMeaningPreserved: a program outside `Faithful` may still be translated rightly; `CodegenLimits` shows that no condition can be dropped, not that every such program goes wrong.
- Integer literals outside 32 bits are ill-typed in the IR model, and so are variables of type unit and `==` between unit values, for which the C text would use a void expression as a value.
- TypeDecls: how names are built from types is a parameter, so names may collide; the walks that collect result and function-pointer types are not modelled.
- IrVerifier: name resolution of types and the checks of node kinds outside the fragment.
- BuildGraph: splitting and trimming the text, number syntax, the text of messages and of the report.
- Runtime: NULL arguments, failing allocation, and all files, sockets, processes, time, graphics, hashing, encoding and floating-point formatting.
- Arena.OscArena.Alloc: the bytes of a block are not modelled, only offsets; in the freestanding build a block is a page-rounded mapping, which is not part of this model.
- DynArray: elements are values, not bytes; the copy of an inserted value takes no arena space in the model.
- HashMap.OscMap.Set: requires the tripled capacity to fit in 32 bits, as the load test does; the hash function itself is a parameter.
- HashMap.RunOps: no set may follow a set on 0x18000000 entries or more, which grows the table so far that the load test of the next set overflows its int32 product. Which runs with five or more deletions panic depends on the hash and is said per state only, by `HashMap.OscMap.Set`.
- DynArray.RunOps: when sizes in bytes can leave the machine's size type, the run may panic earlier than the sequences say; each operation's contract says exactly when. An operation on an array that was never made counts as undefined.
- StrOps.ReplaceString: lengths are assumed to fit in 32 bits.
- ShellSort: the two zeros and the payloads of not-a-number values are not told apart; the integer and boolean comparators share one member.
- Glob.BuffersRightExactlyWithoutStars: leaves open a text of 1023 characters whose only star is the last one, because the wrongly rejected pattern may not fit its buffer.
- Glob.GlobMatch: the variants that call `fnmatch` are not part of this model.
- Lexer: a float literal keeps its text; its conversion to a double is not modelled.
- LexRoundTrip.EscapeCString: how a C compiler reads the escapes (for example a zero escape before a digit) is not modelled.
