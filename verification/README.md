# Verified core of the SSYC compiler

SSYC compiles SysY, a C subset, to ARM assembly: syntax trees become a graph of basic
blocks, memory cells become SSA values, and values get registers. This project models the
parts of it where that is hard to get right, and proves what they are for. All theorems are
about every input: every graph, every statement, every operator sequence, every frame.

## SSA construction

`Digraph` defines paths, reachability and dominance. `Semidominators` has the theory of
depth-first trees and semidominators, `LinkForest` the path-compressed forest as a relation
between its arrays and the tree, `Buckets` one round of the main loop at a time.
`DominatorSolver` is the algorithm itself, on arrays, with its recursive visit, its query, its
buckets and its last pass, proved to give immediate dominators. `DominanceFrontier` walks up the dominator tree for the frontiers and
places phis by worklist; `ReachingDefinitions` proves that one pass in depth-first order
collects exactly the definitions that arrive at each block; `PromotedLoads` rewrites the loads
and relates the rewritten code to runs over memory; `MemoryToRegister` puts these stages together.
`InBlockForwarding` is the pass over single blocks that runs first. `PromotedCode` resets the operands of
its instructions in whole functions, `PromotedRuns` says what the result does on a path, `SiteOrder` and `PromotedProofs`
show that nobody sees a difference, `PhiArguments` that no phi has a single argument, and
`WholePromotion` is the pass with all of this. `Pipeline` runs it after the simplification of the control flow.

What is taken for granted is what the passes before it establish: every block is reachable
(unreachable ones are deleted, src/slime/pass/ControlFlowSimplification.cpp:11-60, which `Pipeline` shows), the entry
has no predecessor (nothing branches to it), registers are in strict SSA form, and promotable cells are allocated at the
head of the entry (src/slime/pass/Resort.cpp:10-30). A phi labels an incoming value with the
block of its definition, not with the predecessor it comes through
(src/slime/pass/MemoryToRegister.cpp:262). A phi on a run therefore takes the argument whose block was visited
last, and all phis of a block take their values at once.

A finding: a query may answer with the root of the linked tree, whose semidominator is just
being lowered. `LinkForest.RootCanWin` is a three-block loop where this happens, and
`LinkForest.RootWinsIff` says exactly when. The algorithm stays correct.

Another: the code that replaces phis with a single incoming value
(src/slime/pass/MemoryToRegister.cpp:318-330) never does anything, because no such phi is ever placed (`PhiArguments.TwoArrive`).

## From syntax trees to blocks

`Ast` is the source language with its evaluation: expressions with side effects,
assignments as l-values, short-circuit operators, and statements with `break` and `continue`
only directly inside `while`, as the diagnosis demands (src/slime/parse/diagnosis.cpp:69-83).
Loops are evaluated with a bound on the rounds of each loop; the theorems hold for all bounds.
`FlowGraph` is the graph of blocks and the machine that runs it, `TranslationProofs` and
`StatementProofs` say what it means that a piece of the graph implements an expression or a
statement, `GraphEdits` how the graph grows, and `Translator` is the translator, an object with
a current block, a loop table and the address of the previous expression.

A boolean in the intermediate representation is 0 or 1 in a full register, which is how the
ARM back end holds it. Shifts and bit operations work on 32 bits, `+`, `-` and `*`
wrap around, and division truncates (`Int32`); `MachineArithmetic` says in numbers what each operator gives, and that
nothing else meets these conditions. What a division by zero gives is the same on both sides and of no
interest. The comment above the short-circuit code describes a phi
(src/slime/visitor/ASTToIRTranslator.cpp:780-806), while the code below it uses a memory cell; the model
follows the code.

## Binary expressions

`BinaryGrammar` has the priorities, the tree of the grammar for a chain of operands and
operators, and equality of meaning; `LayeredGrammar` has the productions of the standard, one level each, and shows
that the priorities give the one tree that they derive. `OperatorStacks` and `ParserAcceptance` have the invariants
of the two-stack parser, and `BinaryParser` both parsers. A comment asks for
operands without side effects before a run of `+` or `*` is balanced (src/slime/parse/parser.cpp:704); the code
does not look, and need not: operand order is kept, so effects are too.

After joining two groups the two-stack parser overwrites the operator between them
(src/slime/parse/parser.cpp:740-741). Nothing reads it afterwards: the only look backwards is at the operator before the
current one, which has not been overwritten then (`OperatorStacks.Unread`).

A finding: the two parsers do not accept the same inputs. The two-stack parser pushes `=`
without reducing first, so `a + b = c` becomes `a + (b = c)`, while the grammar has an
assignment to `a + b`. `BinaryParser.SumAssigned` is this input; `ParseBinaryExpr` states exactly when its tree is
legal, and that it means what the grammar says whenever the grammar's tree is legal.

## Stack slots and registers

`StackSlots` is the frame, seen as an owner for every byte. `RegisterAllocator` allocates the
general registers and emits the code that spills, reloads and releases; that code is run on a
machine with registers, memory and stack pointer. `AllocatedCode` has the meaning of instructions that read operands,
need registers for globals, write a result and use temporaries, and `AllocatedRuns` generates sequences of
them and compares with an execution that has a register for every variable. The value of a global in its register is
the address that the instruction loads there itself.

Registers run out only for an instruction that by itself needs more than there are. The emitted code is right
if and only if the stack pointer does not fall behind the frame. There are two ways in which it can, and
each has its exact condition and its example:

- When a variable begins to live and no register is free, another one is evicted, and the stack pointer is lowered
  even when the value goes to room within the frame (src/slime/backend/regalloc.cpp:529-537):
  `RegisterAllocator.Allocator.Begin` and `RegisterAllocator.LateVariable`.
- When the interval of a local array ends, its slot is given back without an instruction that moves the stack pointer
  (src/slime/backend/regalloc.cpp:190-206): `RegisterAllocator.Allocator.Expire`, `RegisterAllocator.ShiftedReload`
  and `RegisterAllocator.LateArray`. The generator never puts a local array into the list of live variables
  (src/slime/backend/gencode.cpp:760-766).

## Edges between blocks

Edges are kept twice, in the branch fields of the source and in the predecessor set of the
target, and the last instruction says the same a third time. `BlockViews` says what it means
that the three agree, as a relation on snapshots of a function; `BasicBlocks` are the objects with
their edits; `BlockRuns` the instructions that are executed; and `ControlFlowSimplification` the pass
that folds branches and deletes blocks.
Each edit returns whether the assertions on its way hold, which is the case if and only if the two
targets of a replaced branch differ: unlinking both would unlink the same edge twice (`BasicBlocks.BothWaysToOne`).

## Smaller parts

`TypeSignatures` writes types as strings and reads them back. `ArrayInitialisers` regulates
nested initialisers, and shows that constant subscripts, the stores for local arrays and the
directives for global ones all give the array that 6.7.9 of ISO/IEC 9899:2018 describes; braces around a
single element have to be empty, as the code asserts (src/slime/visitor/ASTExprSimplifier.cpp:416), and values that find no
room are dropped.
`LinkedLists` is the intrusive list. A finding: inserting into an empty list does not reset the
outer pointers, so a node that `clear` let go with its neighbours still attached
(src/slime/experimental/utils/LinkedList.h:890-904) makes the new list inconsistent (`LinkedLists.StaleHead`);
`InsertToHead` and `InsertToTail` state exactly when. `LiteralPool` has the labels of literals that are kept
between the instructions.

`Options` and `Int32` are shared.

## Model

| member | source | states |
|---|---|---|
| DominatorSolver.ComputeDominators | src/slime/pass/MemoryToRegister.cpp:397-491 | for every graph whose blocks are all reachable, the Lengauer-Tarjan passes return the immediate dominator of every block but the entry: it strictly dominates the block, and every other strict dominator dominates it, with dominance defined by paths |
| WholePromotion.Promote | src/slime/pass/MemoryToRegister.cpp:143-358 | end to end, operands included: along every path from the entry, from every state and for every behaviour of the other instructions, these see the same operand values before promotion, through memory, and after it, when nothing is stored or loaded any more; no use of a load is left, nothing that was dropped is used, every phi has at least two arguments, and a phi is placed at most once for a variable and only where the frontier asks for one; `news` lists every new instruction once, phis first, and each of them is dropped if and only if it has no use when those before it have been looked at |
| PromotedProofs.SameTrace | src/slime/pass/MemoryToRegister.cpp:247-358 | the simulation behind it: with phis that take the value of the definition whose block was visited last, all at once when a block is entered, the trace of every path is the same |
| PromotedCode.ResetUses | src/slime/pass/MemoryToRegister.cpp:248-312 | load by load in depth-first order every use is reset to the value of the definition; at the end each slot holds the value of the definition that answers it, which dominates the slot, and no slot mentions a load |
| SiteOrder.Fresh | src/slime/pass/MemoryToRegister.cpp:305-307 | why an operand may be read later than the store that had it: on a path to an instruction that `y` dominates, what dominates `y` has not been executed after `y` |
| SiteOrder.FreshDefinition | src/slime/pass/MemoryToRegister.cpp:257-264 | and why a phi may take the operand of a store: while a definition is the last one of its variable, what dominates it is not executed again, since a phi would be in between |
| PhiArguments.TwoArrive | src/slime/pass/MemoryToRegister.cpp:315-330 | where a phi is placed at least two definitions arrive, so the replacement of phis with a single incoming value never happens |
| WholePromotion.CleanUp | src/slime/pass/MemoryToRegister.cpp:316-341 | a phi or initial load is dropped only when no operand and no remaining phi uses it, and always when no operand and no phi argument mentions it; exactly: the instruction at place `i` is dropped if and only if it has no use once the dropped ones before it are gone |
| WholePromotion.ListNews | src/slime/pass/MemoryToRegister.cpp:316-337 | the new instructions that are looked at: all of them, each once, the phis before the initial loads, and the phis in any order that is given |
| MemoryToRegister.RunOnFunction | src/slime/pass/MemoryToRegister.cpp:143-313 | placement and analysis: every load of a promoted variable is answered by one definition, the last one executed on every path from the entry to the load; every phi takes exactly the definitions that arrive at its block on some path, and is there because a definition has the block in its frontier |
| MemoryToRegister.LoadsKeepMeaning | src/slime/pass/MemoryToRegister.cpp:281-311 | on every run along every path, with any values stored: what a load reads from memory is the value of the definition that the pass puts in its place |
| PromotedLoads.PromotionIsCorrect | src/slime/pass/MemoryToRegister.cpp:290-307 | the invariant behind it: value of the latest definition and memory cell stay in step, through stores, phis and initial loads |
| PromotedLoads.LoadSource | src/slime/pass/MemoryToRegister.cpp:290-297 | the set of arriving definitions has exactly one member wherever the rewriting asks for one, so its null case never happens, and that member is last on every path |
| ReachingDefinitions.ComputeReaching | src/slime/pass/MemoryToRegister.cpp:188-245 | a single pass in depth-first order collects, for every block, exactly the definitions that reach its head on some path; no fixpoint iteration is needed once phis are placed |
| ReachingDefinitions.SameDefinitionArrives | src/slime/pass/MemoryToRegister.cpp:293-297 | at a block without a phi for the variable the same definition arrives on any two paths from the entry |
| ReachingDefinitions.CollectedInTime | src/slime/pass/MemoryToRegister.cpp:192-245 | why one pass suffices: when one predecessor of a block without a definition has been processed, everything that leaves the block has been collected |
| ReachingDefinitions.DepthFirstOrder | src/slime/pass/MemoryToRegister.cpp:20-44 | the numbering with an explicit stack visits every block once, the entry first, and every other block after one of its predecessors |
| ReachingDefinitions.Propagate | src/slime/pass/MemoryToRegister.cpp:235-244 | a successor receives the definitions of the block and, for variables the block does not define, those that arrived at it, and nothing else |
| DominanceFrontier.PlaceAllPhis | src/slime/pass/MemoryToRegister.cpp:150-178 | the worklist ends, and every variable gets exactly one phi in each block of the least set that holds the frontiers of its store blocks and is closed under frontiers, and none elsewhere |
| DominanceFrontier.PlacePhis | src/slime/pass/MemoryToRegister.cpp:153-177 | for one variable: the visited set is the iterated frontier, and the phi goes to the head of each of its blocks and no other |
| DominanceFrontier.IteratedFrontierUnique | src/slime/pass/MemoryToRegister.cpp:162-175 | whatever order the worklist takes, the blocks that get phis are the same |
| DominanceFrontier.ComputeFrontiers | src/slime/pass/MemoryToRegister.cpp:499-511 | frontiers are exact: `b` is in the frontier of `x` if and only if `x` dominates a predecessor of `b` and does not strictly dominate `b` |
| DominanceFrontier.WalkUp | src/slime/pass/MemoryToRegister.cpp:504-509 | the runner ends at the immediate dominator, and the walk from one predecessor adds the block to exactly the frontiers that this predecessor accounts for |
| DominanceFrontier.SinglePredNoFrontier | src/slime/pass/MemoryToRegister.cpp:503 | skipping blocks with at most one predecessor loses nothing: they are in no frontier |
| DominanceFrontier.ComputeDomFrontier | src/slime/pass/MemoryToRegister.cpp:361-517 | the two maps handed to the pass: immediate dominators of every block but the entry, and exact frontiers |
| DominatorSolver.Solver.Query | src/slime/pass/MemoryToRegister.cpp:437-445 | with path compression the query returns the root of the linked tree of the block and leaves in `minNode` a vertex of earliest semidominator on the forest path, root included; the forest stays a correct abbreviation of the search tree, and the recursion ends because links decrease the visit number |
| LinkForest.Compress | src/slime/pass/MemoryToRegister.cpp:440-443 | compressing one link keeps root and minimum of the path |
| LinkForest.AnswerIsUnique | src/slime/pass/MemoryToRegister.cpp:437-445 | any two answers for one block name the same semidominator, so compression in between never changes a later answer |
| LinkForest.RootIsUnique | src/slime/pass/MemoryToRegister.cpp:437-445 | a block hangs below one root only, whatever has been compressed |
| LinkForest.RootWinsIff | src/slime/pass/MemoryToRegister.cpp:439-442 | the answer is the root itself if and only if the root's recorded semidominator is strictly earlier than that of every other block on the path |
| LinkForest.RootCanWin | src/slime/pass/MemoryToRegister.cpp:461-467 | a three-block loop on which the query answers with the root: the claim that the root is never chosen is false |
| DominatorSolver.Solver.Tarjan | src/slime/pass/MemoryToRegister.cpp:426-435 | the recursive visit numbers everything reachable that was not numbered, in intervals that nest, and leaves earlier visits alone |
| DominatorSolver.Solver.BuildGraph | src/slime/pass/MemoryToRegister.cpp:385-395 | the chains threaded through one edge array hold exactly the successors and exactly the predecessors of every block |
| DominatorSolver.Solver.ComputeSemi | src/slime/pass/MemoryToRegister.cpp:459-468 | after scanning the predecessors of a block, `semi` holds its semidominator, defined by paths whose interior is visited later |
| DominatorSolver.Solver.DrainBucket | src/slime/pass/MemoryToRegister.cpp:475-484 | emptying the bucket of the tree parent settles every block that waited there |
| DominatorSolver.Solver.ProcessBlock | src/slime/pass/MemoryToRegister.cpp:457-485 | one round of the main loop keeps forest, semidominators and buckets consistent and moves the bound by one block |
| DominatorSolver.Solver.Finalize | src/slime/pass/MemoryToRegister.cpp:487-491 | the last pass turns settled blocks into immediate dominators in visit order |
| Semidominators.SemiIsIdom | src/slime/pass/MemoryToRegister.cpp:406-417 | if no block between the semidominator and the block has an earlier semidominator, the semidominator is the immediate dominator |
| Semidominators.IdomOfMinimum | src/slime/pass/MemoryToRegister.cpp:414-417 | otherwise the block with the earliest semidominator on that stretch has the same immediate dominator |
| Semidominators.CandidatesSuffice | src/slime/pass/MemoryToRegister.cpp:409-412 | direct predecessors and the semidominators of later ancestors of predecessors are all the candidates for a semidominator |
| Semidominators.PathMinimum | src/slime/pass/MemoryToRegister.cpp:404-417 | the path lemma of depth-first trees: the first-visited block of a path is an ancestor of everything after it |
| Digraph.DominatorsComparable | src/slime/pass/MemoryToRegister.cpp:397-417 | two dominators of one reachable block dominate one another in one direction |
| Digraph.IdomUnique | src/slime/pass/MemoryToRegister.cpp:397-417 | a block has at most one immediate dominator |
| MemoryToRegister.PlacementSuffices | src/slime/pass/MemoryToRegister.cpp:150-186 | the placed phis and the initial loads establish what the reaching-definition pass relies on |
| Pipeline.SimplifyThenPromote | src/slime/pass/ControlFlowSimplification.cpp:11-60 | one pass after the other: unless a branch goes to the first block, what control flow simplification leaves meets all that promotion relies on (every block reachable, no way back to the entry, exact predecessors), its answers hold, and every run of the function as it was before is along a path of the graph that promotion worked on |
| Pipeline.VisitsArePaths | src/slime/pass/ControlFlowSimplification.cpp:29-59 | the blocks that a run visits before simplification are kept, and are a path afterwards |
| InBlockForwarding.SimplifyBlock | src/slime/pass/MemoryToRegister.cpp:46-110 | for every instruction sequence in single-assignment form, every initial state and every behaviour of the other instructions: these see the same operand values, promotable memory ends up the same, uses outside the block read the same values; one store per variable is left, and no load after a store; an instruction is removed if and only if it is a store before another one of the variable, a load after a store of the variable, or a load whose result nothing in the block or outside has as an operand |
| InBlockForwarding.UsedAsBefore | src/slime/pass/MemoryToRegister.cpp:90-94 | when a load is met, its result has uses if and only if it had some in the block as it was |
| InBlockForwarding.ForwardStep | src/slime/pass/MemoryToRegister.cpp:97-107 | replacing all uses of a load by the operand of the latest store keeps the simulation |
| InBlockForwarding.StoreStep | src/slime/pass/MemoryToRegister.cpp:73-85 | removing the overwritten store keeps the simulation |
| Translator.Builder.constructor | src/slime/visitor/ASTToIRTranslator.cpp:355-365 | whole function bodies, both directions: the body ends normally with a store, or returns a value with a store, if and only if the run of the blocks from the entry arrives at the last block, or halts, with the same store and value; all blocks but the last are complete; every register is assigned by one instruction only, and the cell of every short-circuit operator is allocated by one |
| Translator.Builder.TranslateStmt | src/slime/visitor/ASTToIRTranslator.cpp:367-407 | the blocks built for any statement implement it: normal end, `break`, `continue`, `return` and endless rounds of the evaluation are matched by the exit point, the loop's exit block, the loop's condition block, a return and an endless run; all other blocks stay as they were |
| Translator.Builder.TranslateIf | src/slime/visitor/ASTToIRTranslator.cpp:409-446 | both forms of `if`, with the `else` branch translated first |
| Translator.Builder.TranslateDo | src/slime/visitor/ASTToIRTranslator.cpp:448-485 | body first, then the condition |
| Translator.Builder.TranslateWhile | src/slime/visitor/ASTToIRTranslator.cpp:487-524 | condition block, body, exit; the loop table says where `break` and `continue` go |
| Translator.Builder.TranslateFor | src/slime/visitor/ASTToIRTranslator.cpp:526-574 | first clause, optional condition, body and step; without a condition the loop is endless |
| Translator.Builder.TranslateLeave | src/slime/visitor/ASTToIRTranslator.cpp:576-593 | `break` and `continue` jump to the blocks noted for their loop, and what follows goes to an unreachable block |
| Translator.Builder.TranslateReturn | src/slime/visitor/ASTToIRTranslator.cpp:595-621 | the block is marked terminal with the value, and what follows goes to an unreachable block |
| Translator.Builder.TranslateDecl | src/slime/visitor/ASTToIRTranslator.cpp:263-305 | a local variable is allocated and its initialiser stored |
| Translator.Builder.TranslateCompound | src/slime/visitor/ASTToIRTranslator.cpp:367-407 | statements in order, stopping where one of them leaves |
| Translator.Builder.TranslateExpr | src/slime/visitor/ASTToIRTranslator.cpp:623-656 | the code for an expression with side effects delivers its value and its effects, from every machine state, without touching registers of others; for an l-value the address is left behind |
| Translator.Builder.TranslateShortCircuit | src/slime/visitor/ASTToIRTranslator.cpp:808-866 | `&&` and `logical or` run the right operand only when the left one does not decide (6.5.13 and 6.5.14 of ISO/IEC 9899:2018), and the result is 0 or 1 |
| Translator.Builder.TranslateAssign | src/slime/visitor/ASTToIRTranslator.cpp:868-911 | the right operand is evaluated after the left one, stored at its address, and read back as the value of the assignment |
| Translator.Builder.TranslateUnary | src/slime/visitor/ASTToIRTranslator.cpp:713-751 | the four unary operators, on booleans and integers |
| Translator.Builder.TranslateBinary | src/slime/visitor/ASTToIRTranslator.cpp:868-1070 | both operands once, the left one first, and then the operator |
| Translator.Builder.EmitBinary | src/slime/visitor/ASTToIRTranslator.cpp:912-1070 | the code leaves the result of the operator, also when one operand is boolean and the other is not; for operands of 32 bits it is the one number that `MachineArithmetic.IsResult` asks for |
| MachineArithmetic.OperatorResult | src/slime/visitor/ASTToIRTranslator.cpp:952-1058 | the operators in numbers, for all operands of 32 bits: `+`, `-`, `*` and `<<` modulo 2^32 and in the signed range; `>>` between the two multiples of the power of two; bit operators bit by bit; comparisons 0 or 1; division where it is defined |
| MachineArithmetic.DivisionTruncates | src/slime/visitor/ASTToIRTranslator.cpp:961-1037 | quotient and rest of one division: `a` is `q * b + r`, `r` is smaller than `b` and zero or of the sign of `a`, so -7 divided by 2 is -3 and leaves -1 |
| MachineArithmetic.ResultIsUnique | src/slime/visitor/ASTToIRTranslator.cpp:912-1058 | these conditions leave one number only |
| MachineArithmetic.UnaryResult | src/slime/visitor/ASTToIRTranslator.cpp:713-751 | the unary operators in numbers: the negated number, with wrap-around, 0 or 1, and the number below the negated one |
| Translator.Builder.ToBoolean | src/slime/visitor/ASTToIRTranslator.cpp:151-200 | the minimum boolean expression is 1 exactly when its operand is not 0 |
| Translator.Builder.TranslateComma | src/slime/visitor/ASTToIRTranslator.cpp:1072-1084 | a comma list has the effects of all its parts and the value of the last one |
| StatementProofs.RunsExactly | src/slime/visitor/ASTToIRTranslator.cpp:355-365 | what implements a statement does nothing else: completion and return of statement and run are equivalent, for all stores |
| StatementProofs.LoopImplements | src/slime/visitor/ASTToIRTranslator.cpp:448-574 | the three loop shapes implement the three loops for any number of rounds |
| StatementProofs.IfImplements | src/slime/visitor/ASTToIRTranslator.cpp:409-446 | the branch shapes implement `if` |
| StatementProofs.StaysInside | src/slime/parse/diagnosis.cpp:69-83 | `break` and `continue` never leave a statement that is not directly inside `while` |
| TranslationProofs.ShortCircuitYields | src/slime/visitor/ASTToIRTranslator.cpp:780-806 | the diamond of blocks evaluates the short-circuit operator in every machine state |
| FlowGraph.RunGrows | src/slime/visitor/ASTToIRTranslator.cpp:822-865 | adding blocks and extending incomplete ones changes no run that was possible before |
| BinaryParser.Parser.ParseBinaryExpr | src/slime/parse/parser.cpp:669-764 | for every operator sequence the two-stack parser keeps operands and operators in order; whenever the grammar makes the input legal its tree has the same value and the same effects as the tree of the grammar, from every store; all tokens are consumed, so that the parser stands at the token behind the expression; and its tree is legal if and only if every assignment meets a condition on its neighbours |
| BinaryParser.Parser.ParseBinaryExprWithPriority | src/slime/parse/parser.cpp:1058-1089 | precedence climbing builds exactly the tree of the grammar, up to the first operator that does not belong |
| BinaryParser.ParseTwice | src/slime/parse/parser.cpp:682-689 | both parsers from the same start: they stop at the same token, behind all operands and operators, one with the tree of the grammar and the other with a tree that means the same |
| BinaryParser.Parser.CombineTokens | src/slime/parse/parser.cpp:691-760 | the main loop and the final unwinding: the claims of `ParseBinaryExpr` on the collected tokens |
| BinaryParser.Parser.ReduceTighter | src/slime/parse/parser.cpp:734-748 | joining groups while the waiting operator binds at least as tightly keeps operand order, meaning and acceptance |
| BinaryParser.Parser.FreeRun | src/slime/parse/parser.cpp:705-725 | the stretch that is balanced consists of one operator, and its neighbours do not claim its ends |
| LayeredGrammar.UniqueTree | src/slime/parse/priority.h:28-66 | the priority table is right: the productions for binary operators in 6.5.5 to 6.5.16 of ISO/IEC 9899:2018, one level each, derive exactly one tree for every chain of operands and operators, and it is the one that the priorities give (an l-value on the left of `=` is asked for separately) |
| BinaryGrammar.GroupingSpells | src/slime/parse/parser.cpp:1058-1089 | the tree of the grammar has the operands and the operators of the input, in their order |
| BinaryGrammar.JoinGroups | src/slime/parse/parser.cpp:735-744 | two groups joined at an operator mean the same as the grammar's group over both |
| BinaryGrammar.Regroup | src/slime/parse/parser.cpp:704-732 | `+` and `*` may be regrouped: same operands in the same order, same value under wrap-around, same effects |
| BinaryGrammar.LegalExactly | src/slime/parse/parser.cpp:1065-1076 | the grammar's tree is a legal expression if and only if every `=` precedes all other operators and has an l-value on its left |
| OperatorStacks.FoldMeans | src/slime/parse/parser.cpp:654-667 | a balanced run means the same as the left-associative one |
| OperatorStacks.FoldSpells | src/slime/parse/parser.cpp:654-667 | balancing keeps operands, operators and their order |
| OperatorStacks.FoldIsFlat | src/slime/parse/parser.cpp:654-667 | balancing pays: up to 2^k operators fit into a tree of height k + 1 |
| ParserAcceptance.LegalFits | src/slime/parse/parser.cpp:696-702 | whatever the grammar accepts the two-stack parser accepts |
| ParserAcceptance.FitsThoughIllegal | src/slime/parse/parser.cpp:696-702 | but not conversely: `a + b = c` meets the condition of the two-stack parser and is not legal in the grammar |
| BinaryParser.SumAssigned | src/slime/parse/parser.cpp:696-702 | the two-stack parser makes `a + (b = c)` of it |
| AllocatedRuns.GenInstList | src/slime/backend/gencode.cpp:755-791 | over any straight-line sequence of instructions with temporaries and globals: in functions without calls, code is generated if and only if no instruction needs more registers at once than there are; and the code lets every instruction see the operand values that it would see with one register per variable if and only if the stack pointer does not fall behind the frame, which cannot happen as long as values fit into registers and no array ends |
| AllocatedRuns.GenInst | src/slime/backend/gencode.cpp:793-912 | the same for one instruction: registers for what begins to live, operands back in registers, globals on demand, temporaries with the operands whitelisted, the instruction, release by number, expiry; a global keeps its register unless a store drops it or its interval is over; on failure all registers are taken and nobody but operands could give one up |
| AllocatedRuns.ArgumentsStay | src/slime/backend/regalloc.cpp:327-349 | from a fresh allocator, after any block of code: in a function that calls, no variable has one of the registers 0 to 3 that hold arguments, as far as there are so many; none has register 11 when that points to arguments on the stack |
| AllocatedRuns.Prepare | src/slime/backend/regalloc.cpp:461-584 | everything an instruction needs is in registers at the same time and temporaries are nobody else's; the code is right if and only if the stack pointer does not fall behind |
| AllocatedRuns.TooMany | src/slime/backend/regalloc.cpp:370-371 | the compiler's assertion that somebody can be spilled fails only for an instruction that needs more registers than variables and temporaries can have |
| AllocatedRuns.SpillingRun | src/slime/backend/gencode.cpp:793-912 | from a fresh allocator: twelve values, an instruction with a temporary that forces a spill, one that reloads; the code stores and loads and is right |
| AllocatedCode.OneRun | src/slime/backend/gencode.cpp:907-912 | support code before the instruction and release code after it, run on the machine, match one step of the ideal execution, in which the instruction also writes its temporaries |
| AllocatedCode.SimulatesDisplaces | src/slime/backend/regalloc.cpp:529-537 | right code moves the stack pointer exactly as the frame grows and shrinks |
| StackSlots.Stack.SpillVar | src/slime/backend/regalloc.h:194-245 | first fit, exactly: the frame grows if and only if no stretch of free bytes is large enough; otherwise the lowest such stretch is taken; nobody else's byte changes owner, and `stackpos` equals the lookup |
| StackSlots.Stack.ReleaseOnStackVar | src/slime/backend/regalloc.h:247-289 | the bytes of the variable become free, nobody else's change, and the result is exactly the shrinkage, which is positive if and only if the variable owned the end of the frame; what remains does not end in free bytes |
| StackSlots.Stack.PushVar | src/slime/backend/regalloc.h:177-180 | a new slot at the end of the frame |
| StackSlots.Stack.PopVar | src/slime/backend/regalloc.h:182-192 | only the last slot can be popped |
| StackSlots.Stack.LookupOnStackVar | src/slime/backend/regalloc.h:291-299 | the end of the slot of the variable |
| StackSlots.Stack.MergeFragments | src/slime/backend/regalloc.h:203-219 | joining free neighbours changes no owner |
| StackSlots.Disjoint | src/slime/backend/regalloc.h:194-245 | two variables never end at the same place |
| StackSlots.OccupiesAt | src/slime/backend/regalloc.h:291-299 | the bytes a variable owns are exactly those before its lookup position |
| StackSlots.LookupByOwners | src/slime/backend/regalloc.h:291-299 | positions depend on owners only, so merging and splitting free slots moves nobody |
| RegisterAllocator.Allocator.AllocateGeneralRegister | src/slime/backend/regalloc.cpp:323-383 | a register at any price: none is given if and only if all are taken and no live variable outside the whitelist has one; the register handed out is nobody else's and, unless a variable already had it, none that holds arguments of calls, variables on the whitelist keep theirs, and the one that is needed no longer than the others is on the stack with its value there |
| RegisterAllocator.Allocator.FindFree | src/slime/backend/regalloc.cpp:328-349 | the first free one of the registers from 0 to 11, or in a function that calls from 4 or the number of integer arguments on, whichever is less; none if and only if all of these are taken |
| RegisterAllocator.FirstRegister | src/slime/backend/regalloc.cpp:327-338 | the first register that a fresh allocator gives away: 0, or in a function that calls the number of integer arguments, but at most 4 |
| RegisterAllocator.Allocator.HeldAreTaken | src/slime/backend/regalloc.cpp:167-172 | what variables and temporaries hold is one of twelve registers, taken, and not the one that points to the arguments on the stack |
| RegisterAllocator.Allocator.GetMinIntervalRegVar | src/slime/backend/regalloc.cpp:283-303 | of the live variables in registers and not on the whitelist, one whose interval ends first; none if there is none |
| RegisterAllocator.Allocator.UpdateAllocation | src/slime/backend/regalloc.cpp:550-582 | all operands of an instruction are in registers at the same time and no value is lost on the way, globals that have no register get one; it fails if and only if all registers are taken and only operands have them, with one operand still without |
| RegisterAllocator.Allocator.Acquire | src/slime/backend/regalloc.cpp:575-582 | a global on demand: the operands keep their registers, and the value is whatever is in the register |
| RegisterAllocator.Allocator.Reload | src/slime/backend/regalloc.cpp:554-574 | one operand comes back to a register while the other operands keep theirs |
| RegisterAllocator.Allocator.LoadBack | src/slime/backend/regalloc.cpp:560-574 | the load reads the right place, and the frame shrinks by what was released |
| RegisterAllocator.Allocator.Spill | src/slime/backend/regalloc.cpp:370-382 | the stored value is found at the frame base minus `stackpos`; the frame grows if and only if it has no room |
| RegisterAllocator.Allocator.Begin | src/slime/backend/regalloc.cpp:493-545 | a variable that begins to live gets a free register, or that of the variable that is needed no longer than the others and no operand; all values stay where the allocator says if and only if nothing is spilled into room within the frame |
| RegisterAllocator.Allocator.Evict | src/slime/backend/regalloc.cpp:528-545 | the stack pointer is lowered whether the frame grows or not; a global is dropped without a store |
| RegisterAllocator.LateVariable | src/slime/backend/regalloc.cpp:529-537 | a state in which this goes wrong: all registers taken and room below a spilled variable |
| RegisterAllocator.Allocator.ReleaseRegister | src/slime/backend/regalloc.cpp:432-446 | the register of a variable becomes free, and all other values stay |
| RegisterAllocator.Allocator.ReleaseTemporary | src/slime/backend/regalloc.cpp:442-446 | a register is given back by its number; no variable has it |
| RegisterAllocator.Allocator.CheckLiveInterval | src/slime/backend/regalloc.cpp:179-211 | exactly the variables whose interval is over are dropped, the others stay where they are; the stack pointer falls behind by what arrays released at the end of the frame, and by nothing if no array is among the dropped |
| RegisterAllocator.Allocator.Expire | src/slime/backend/regalloc.cpp:186-207 | one such variable; for an array the frame shrinks without code, and does so if and only if the array owns the end of the frame |
| RegisterAllocator.ShiftedReload | src/slime/backend/regalloc.cpp:190-206 | with the stack pointer off by any amount, a reload delivers the right value for all values if and only if the amount is zero |
| RegisterAllocator.LateArray | src/slime/backend/regalloc.cpp:190-206 | a frame in which an array at the end expires, no code is emitted, and the next reload can deliver another value |
| RegisterAllocator.Allocator.NoVictimMeansFull | src/slime/backend/regalloc.cpp:350-371 | when nobody can be spilled, whitelisted variables and temporaries hold all registers from the base on |
| RegisterAllocator.ResultWritten | src/slime/backend/regalloc.cpp:503-512 | writing a result to its register harms no other value |
| BasicBlocks.BasicBlock.InsertNewBlockAfter | src/slime/pass/FunctionInlining.cpp:162-182 | splitting a block keeps edges and predecessor sets equal and branch fields equal to the last instruction, and every run executes the same instructions |
| BasicBlocks.BasicBlock.Reset | src/slime/ir/cfg.cpp:13-36 | the first form: edges, fields and terminator go, and all other instructions stay in their order: where fields and instructions agree, all but a final terminator; the assertions hold if and only if the two targets differ |
| BasicBlocks.BasicBlock.ResetTo | src/slime/ir/cfg.cpp:38-44 | the second form: a jump, behind the instructions that were there without their terminator |
| BasicBlocks.BasicBlock.ResetToTerminal | src/slime/ir/cfg.cpp:45-50 | the second form with the terminal as target: a return without value, behind the instructions that were there without their terminator |
| BasicBlocks.BasicBlock.ResetBranch | src/slime/ir/cfg.cpp:53-64 | the third form: a branch on a value, behind the instructions that were there without their terminator |
| BasicBlocks.BasicBlock.TryMarkAsTerminal | src/slime/ir/cfg.cpp:66-85 | succeeds if and only if the block is incomplete and the value fits, and else changes nothing |
| BasicBlocks.BasicBlock.SyncFlowWithInst | src/slime/ir/cfg.cpp:87-115 | edges and fields become those of the last instruction |
| BasicBlocks.BasicBlock.Unlink | src/slime/ir/cfg.cpp:16-18 | both targets forget the block; the assertion of the second unlink fails if and only if the targets are equal |
| BasicBlocks.BasicBlock.Remove | src/slime/ir/value.cpp:78-88 | refused if and only if the block has incoming edges |
| BasicBlocks.BothWaysToOne | src/slime/ir/cfg.cpp:13-64 | a branch may be given one block as both targets; when it is replaced an assertion fails |
| BlockViews.AttachedLinked | src/slime/ir/cfg.cpp:151-156 | telling the targets of new edges keeps predecessor sets equal to edges, also when both targets are one block, which then has one predecessor |
| BlockViews.DetachedLinked | src/slime/ir/cfg.cpp:158-164 | after unlinking both targets no predecessor set has the block any more, and all others still equal the edges |
| BlockViews.EndedLinked | src/slime/ir/cfg.cpp:38-85 | ending a block anew keeps, for all blocks, `p` in `inBlocks(b)` if and only if `b` is a target of `p` |
| BlockViews.EndedMatches | src/slime/ir/cfg.cpp:38-85 | and keeps branch fields equal to the last instruction |
| BlockViews.EndedKeeps | src/slime/ir/cfg.cpp:19-31 | whatever the fields say, ending a block anew keeps every instruction that is no terminator, in its order; no other block changes its instructions |
| BlockRuns.EndedRuns | src/slime/pass/FunctionInlining.cpp:67-70 | so a run does the same until it leaves the block that is ended anew |
| BlockViews.SyncedMatches | src/slime/ir/cfg.cpp:87-115 | after syncing, fields match the last instruction whatever they were before |
| BlockViews.SplitConsistent | src/slime/pass/FunctionInlining.cpp:166-179 | both views after a split, and where every instruction went |
| BlockRuns.SplitTrace | src/slime/pass/FunctionInlining.cpp:166-179 | every run of the old code is matched by one of the split code with the same instructions |
| BlockRuns.SplitTraceBack | src/slime/pass/FunctionInlining.cpp:166-179 | and the split code executes nothing else |
| ControlFlowSimplification.RunOnFunction | src/slime/pass/ControlFlowSimplification.cpp:11-60 | terminates; keeps exactly the blocks reachable after folding; no removal is refused; every run from a kept block executes the same instructions as before; the assertions hold if and only if no branch has equal targets |
| ControlFlowSimplification.BothWaysToOne | src/slime/pass/ControlFlowSimplification.cpp:29-41 | a two-block function with such a branch, for which an assertion fails |
| ControlFlowSimplification.Search | src/slime/pass/ControlFlowSimplification.cpp:17-51 | the search folds exactly the blocks it visits and visits exactly the blocks reachable in the folded code |
| ControlFlowSimplification.FoldBranch | src/slime/pass/ControlFlowSimplification.cpp:29-41 | a branch that can go only one way becomes a jump |
| ControlFlowSimplification.ClearUnvisited | src/slime/pass/ControlFlowSimplification.cpp:54-55 | unvisited blocks lose their edges, visited ones keep their code |
| ControlFlowSimplification.RemoveUnvisited | src/slime/pass/ControlFlowSimplification.cpp:56-59 | no unvisited block has incoming edges left, so none refuses |
| BlockRuns.NextChoice | src/slime/pass/ControlFlowSimplification.cpp:29-41 | where a run goes: by the choice on a computed value, always to the same side on a constant, and without a choice when both ways lead to one block |
| BlockRuns.FoldTrace | src/slime/pass/ControlFlowSimplification.cpp:29-41 | folding constant branches and dropping unreachable blocks changes no run |
| TypeSignatures.From | src/slime/experimental/ir/Type.cpp:281-393 | round trip: wherever the signature of a well-formed type stands and no digit follows, the type is read back, whatever comes after it; and anywhere: words and widths are read as they stand, numbers from all digits that follow, and other letters give nothing |
| TypeSignatures.FromArray | src/slime/experimental/ir/Type.cpp:356-370 | forward to the element type, then backward over the sizes |
| TypeSignatures.BackOverSizes | src/slime/experimental/ir/Type.cpp:361-368 | the backward scan rebuilds the dimensions in order; it fails if and only if something else than digits, underscores and the letter `A` stands between |
| TypeSignatures.FromFunction | src/slime/experimental/ir/Type.cpp:371-388 | result type and nested parameter types; the length of the signature of each says where the next begins; behind the result stands an underscore exactly if there are parameters, and at the end the closing letter |
| TypeSignatures.FromParams | src/slime/experimental/ir/Type.cpp:378-386 | all parameters up to the closing letter |
| TypeSignatures.Unique | src/slime/experimental/ir/Type.cpp:90-137 | at one place of a string at most one type can stand |
| TypeSignatures.Injective | src/slime/experimental/ir/Type.cpp:90-137 | types with the same signature are equal |
| TypeSignatures.ArraySign | src/slime/experimental/ir/Type.cpp:103-119 | an array of arrays lists its sizes one after the other, outermost first |
| TypeSignatures.Texts | src/slime/experimental/ir/Type.cpp:15-228 | the words `void`, `addr` and `bool`, the letters of the other types, and all integer and floating point types spelled out |
| TypeSignatures.DecimalIs | src/slime/experimental/ir/Type.cpp:103-119 | numbers are written in decimal, by the codes of the characters, without superfluous zeros |
| ArrayInitialisers.RegulateInitListForArray | src/slime/visitor/ASTExprSimplifier.cpp:474-490 | every initialiser with nested braces becomes a regular list that denotes the same dense array as the cursor reading of 6.7.9 of ISO/IEC 9899:2018, with zero fill; there is no result if and only if that reading meets braces around a single element that are not empty |
| ArrayInitialisers.ConsumeArrayInitBlock | src/slime/visitor/ASTExprSimplifier.cpp:402-472 | one part of the array takes exactly the items that belong to it, from the shared position or from its own braces; without a result the reading fails from the first of these items on |
| ArrayInitialisers.ConsumeElements | src/slime/visitor/ASTExprSimplifier.cpp:411-452 | the innermost dimension, where the assertion on empty braces fails exactly when the reading does |
| ArrayInitialisers.AlignedIs | src/slime/visitor/ASTExprSimplifier.cpp:454-469 | at the beginning of a row a brace opens exactly that row |
| ArrayInitialisers.EvaluateSubscript | src/slime/visitor/ASTExprSimplifier.cpp:96-146 | constant subscripts give the element of the dense array, and zero whenever one of them is out of bounds |
| ArrayInitialisers.TranslateArrayInitAssign | src/slime/visitor/ASTToIRTranslator.cpp:1161-1202 | run on zeroed memory, the stores write exactly the dense array and nothing outside it |
| ArrayInitialisers.GenGlobalArrayInitData | src/slime/backend/gencode.cpp:199-230 | the directives put exactly the words of the dense array into the data section, and total exactly its size in bytes |
| ArrayInitialisers.DenseAt | src/slime/visitor/ASTExprSimplifier.cpp:126-144 | where an element lies in the dense array |
| LinkedLists.List.Swap | src/slime/experimental/utils/LinkedList.h:936-964 | exchanges two nodes, be they equal, neighbours, one apart, or at the ends |
| LinkedLists.Node.MoveBefore | src/slime/experimental/utils/LinkedList.h:383-410 | exactly one node changes its place, and all pointers, head and tail are right |
| LinkedLists.Node.MoveAfter | src/slime/experimental/utils/LinkedList.h:412-439 | likewise |
| LinkedLists.Node.MoveToPrev | src/slime/experimental/utils/LinkedList.h:463-482 | one step towards the head |
| LinkedLists.Node.MoveToNext | src/slime/experimental/utils/LinkedList.h:484-503 | one step towards the tail |
| LinkedLists.List.InsertBefore | src/slime/experimental/utils/LinkedList.h:851-869 | insertion before a node |
| LinkedLists.List.InsertAfter | src/slime/experimental/utils/LinkedList.h:871-888 | insertion after a node |
| LinkedLists.List.InsertToHead | src/slime/experimental/utils/LinkedList.h:817-832 | insertion at the head; the list is consistent afterwards if and only if it was not empty or the node had no stale successor |
| LinkedLists.List.InsertToTail | src/slime/experimental/utils/LinkedList.h:834-849 | insertion at the tail, with the same exact condition on a stale predecessor |
| LinkedLists.List.Clear | src/slime/experimental/utils/LinkedList.h:890-904 | the list is empty, and its nodes have no parent but still their neighbours |
| LinkedLists.StaleHead | src/slime/experimental/utils/LinkedList.h:817-832 | fill a list with two nodes, clear it, insert the old head again: the list is inconsistent |
| LinkedLists.List.Remove | src/slime/experimental/utils/LinkedList.h:906-928 | removal, with the node left without neighbours and parent |
| LinkedLists.TwoMovesSwap | src/slime/experimental/utils/LinkedList.h:950-963 | the two moves of `swap`, composed, are the exchange and nothing else |
| LinkedLists.UnlinkedShape | src/slime/experimental/utils/LinkedList.h:911-922 | joining the neighbours of a node gives the shape of the sequence without it |
| LinkedLists.LinkedBeforeShape | src/slime/experimental/utils/LinkedList.h:858-865 | the pointer writes before a node give the shape of the longer sequence |
| LinkedLists.LinkedAfterShape | src/slime/experimental/utils/LinkedList.h:877-884 | likewise after a node |
| LiteralPool.Generator.EndFunction | src/slime/backend/gencode.cpp:44-66 | the pool at the end of a function defines exactly what waits; then every label is defined at most once in all the code emitted so far, and every reference is served: its label is defined later, as the word that the instruction expects, with at most 512 instructions in between |
| LiteralPool.Generator.Instrln | src/slime/backend/gencode.h:100-130 | one instruction, and after every 512th one a pool with a jump over it that defines exactly what waits; all counters and labels afterwards are stated; the invariant that everything referred to is defined in time or still can be is kept |
| LiteralPool.Generator.GenInFuncDataSection | src/slime/backend/gencode.cpp:58-66 | a pool defines exactly the pending literals, each once, and afterwards none of these labels is handed out again |
| LiteralPool.Generator.RequireImmediate | src/slime/backend/gencode.cpp:68-75 | one label per constant between two pools, a fresh one otherwise |
| LiteralPool.Generator.GenImmediatePool | src/slime/backend/gencode.cpp:77-85 | every pending constant once, and then they are forgotten |
| LiteralPool.Generator.GenIndirectFpConstantAddrs | src/slime/backend/gencode.cpp:522-531 | every floating point constant once, and all versions go up |
| LiteralPool.Generator.GenUsedGlobVars | src/slime/backend/gencode.cpp:383-390 | every announced global once |
| LiteralPool.Generator.AddUsedGlobalVar | src/slime/backend/gencode.cpp:474-483 | a global gets a number when it is announced for the first time, and keeps it |
| LiteralPool.RefreshRetires | src/slime/backend/gencode.cpp:485-493 | after a refresh the labels that globals had are used up, the same globals have labels that were never in use, and no label before equals one after |
| LiteralPool.Generator.LoadImmediate | src/slime/backend/gencode.cpp:2542-2545 | one load is emitted, and the pool if it is due; it refers to a label whose word is the constant |
| LiteralPool.Generator.LoadGlobalAddress | src/slime/backend/gencode.cpp:2547-2552 | likewise for the address of an announced global |
| LiteralPool.Generator.LoadFloatConstant | src/slime/backend/gencode.cpp:495-520 | a floating point constant is registered once; a load of its address and a load through that address are emitted, and the pool after the first or the second one if it is due there |
| LiteralPool.SoundFlush | src/slime/backend/gencode.h:120-128 | a pool serves everything that waits, with or without the jump over it |
| LiteralPool.FlushedConsistent | src/slime/backend/gencode.cpp:485-493 | labels used before a pool stay used up after it |

## Left out

- WholePromotion.Promote: works on values (blocks as sequences, operands in a table of slots), so update in place and aliasing of operands are not captured; every load and store of the function is of a promoted variable, others count as other instructions; allocations are not part of the code, and their removal is not modelled.
- WholePromotion.ListNews: the order of the phis is a parameter, since the compiler takes that of a set of pointers; initial loads are looked at in the order of the variables, which makes no difference.
- WholePromotion.CleanUp: the branch for phis with a single incoming value (src/slime/pass/MemoryToRegister.cpp:318-330) is left out, since `PhiArguments.TwoArrive` shows that it is never taken.
- MemoryToRegister.RunOnFunction: answers for loads and phis only; uses are rewritten by `WholePromotion.Promote`.
- Pipeline.SimplifyThenPromote: what plain instructions mean to the promoted variables is a parameter; operands of branches are not among the slots, and that the translator never branches to the first block is a precondition.
- InBlockForwarding.SimplifyBlock: works on a sequence with a set of removed positions instead of a linked list; which cells are promotable, and the removal of unused ones (src/slime/pass/MemoryToRegister.cpp:57-71, 112-141), is not modelled.
- DominanceFrontier.ComputeDomFrontier: frontiers are a sequence of sets and the dominators a map, both returned as values instead of filled in place.
- Translator.Builder.TranslateStmt: the order of blocks in the list of the function is not modelled, and the three blocks of `do` and `while` are numbered condition, body, exit; type assertions, for example that an initialiser has the declared type, are not modelled.
- Translator.Builder.TranslateDecl: initialisers of arrays, which are zeroed and filled element by element (see `ArrayInitialisers.TranslateArrayInitAssign`), and conversions of the initialiser are left out.
- Translator.Builder.TranslateExpr: integers and booleans only: no floating point conversions, arrays, pointers, strings, calls or references to functions.
- Translator.Builder.constructor: parameters, which are stored to cells before the body (src/slime/visitor/ASTToIRTranslator.cpp:338-352), are variables of the initial store.
- BinaryParser.Parser.ParseBinaryExpr: the simplification of the finished tree, and the diagnosis of types and constant qualifiers, are not modelled; parsing of the operands themselves is a parameter.
- AllocatedRuns.GenInstList: straight-line code only; a run that jumps finds variables where the textual order left them, and that is not treated. Calls, comparisons that only feed the next branch, and loads from a global, which need no register for it, are not among the instructions; functions start without parameters in registers.
- AllocatedRuns.BeginAll: variables that begin at the same instruction do so in a fixed order, the result first, while the code takes the order of a map of pointers.
- RegisterAllocator.Allocator.AllocateGeneralRegister: floating point registers, which work alike on another bank, are left out.
- StackSlots.Stack.SpillVar: sizes and positions are unbounded, while the compiler keeps them in 32 bits.
- BasicBlocks.BasicBlock.Remove: the operands of the instructions are not reset one by one, and leaving the list of blocks is part of the pass.
- ControlFlowSimplification.RunOnFunction: deleted blocks are visited in list order, where the compiler takes the order of a set of pointers; the second walk (lines 62-84), which changes nothing, is left out.
- TypeSignatures.From: where no signature stands, what is read of an array is its element and that sizes stand between; array sizes are below 2147483648, because they are read back as an `int`; types are values, where the compiler hands out unique objects.
- ArrayInitialisers.GenGlobalArrayInitData: 32-bit integers only; byte data with `.asciz`, floating point data and addresses as data are left out.
- ArrayInitialisers.RegulateInitListForArray: elements are constants; conversions between element types are left out. Values that find no room are dropped, as the code does; the standard does not allow them.
- ArrayInitialisers.EvaluateSubscript: there are as many subscripts as dimensions; fewer designate a list, and are left out.
- LayeredGrammar.UniqueTree: the productions take any tree on the left of `=`; that it must be an l-value is `BinaryGrammar.LegalExactly`.
- LinkedLists.List.Swap: `moveToHead` and `moveToTail`, which do not relink the old end, creation of nodes in place, and iterators are left out.
- LiteralPool.Generator.Instrln: the stream is the order in which instructions are emitted; the code that saves and restores registers is emitted last and placed elsewhere in the text, which moves what follows it by a few instructions. The text of instructions is left out.
- LiteralPool.Generator.GenImmediatePool: pools list their literals in any order, where the compiler follows the order of its maps.
- LiteralPool.Generator.LoadFloatConstant: constants are compared as values; as floating point numbers, 0 and -0 are equal and a not-a-number never is.
- Constant propagation, common subexpressions, dead code, inlining apart from splitting blocks, peephole rules, the lexer, the preprocessor, the driver, dumps and the runtime library: outside the core, or without a clean statement.
