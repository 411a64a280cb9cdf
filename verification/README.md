# SemantScript: a verified model

SemantScript compiles tagged template expressions ("sema" sites) into neural functions, bundles them with an execution plan, trains and publishes releases of an artifact, and runs that artifact inside a program. This project models the parts of it where several pieces have to agree, and proves that they do.

- **The execution planner** (`Lexicographic`, `ByteOrder`, `ReadyHeap`, `Sorting`, `DependencyGraph`, `CycleSearch`, `PlanSpec`, `Stages`, `StageLists`, `Provenance`, `ExecutionPlan`). A memoised depth-first analysis finds which sites an input expression may draw on, through initializers and through assignments that may reach the consumer; it is shown to equal plain reachability by reference paths. The dependency graph is staged by Kahn's algorithm over a binary heap sifted in place, and an iterative depth-first search extracts a cycle when staging stalls. Staging succeeds exactly on graphs without a cycle, a reported cycle is a closed walk, and each function's stage is the length of its longest dependency chain.
- **The bundle check and the runtime** (`DependencyOrder`, `BundleIr`, `StageCheck`, `PlanRun`). The independent check accepts exactly the one valid plan of a program, which is what the planner builds; the runtime's own check accepts it too unless it is empty, and executing it dispatches each function once, with every producer's result on hand.
- **Constraint predicates** (`JsValues`, `Predicates`, `Operators`, `InputTypes`, `PredicateTypes`, `TypeRules`, `PredicateJson`, `Contradictions`). The meaning of every operator, soundness and exactness of the static rules, soundness of constant folding, an exact validator of input values with a shared budget, and what the verdict of the contradiction check means for the answers that satisfy the constraints.
- **Canonical encodings and identities** (`Unicode`, `Json`, `JsonRoundTrip`, `JsonText`, `SemanticJson`, `ExactJson`, `FunctionIds`). The digest encoding is injective and blind to member order, the on-disk text reads back by the grammar of sections 2 to 7 of RFC 8259, and function ids are distinct and stable.
- **Releases** (`Releases`, `PruneProtocol`). Prune against any number of concurrent rollbacks and promotions, as a state machine over file-system steps.
- **The runtime lifecycle** (`Lifecycle`, `Fallbacks`). A serial queue of loads and closes with synchronous calls in between, and fallbacks that may call back into the artifact.
- **Decimal grids** (`Decimals`, `DecimalText`, `DecimalGrids`) and the **stderr filter** of the trainer (`TrainerStderr`).

`Outcomes` holds the shared result shapes. Code of the repository that changes things step by step is modelled by methods and classes that are proved against a specification; properties over all inputs or all runs are lemmas about that specification.

## Assumptions

Everything the model takes as given is a parameter with a named hypothesis:

- `JsValues.Lawful`: lengths convert to finite numbers, and equal numbers index alike. Rounded arithmetic itself is a record of uninterpreted operations shared by the folder and the evaluator; numbers are their 64 bits.
- `Json.Faithful`: the shortest text of a finite number follows the JSON number grammar and reads back to the number.
- `FunctionIds.Proper`: digests are 64 lowercase hexadecimal digits and integers up to the safe limit convert exactly. That the digest does not collide is never assumed in general; ids are shown equal exactly when it collides on the bytes at hand.
- `Fallbacks.FiniteBodies`: each fallback body stops calling after some number of calls of its own.
- `ExecutionPlan.LeavesKnown`: the sites found in expressions are sites of the program.

## Where the code and its descriptions differ

- The exact serializer's surrogate check compares the unit after a high surrogate with `<` and `>`, and past the end of the string that unit is NaN, so a final unpaired high surrogate passes (compiler/src/identity.ts:292-311). Two member names that end in different such surrogates have the same UTF-8 bytes and keep their insertion order, so the text is not independent of member order for them. `ExactJson.TextIgnoresMemberOrderExactly` gives the exact condition.
- Parsing admits predicates of 101 levels, one more than the evaluator does (`PredicateTypes.HundredAndOneLevelsFail`). Predicates of at most 100 levels never fail by depth; those with more than 100 levels outside right operands of `&&` and `||` always do (`PredicateTypes.DeepPredicatesFail`), and in between the left operands decide; the exact bound is on the levels a call visits (`PredicateTypes.LevelBoundIsExact`).
- The contradiction check compares outputs by encoding and evaluation compares them by strict equality, which differ on the two zeros (`Contradictions.ZerosAreMisjudged`). `Contradictions.VerdictIsRightExactly` says for which lists the verdict is satisfiability all the same.
- The folder rejects a predicate for arithmetic the evaluator never reaches (`Predicates.RejectedPredicateMayEvaluate`). It takes a rejected right operand of `&&` or `||` (`Predicates.RejectionMeansFailure`), and `Predicates.RejectedEvaluatesExactly` says for every rejected predicate on which calls evaluation has a result.
- Prune is not safe against every switch: one that verified a release before prune renamed it and writes the pointer after prune's second read leaves the pointer dangling (`PruneProtocol.LateSwitchDeletesCurrent`). Apart from the moment between rename and restoration the pointer dangles exactly when that happened, with no other write to the pointer and no return of the release since (`PruneProtocol.DanglingIsTransientOrLate`).

## Model

| member | source | states |
|---|---|---|
| ByteOrder.SiteOrderIsTotal | compiler/src/execution-plan.ts:885-905 | The site order is a strict total order: irreflexive, asymmetric, transitive, and two sites tie exactly when path, start and identifier all agree. |
| ByteOrder.CompareBytes | compiler/src/semantic-json.ts:30-42 | The byte loop returns the comparison of the arrays (see CompareIsLexicographic for its meaning; CompareZero, CompareFlips and CompareTransitive for its laws). |
| ByteOrder.CompareIsLexicographic | compiler/src/semantic-json.ts:30-42 | A comparison is negative exactly when the left array comes first: at the first position where they differ it has the smaller byte, or it ends there. |
| Lexicographic.LexLessStep | compiler/src/semantic-json.ts:30-42 | That order, stated by positions, one element at a time: the reference for byte arrays and strings. |
| ByteOrder.CompareSites | compiler/src/execution-plan.ts:885-894 | Comparing two sites gives the specified order: path bytes, then start, then identifier bytes. |
| ByteOrder.SiteOrderIs | compiler/src/execution-plan.ts:885-905 | A site comes before another exactly when its path does, or the paths agree and its start is smaller, or both agree and its identifier comes first. |
| ReadyHeap.RootIsLeast | compiler/src/execution-plan.ts:727-773 | In a heap-ordered array no entry comes before the root. |
| ReadyHeap.MoveParentDown | compiler/src/execution-plan.ts:734-740 | One step of sifting towards the root keeps heap order everywhere but around the hole, which moves to the parent. |
| ReadyHeap.MoveChildUp | compiler/src/execution-plan.ts:753-771 | One step of sifting towards the leaves keeps heap order everywhere but around the hole, which moves to the lesser child. |
| ReadyHeap.ReadySites.Push | compiler/src/execution-plan.ts:727-742 | Pushing keeps heap order and adds exactly the pushed site to the multiset held. |
| ReadyHeap.ReadySites.Pop | compiler/src/execution-plan.ts:744-773 | Popping keeps heap order, removes exactly the returned site, and no held site comes before it; an empty heap yields nothing. |
| ReadyHeap.ReadySites.LesserChild | compiler/src/execution-plan.ts:754-765 | The chosen child exists and neither child comes before it. |
| Sorting.OrderedIsUnique | compiler/src/execution-plan.ts:120-136 | Two ordered lists with the same elements are equal whenever the comparator separates the elements. |
| Sorting.SortIgnoresOrder | compiler/src/semantic-json.ts:83-91 | Sorting gives the same list for every order of the input whenever the comparator separates the elements. |
| DependencyGraph.MinimumStageIsLongestChain | compiler/src/execution-plan.ts:678-700 | If every function sits one above its highest producer (zero without producers), its stage is the length of the longest dependency chain that ends at it, and there is no cycle. |
| DependencyGraph.MinimumStagesAreUnique | compiler/src/bundle-ir.ts:227-314 | At most one stage assignment puts every function on its minimum stage. |
| DependencyGraph.FinishedGraphHasNoCycle | compiler/src/execution-plan.ts:775-842 | A listing of all functions with consumers before producers proves the absence of a cycle. |
| DependencyGraph.StuckGraphIsNotFinished | compiler/src/execution-plan.ts:702-708 | A nonempty set of functions that each wait for another of the set rules out such a listing. |
| CycleSearch.SortedConsumers | compiler/src/execution-plan.ts:782-793 | The consumers explored from a function are exactly its consumers, each once, in site order. |
| CycleSearch.Advance | compiler/src/execution-plan.ts:813-839 | One turn of the explicit-stack search keeps its invariant, moves forward, and reports only a closed walk. |
| CycleSearch.FindDependencyCycle | compiler/src/execution-plan.ts:775-842 | A reported cycle is a closed walk along dependency edges; the placeholder result means the graph has no cycle. |
| PlanSpec.ValidPlanIsUnique | compiler/src/bundle-ir.ts:227-314 | At most one list of stages is valid for given functions and dependencies, so heap pop order cannot show. |
| PlanSpec.ValidPlanStagesAreLongestChains | compiler/src/execution-plan.ts:645-725 | In a valid plan a function is on stage k exactly when its longest dependency chain has k edges; every function is on a stage; there is no cycle. |
| PlanSpec.StagesAreDense | compiler/src/execution-plan.ts:710-724 | Every stage below a used stage is used. |
| Stages.Neighbours | compiler/src/execution-plan.ts:650-663 | The incoming and outgoing maps spell out exactly the dependency edges. |
| Stages.LeastStage | compiler/src/execution-plan.ts:682-686 | The assigned stage is above every producer and exactly one above some producer, or zero. |
| Stages.TellConsumers | compiler/src/execution-plan.ts:688-699 | After the consumers of a placed function are told, every counter equals the number of unplaced producers and the heap holds exactly the ready sites. |
| Stages.AssignStages | compiler/src/execution-plan.ts:671-700 | Kahn's loop puts everything it places on its minimum stage, and what it cannot place waits for itself. |
| StageLists.GroupByStage | compiler/src/execution-plan.ts:710-716 | Grouping puts each placed site into the group of its stage and no other. |
| StageLists.ListStages | compiler/src/execution-plan.ts:710-724 | The listed stages spell the assignment: dense indexes, nonempty, functions in site order. |
| StageLists.DenseIndexes | compiler/src/execution-plan.ts:717-719 | Ascending indexes without gaps below them count up from zero. |
| Provenance.ReachedWithoutReturn | compiler/src/execution-plan.ts:360-413 | A site reached from a symbol is reached from one of its bodies by a path that never returns to the symbol. |
| Provenance.BodyReaches | compiler/src/execution-plan.ts:360-413 | Whatever a body of a symbol reaches, the symbol reaches. |
| Provenance.SymbolFromBodies | compiler/src/execution-plan.ts:379-407 | Initializers resolved under the ignored set together with writes resolved while the symbol is ignored too give exactly what the symbol reaches. |
| Provenance.AssignmentLoopsAreNoCycles | compiler/src/execution-plan.ts:395-403 | Where reference loops use no initializer, no path can be reported as a cycle: a symbol is ignored while its assignments are resolved. |
| Provenance.InitializerLoopsAreRefused | compiler/src/execution-plan.ts:368-377 | A loop along initializers alone rules out a normal return for every expression that mentions a symbol on it. |
| Provenance.ProvenanceResolver.ForExpression | compiler/src/execution-plan.ts:317-325 | A normal return is exactly the set of reachable sites, every memo entry is exactly what its symbol reaches, the traversal state is empty again, and no initializers run in circles below the expression. A reported cycle is a real reference path back to its start that leaves the start through an initializer. A budget failure means that the expression can be followed deeper than the depth limit, or that the work passed its limit by the failing unit; the work never exceeds the cost of a traversal without memo. |
| Provenance.ProvenanceResolver.ForNode | compiler/src/execution-plan.ts:331-358 | The result of a node lies between what it reaches clear of the ignored symbols and what it reaches at all; stack and ignored set are restored; a budget failure has one of the two causes, below the node. |
| Provenance.ProvenanceResolver.ForSymbol | compiler/src/execution-plan.ts:360-413 | The same bounds and causes for a symbol, with the memo table right before and after and every reported cycle genuine and begun by an initializer. |
| Provenance.ProvenanceResolver.Merge | compiler/src/execution-plan.ts:435-440 | Merging gives the union and charges exactly one unit of work per element; it fails exactly when that passes the limit, at the first unit beyond it. |
| DependencyOrder.NeighboursOrderAll | compiler/src/bundle-ir.ts:217-223 | Checking neighbours is enough: in a list whose neighbours ascend, any earlier dependency precedes any later one. |
| DependencyOrder.KnownDependenciesTieOnlyWhenEqual | compiler/src/bundle-ir.ts:328-353 | On dependencies with known ends and a known input the comparator ties only equal ones. |
| DependencyOrder.CanonicalOrderIs | compiler/src/bundle-ir.ts:328-353 | Dependencies are ordered by the position of the consumer, then of the input in the consumer, then of the producer, each ascending. |
| DependencyOrder.CanonicalListIsUnique | compiler/src/bundle-ir.ts:177-225 | Two canonical lists with the same dependencies are the same list. |
| DependencyOrder.RankInputs | compiler/src/bundle-ir.ts:147-155 | Input ranks are produced exactly when no input name is empty or repeated, and number the inputs by position. |
| BundleIr.ValidateFunctions | compiler/src/bundle-ir.ts:105-163 | The check succeeds exactly for records with a proper identifier and path, the record markers, distinct identifiers, named inputs and source order, and yields their ranks. |
| BundleIr.RecordsAre | compiler/src/bundle-ir.ts:113-175 | A record is valid exactly when it is a source record of version 1 with an id, a path, a safe position from one on, and nonempty distinct input names. |
| BundleIr.FunctionIdsAre | compiler/src/bundle-ir.ts:5 | A function id is `nf_` and 64 lowercase hexadecimal digits. |
| BundleIr.RecordOrderIs | compiler/src/bundle-ir.ts:316-326 | Source order is by path bytes, then line, then column, then identifier bytes, each ascending. |
| BundleIr.ValidateDependencies | compiler/src/bundle-ir.ts:177-225 | The check succeeds exactly for known, distinct dependencies in strictly ascending canonical order. |
| StageCheck.AssignStage | compiler/src/bundle-ir.ts:241-273 | Walking one stage either records exactly its functions or proves that no stage map is spelled by these stages. |
| StageCheck.CheckPlacement | compiler/src/bundle-ir.ts:252-272 | An unknown, repeated or out-of-order function proves that there is no such plan; otherwise it may be recorded. |
| StageCheck.ValidateStages | compiler/src/bundle-ir.ts:227-314 | The stage check accepts exactly the valid plans. |
| StageCheck.PlanMatchesWalk | compiler/src/bundle-ir.ts:275-313 | After the walk a plan exists exactly when the recorded map covers all functions and puts each on its minimum stage. |
| StageCheck.RanksAreUnique | compiler/src/bundle-ir.ts:105-163 | The rank tables of a list of signatures are determined by the list. |
| StageCheck.CreateSourceIrBundle | compiler/src/bundle-ir.ts:53-103 | A bundle is created exactly for valid functions, canonical dependencies and the one valid plan. |
| PlanRun.ValidateExecutionPlan | runtime/src/artifact-runtime.ts:587-627 | The runtime check accepts exactly nonempty plans of consecutively numbered, nonempty stages without a repeated function whose dependencies run forward. |
| PlanRun.BundlePlanIsRunnable | runtime/src/artifact-runtime.ts:587-627 | A plan that passes the bundle check passes the runtime's check exactly when it has functions, and lists exactly those, each once. |
| PlanRun.DispatchStage | runtime/src/artifact-runtime.ts:629-682 | A stage is called as a whole, all its entries in order, unless it is empty or some entry is refused, and then nothing is called; the answers line up with the entries. |
| PlanRun.CoversExactly | runtime/src/artifact-runtime.ts:553-565 | The inputs provided cover a stage exactly when they are keyed by its functions and nothing else. |
| PlanRun.CallsFollowStages | runtime/src/artifact-runtime.ts:545-579 | A log in which asking and calling alternate stage by stage calls exactly the functions of the first stages, in order. |
| PlanRun.ExecuteArtifactPlan | runtime/src/artifact-runtime.ts:545-579 | The log alternates between asking for a stage's inputs, knowing exactly the earlier results, and calling that whole stage with what was provided, so functions are called in stage order and at most once. A completed run has called every function and its results are the answers; any other stops at the stage whose inputs do not cover it, are refused, or are not answered. |
| PlanRun.ProducersAreOnHand | runtime/src/artifact-runtime.ts:545-579 | When a stage is asked for its inputs, every producer of one of its functions is in the results handed over. |
| ExecutionPlan.ListDependencies | compiler/src/execution-plan.ts:120-136 | Listing gives exactly the collected dependencies in strictly ascending canonical order. |
| ExecutionPlan.CollectDependencies | compiler/src/execution-plan.ts:104-118 | The collected dependencies are exactly those of inputs whose expression may draw on the producer, and then no initializers run in circles below any input; a budget failure means that some input can be followed deeper than the limit or that the cost of the program exceeds the work limit. |
| ExecutionPlan.CreateStages | compiler/src/execution-plan.ts:645-725 | Staging succeeds exactly when the graph has no cycle, with the valid plan; otherwise the error is a closed walk, never the placeholder. |
| ExecutionPlan.BuildSemaExecutionPlan | compiler/src/execution-plan.ts:71-153 | A returned plan has exactly the true dependencies, in canonical order, and the one valid list of stages; invalid descriptors, an exceeded budget, dependency cycles and provenance cycles, which leave their start through an initializer, are reported for what they are. |
| ExecutionPlan.AssignmentLoopsAreNotReported | compiler/src/execution-plan.ts:395-403 | A site whose inputs see reference loops through assignments alone is never refused for a provenance cycle. |
| ExecutionPlan.PlanIgnoresDiscoveryOrder | compiler/src/execution-plan.ts:76-84 | Plans built from the same sites in different discovery orders are equal. |
| ExecutionPlan.PlannedBundleIsAccepted | compiler/src/execution-plan.ts:138-140 | What the planner returns the bundle check accepts and, unless empty, the runtime check; each function then is listed exactly once, on the stage of its longest chain. |
| JsValues.UnitsLessIsLexicographic | cli/src/constraint-eval.ts:227-251 | Strings are ordered by code units: at the first position where they differ the smaller unit comes first, a proper prefix before the longer string. |
| JsValues.ComparisonIsNumeric | cli/src/constraint-eval.ts:227-251 | On finite numbers comparing the bits is comparing the values spelled by exponent and fraction; equality likewise, the zeros being equal. |
| JsValues.KindsOfNumbers | cli/src/constraint-eval.ts:264-269 | Finite, infinite and undefined numbers told by exponent and fraction. |
| Operators.EqualityMeans | cli/src/constraint-eval.ts:253-262 | Strict equality is sameness: numbers by value, strings by units, arrays and objects by identity, absent values only among themselves; inequality is its negation; numbers that are not finite are an error. |
| Operators.OrderMeans | cli/src/constraint-eval.ts:227-251 | Each ordering operator compares two strings by units or two finite numbers by value, as its name says; all other operands are an error. |
| Operators.PrecedenceIsTotal | cli/src/constraint-eval.ts:227-251 | Of two strings, or two finite numbers, one precedes the other or they are the same, and never both. |
| Operators.LogicMeans | cli/src/constraint-eval.ts:136-162 | Conjunction and disjunction by their truth tables, settled by the left operand alone where it can; operands that are no booleans are errors, and errors of the right operand count only where it is needed. |
| Operators.UnaryMeans | cli/src/constraint-eval.ts:111-126 | Negation of a boolean, the same and the opposite value of a finite number; anything else is an error. |
| Operators.ArithmeticMeans | cli/src/constraint-eval.ts:172-191 | Each arithmetic operator is its operation on finite numbers; a zero divisor and a result that is not finite are errors, and so are other operands. |
| Operators.LeavesMean | cli/src/constraint-eval.ts:77-88 | A literal is its value to evaluator and folder, an input its argument, a missing input an error. |
| Operators.ActivityMeans | cli/src/constraint-eval.ts:41-52 | A constraint is active exactly when its predicate evaluates to true, inactive when to false, and every other outcome is an error. |
| Operators.PropertyMeans | cli/src/constraint-eval.ts:89-104 | A property is an object's member or absent, or the length of an array or a string; anything else is an error. |
| Operators.TextIndexMeans | cli/src/constraint-eval.ts:193-225 | Under a string, an object gives its member, a list its length or the element at the position the string spells, and nothing otherwise. |
| Operators.NumberIndexMeans | cli/src/constraint-eval.ts:193-225 | Under a number, an object gives the member its text names and a list the element at that position; beyond the end there is nothing. |
| Operators.PositionTextIs | cli/src/constraint-eval.ts:212-225 | A string is a position exactly when it is the canonical decimal digits of a number below the array limit. |
| Operators.FoldedComparisonMeans | compiler/src/definition.ts:2262-2334 | On finite constants equality and ordering fold to what they mean for values, and ordering of other constants is unknown. |
| Operators.FoldedArithmeticMeans | compiler/src/definition.ts:2271-2300 | Arithmetic on constants folds to the result of the operator's own operation, and is rejected where that is not finite. |
| Operators.FoldedLogicMeans | compiler/src/definition.ts:2227-2257 | A false on either side makes a conjunction false and a true on either side a disjunction true; they fold to the opposite only from both sides, and are unknown otherwise. |
| Operators.FoldedUnaryMeans | compiler/src/definition.ts:2206-2222 | Negation and signs of constants fold to what they mean for values. |
| Predicates.StrictAgrees | compiler/src/definition.ts:2263-2334 | On two constants the folded comparison or arithmetic agrees with evaluation. |
| Predicates.LogicAgrees | compiler/src/definition.ts:2227-2257 | The rules for conjunction and disjunction, also those that look at the right operand alone, agree with short-circuit evaluation. |
| Predicates.FoldingIsSound | compiler/src/definition.ts:2180-2334 | If folding yields a constant, evaluation on any input fails or returns that constant. |
| Predicates.FalseIsNeverActive | compiler/src/definition.ts:542-551 | A predicate that folds to false is active for no call. |
| Predicates.TrueIsNeverInactive | compiler/src/definition.ts:542-551 | A predicate that folds to true is inactive for no call. |
| Predicates.RejectionIsDoom | compiler/src/definition.ts:2180-2334 | A rejection that lies where evaluation always comes by rejects the predicate, and without a rejected right operand of conjunctions or disjunctions there is no other. |
| Predicates.DoomedFails | cli/src/constraint-eval.ts:66-191 | What is rejected where evaluation always comes by fails on every call, at every depth. |
| Predicates.RejectionMeansFailure | compiler/src/definition.ts:2180-2334 | A rejected predicate fails on every call if no right operand of a conjunction or disjunction in it is rejected. |
| Predicates.RejectedRightOperandsAre | compiler/src/definition.ts:2223-2257 | The right operands meant are those of the conjunctions and disjunctions among the parts of the predicate, and no other. |
| Predicates.DoomedRightIsSkipped | cli/src/constraint-eval.ts:136-162 | A conjunction or disjunction with a doomed right operand is rejected, and has a result exactly on the calls on which the left operand is the boolean that settles it. |
| Predicates.RejectedEvaluatesExactly | cli/src/constraint-eval.ts:66-191 | For every rejected predicate, every call and depth: evaluation has a result exactly when it gets past every rejection, each in a right operand whose left operand settles the result, under nothing but negation, equality, conjunction, disjunction and the index of an array or string; and that result is a boolean, or nothing for an element access. |
| Predicates.RejectedPredicateMayEvaluate | compiler/src/definition.ts:2180-2334 | The guard is needed: a predicate with a rejected right operand, itself rejected for non-finite arithmetic, can evaluate on every input. |
| InputTypes.Budget.Consume | compiler/src/definition.ts:2540-2563 | A charge beyond the depth limit fails without spending; any other spends one and fails exactly when the budget goes below zero. |
| InputTypes.ValidateInputValue | compiler/src/definition.ts:1408-1542 | Acceptance means the value inhabits the type and a mismatch that it does not; a limit is reported exactly when the value has more to visit than the budget left or visits a level beyond the depth limit; a decided validation charges exactly one unit per visit. |
| InputTypes.ValidateUnion | compiler/src/definition.ts:1511-1542 | The same for unions, where mismatches of single variants are swallowed, their visits charged, and limits passed on. |
| InputTypes.VisitsGrow | compiler/src/definition.ts:1408-1542 | Later parts only add visits, and a part that stops validation leaves the later ones unvisited. |
| InputTypes.ValidateFields | compiler/src/definition.ts:1473-1510 | The same for the members of objects: required ones present, present ones fit, and validation stops at the first that does not. |
| PredicateTypes.PropertyReads | cli/src/constraint-eval.ts:89-104 | Reading a property the type checker allows gives a value of its type, or nothing only where the rules say it may be missing. |
| PredicateTypes.IndexReads | cli/src/constraint-eval.ts:193-225 | The same for element access by known keys or by a number. |
| TypeRules.BooleanTypesAre | compiler/src/definition.ts:559-921 | The rules ask for booleans exactly of the types all whose values are booleans. |
| TypeRules.NumberTypesAre | compiler/src/definition.ts:559-921 | They ask for numbers exactly of the types all whose values are finite numbers. |
| TypeRules.StringTypesAre | compiler/src/definition.ts:559-921 | They ask for strings exactly of the types all whose values are strings. |
| TypeRules.ScalarTypesAre | compiler/src/definition.ts:559-921 | They ask for scalars exactly of the types none of whose values is an array or an object. |
| TypeRules.OrderingRuleIsExact | compiler/src/definition.ts:559-921 | An ordering of accepted operands is accepted exactly when all values of their types can be compared. |
| TypeRules.ArithmeticRuleIsExact | compiler/src/definition.ts:559-921 | Arithmetic on accepted operands is accepted exactly when all values of their types are finite numbers. |
| TypeRules.LogicRuleIsExact | compiler/src/definition.ts:559-921 | Logic on accepted operands is accepted exactly when all values of their types are booleans. |
| TypeRules.EqualityRuleIsExact | compiler/src/definition.ts:559-921 | Equality of accepted operands, absent or not, is accepted exactly when no value of their types is an array or an object. |
| TypeRules.UnaryRuleIsExact | compiler/src/definition.ts:559-921 | Negation is accepted exactly of booleans, a sign exactly of numbers. |
| TypeRules.PredicateRuleIsExact | compiler/src/definition.ts:542-551 | An accepted expression may stand as a constraint exactly when all its values are booleans. |
| TypeRules.AbsentOperandsAreRefused | compiler/src/definition.ts:559-921 | Operators other than equality refuse operands that may be absent. |
| TypeRules.PropertiesAreExact | compiler/src/definition.ts:559-921 | A type has a property exactly when reading it from the values of the type is never an error and gives something for some of them; a union when all its variants have it. |
| TypeRules.MissingIsExact | compiler/src/definition.ts:559-921 | A property may be missing exactly when some value of the type reads as absent under it. |
| TypeRules.KeysAre | compiler/src/definition.ts:559-921 | The types that stand for known keys: texts, finite numbers, and enums of them. |
| TypeRules.NumbersReadElements | compiler/src/definition.ts:559-921 | Any number reads an element of a list, which may be absent, and nothing from an object. |
| TypeRules.PositionsReadElements | compiler/src/definition.ts:559-921 | A position reads its element of a tuple, if there is one, and any position one of an array or a string. |
| TypeRules.NamesReadElements | compiler/src/definition.ts:559-921 | A name reads the type its field declares, `length` the length of a list. |
| TypeRules.MissingElementIsExact | compiler/src/definition.ts:838-921 | The element of an object, an array, a tuple or a string under a key may be missing exactly when some value of the type has none. |
| TypeRules.LeavesAndPropertiesAreAllowed | compiler/src/definition.ts:559-921 | Declared inputs, finite literals and properties that the type of an accepted operand has are accepted. |
| PredicateTypes.EvaluationIsSound | compiler/src/definition.ts:559-921 | Every accepted subexpression evaluates to a value of its declared type, to nothing only where it may be missing, or fails by a non-finite number or the depth limit. |
| PredicateTypes.PredicateTypeSoundness | compiler/src/definition.ts:559-921 | An accepted predicate of at most 100 levels evaluates on every well-typed call to a boolean or fails with a non-finite intermediate number. |
| PredicateTypes.TooDeepFails | cli/src/constraint-eval.ts:66-75 | Any predicate with more levels that evaluation always comes by than the depth limit leaves fails on every call. |
| PredicateTypes.DeepPredicatesFail | cli/src/constraint-eval.ts:66-75 | An accepted predicate with more than 100 such levels fails on every well-typed call, by depth or by a non-finite number. |
| PredicateTypes.DeepRightIsSkipped | cli/src/constraint-eval.ts:136-162 | Where the right operand of a conjunction or disjunction is too deep for the place it stands at, evaluation has a result exactly on the calls on which the left operand settles it. |
| PredicateTypes.DepthIsVisited | cli/src/constraint-eval.ts:66-191 | For any predicate, call and depth: a failure by depth means that the call visits a level beyond the limit, and a call that visits one fails. |
| PredicateTypes.VisitedWithinLevels | cli/src/constraint-eval.ts:66-191 | The levels a call visits lie between those every call visits and all levels of the predicate. |
| PredicateTypes.LevelsAreLongestChains | cli/src/constraint-eval.ts:66-191 | The levels of a predicate are the length of its longest chain of operands, those every call visits of the longest without right operands of conjunctions and disjunctions. |
| PredicateTypes.LevelBoundIsExact | cli/src/constraint-eval.ts:66-75 | Unless a number is not finite, an accepted predicate has a boolean result on a well-typed call exactly when the call visits at most 100 levels, and fails by depth exactly when it visits more. |
| PredicateTypes.HundredAndOneLevelsFail | cli/src/constraint-eval.ts:71-75 | The bound is met: an accepted predicate of 101 levels, as many as parsing admits, fails with the depth error. |
| PredicateJson.FormsIdentifyPredicates | compiler/src/definition.ts:33-79 | Predicates whose JSON forms are equal up to member order are the same predicate. |
| PredicateJson.FormsAre | compiler/src/definition.ts:33-79 | The JSON form of every kind of predicate, part by part. |
| PredicateJson.OperatorTextsAre | compiler/src/definition.ts:33-79 | The text of every operator. |
| Contradictions.ValidateConstraintContradictions | compiler/src/definition.ts:1191-1240 | The check passes exactly when no two constraints conflict; otherwise it reports the first one that conflicts with an earlier one. |
| Contradictions.RefusedExactly | compiler/src/definition.ts:542-551 | A constraint is refused exactly for a rejected predicate or for a predicate or output that cannot be encoded; it has no key exactly when its predicate folds to false. |
| Contradictions.SatisfactionMeans | compiler/src/definition.ts:1191-1240 | An answer satisfies an always constraint exactly when it is the same value as the output, and a never constraint exactly when it is not. |
| Contradictions.ClashMeansConflict | compiler/src/definition.ts:1205-1225 | The table lookups find a clash exactly when some earlier constraint conflicts with the next one. |
| Contradictions.OrderIsImmaterial | compiler/src/definition.ts:1191-1240 | Acceptance does not depend on the order of declaration. |
| Contradictions.SharedKeyMeansSharedActivity | compiler/src/definition.ts:542-551 | Two constraints share a key exactly when their predicates are the same or both fold to true, and then neither is active where the other is inactive. |
| Contradictions.NoKeyMeansNeverActive | compiler/src/definition.ts:546-549 | A constraint left without a key is active for no call. |
| Contradictions.ConflictIsUnsatisfiableExactly | compiler/src/definition.ts:1205-1234 | No answer satisfies both constraints of a conflict, except two always constraints for the two zeros. |
| Contradictions.RejectionIsGenuine | compiler/src/definition.ts:1191-1240 | Every rejection exhibits two conflicting constraints that are active together; no answer satisfies both, unless all conflicts of the list are between always constraints for the two zeros. |
| Contradictions.SatisfiableExactly | compiler/src/definition.ts:1191-1240 | For every list, each key has an answer that satisfies all constraints carrying it exactly when the list has no conflict once the sign of zero is dropped from the outputs. |
| Contradictions.PlainConflict | compiler/src/definition.ts:1205-1234 | Dropping that sign removes exactly the conflicts between always constraints for the two zeros, and adds exactly those between an always and a never for the two zeros. |
| Contradictions.VerdictIsRightExactly | compiler/src/definition.ts:1191-1240 | For every list, passing the check is satisfiability of all keys exactly when the list has a conflict besides the invented ones, or has invented and overlooked conflicts, or has neither kind. |
| Contradictions.ZerosAreMisjudged | compiler/src/definition.ts:1202-1207 | For every predicate that has a key, with negative zero the verdict is off both ways on parsed constraints: a satisfiable pair is rejected and an unsatisfiable pair passes. |
| Contradictions.ZerosCanBeParsed | compiler/src/definition.ts:536-556 | There are such predicates: those that fold to true, and the well-formed ones that fold to no constant. |
| Unicode.Utf8IsInjective | compiler/src/semantic-json.ts:83-91 | Different well-formed strings have different UTF-8 bytes. |
| Unicode.EncodedPointIs | compiler/src/semantic-json.ts:83-91 | The bytes of a code point are those of the table of section 3 of RFC 3629, in the shortest form. |
| Unicode.EncodedTexts | compiler/src/semantic-json.ts:83-91 | The bytes of texts with points of one to four bytes, a surrogate pair being one point. |
| Unicode.WellFormedMeans | compiler/src/semantic-json.ts:100-120 | Well formed means that every high surrogate is followed by a low one and every low one follows a high one. |
| Unicode.AssertUnicodeScalarString | compiler/src/semantic-json.ts:100-120 | The strict check accepts exactly the strings without unpaired surrogates. |
| Unicode.AssertUnicodeScalarStringLoosely | compiler/src/identity.ts:292-311 | The check of the exact serializer accepts exactly what its specification accepts. |
| Unicode.LooselyFormedMeans | compiler/src/identity.ts:292-311 | That is the well-formed strings and those that only lack the second half of a final pair. |
| JsonRoundTrip.ValueReadsBack | compiler/src/identity.ts:161-290 | A printed value followed by anything that cannot extend a number is read back, leaving exactly what follows; compact and indented layout alike. |
| Json.EscapesAre | compiler/src/identity.ts:182-185 | The escapes that are read back are those of section 7 of RFC 8259, hexadecimal ones with digits of either case, and no others. |
| JsonText.PrintedIsSerialized | compiler/src/identity.ts:216-290 | Joining the texts of the parts with line breaks and two-space indentation, as the serializer does, gives the text the reader is matched against; the same for the compact layout. |
| JsonText.SerializedReadsBack | compiler/src/identity.ts:122-124 | The text of a value, with nothing or one line feed after it, reads back as the value. |
| JsonText.SerializingIsInjective | compiler/src/semantic-json.ts:25-27 | Different values have different texts in either layout. |
| JsonText.ArrayLayoutIs | compiler/src/identity.ts:216-249 | The compact and the indented text of an array, character by character. |
| JsonText.ObjectLayoutIs | compiler/src/identity.ts:251-290 | The same for an object. |
| Json.NumeralsAre | compiler/src/identity.ts:174-180 | The texts numbers may have are exactly those of the number grammar of section 6 of RFC 8259. |
| JsonText.WordsAre | compiler/src/identity.ts:166-180 | The words, the empty array and object, and negative zero with its sign; other numbers by their shortest text. |
| JsonText.ShortEscapesAre | compiler/src/identity.ts:182-185 | Quotes, backslashes and five controls have their short escapes. |
| JsonText.OtherUnitsAre | compiler/src/identity.ts:182-185 | Other controls and unpaired surrogates are written by four hexadecimal digits, all else as it is. |
| SemanticJson.SameNodesMeanSameValues | compiler/src/semantic-json.ts:51-92 | Equal typed nodes come from values equal up to member order with numbers equal by bits. |
| SemanticJson.SameValuesHaveSameNodes | compiler/src/semantic-json.ts:51-92 | Values equal up to member order have equal typed nodes. |
| SemanticJson.HexDigitsAreInjective | compiler/src/semantic-json.ts:94-98 | The hexadecimal digits of a number of fixed width determine it. |
| SemanticJson.HexDigitsSpell | compiler/src/semantic-json.ts:94-98 | The digits are lowercase hexadecimal, the most significant first, and spell the number. |
| SemanticJson.ScalarNodesAre | compiler/src/semantic-json.ts:51-92 | The node of a scalar is its tag and the scalar, of a number its tag and the sixteen digits of its bits. |
| SemanticJson.ArrayNodeIs | compiler/src/semantic-json.ts:51-92 | The node of an array is its tag and the nodes of its items in order. |
| SemanticJson.ObjectNodeIs | compiler/src/semantic-json.ts:51-92 | The node of an object is its tag and the pairs of names and nodes of its members, names ascending by their bytes. |
| SemanticJson.PairsAre | compiler/src/semantic-json.ts:83-91 | A pair is the name and the node of its member. |
| SemanticJson.EncodingIs | compiler/src/semantic-json.ts:20-49 | The encoding is the compact text of a marker, the version and the node; what is hashed is its UTF-8. |
| SemanticJson.EncodedExactly | compiler/src/semantic-json.ts:51-92 | A value is refused exactly when a number that is not finite, or an unpaired surrogate in a string or a name, is somewhere within it. |
| SemanticJson.EncodingIsCanonical | compiler/src/semantic-json.ts:25-92 | Two encodable values have the same encoding exactly when they are equal up to member order, numbers compared by bits. |
| SemanticJson.BytesAreCanonical | compiler/src/semantic-json.ts:20-22 | The same for the UTF-8 bytes that are hashed. |
| ExactJson.WrittenTextReadsBack | compiler/src/identity.ts:122-290 | Reading the written text gives the value with member names ascending by their bytes, equal up to member order, numbers by bits, so negative zero survives. |
| ExactJson.WrittenTextIs | compiler/src/identity.ts:122-290 | The written text is the indented text of the value with names ascending, and a line feed. |
| ExactJson.WrittenExactly | compiler/src/identity.ts:159-311 | A value is refused exactly when a number that is not finite, or a string or a name that fails the surrogate check, is somewhere within it. |
| ExactJson.WrittenTextsAreInjective | compiler/src/identity.ts:122-290 | Equal texts come from values equal up to member order. |
| ExactJson.TextIgnoresMemberOrderExactly | compiler/src/identity.ts:262-267 | The text is independent of member order exactly when no object has two members whose names share their UTF-8 bytes. |
| ExactJson.SortKeepsTies | compiler/src/identity.ts:262-267 | The sort is stable: members with the same name bytes keep their order. |
| ExactJson.WellFormedNamesAreToldApart | compiler/src/identity.ts:262-267 | Names without unpaired surrogates are always told apart. |
| ExactJson.AcceptedNamesCanClash | compiler/src/identity.ts:292-311 | The serializer accepts names it cannot tell apart: two different final high surrogates. |
| FunctionIds.AssignFunctionIds | compiler/src/compile.ts:284-344 | Every site gets the id of its path, its semantic digest and the number of earlier sites that share both; it fails exactly when some site cannot have one. |
| FunctionIds.IdIs | compiler/src/identity.ts:90-116 | An id is `nf_` and the digest of the encoded identity; there is none exactly for a path that is not normalized, an ordinal beyond the safe integers or a malformed digest. |
| FunctionIds.IdsAreFunctionIds | compiler/src/identity.ts:90-116 | Every id that is assigned is one the bundle check takes for a function id. |
| FunctionIds.DigestTextsAre | compiler/src/identity.ts:9 | Digests are 64 lowercase hexadecimal digits. |
| FunctionIds.IdentityIs | compiler/src/identity.ts:109-115 | What is digested: a marker, the version, path, ordinal and semantic digest, in this order. |
| FunctionIds.NormalizedMeans | compiler/src/identity.ts:141-160 | A path is normalized exactly when it is relative, has no backslash, and no stretch between slashes is empty or made of one or two dots. |
| FunctionIds.SegmentsAreStretches | compiler/src/identity.ts:141-160 | The segments of a path are exactly its stretches between slashes. |
| FunctionIds.DuplicateKeysDiffer | compiler/src/compile.ts:337 | The counting key determines path and digest, whatever characters the path holds. |
| FunctionIds.IdentitiesAreDistinct | compiler/src/identity.ts:109-115 | No two sites of a list are digested over the same bytes. |
| FunctionIds.IdsAreDistinctWithoutCollision | compiler/src/identity.ts:90-116 | So two ids are equal exactly when the digest collides on different bytes. |
| FunctionIds.KeysMeanSamePathAndMeaning | compiler/src/identity.ts:28-45 | Without a collision sites share a key exactly when they share the path and an equal projection. |
| FunctionIds.SiteIdIsListed | compiler/src/compile.ts:337-344 | Every site has the id at its own place in the list of ids of its key. |
| FunctionIds.OrdinalsCountUp | compiler/src/compile.ts:337-339 | The sites of a key are numbered from zero without gaps, whatever lies between them. |
| FunctionIds.IdsAreStable | compiler/src/compile.ts:337-344 | Lists with equally many sites of a key give them the same ids in order: sites with other keys change nothing, further sites of the key only add ids. |
| Releases.ListingIsDetermined | cli/src/releases.ts:578-596 | The listing holds exactly what was found, valid releases first and newest first, invalid ones by digest, and does not depend on directory order. |
| Releases.PreviousIsNewestOlder | cli/src/releases.ts:696-718 | The previous release is the newest valid release created before the current one (at the same time: with the smaller digest), or there is none. |
| Releases.CandidatesAreExact | cli/src/releases.ts:413-438 | Prune refuses exactly when the current release is not listed as valid; otherwise its candidates are, each once, exactly the listed releases that are valid, not current, have at least the number to keep of valid releases listed before them, and were created before the cutoff. |
| PruneProtocol.StepKeepsInv | cli/src/releases.ts:442-479 | Every step of prune, of a switch, of a publication and of a disturbance keeps the protocol invariant. |
| PruneProtocol.RenameMoves | cli/src/releases.ts:457-462 | The rename always finds its directory. |
| PruneProtocol.DanglingIsTransientOrLate | cli/src/releases.ts:442-479 | In every run `current.json` refers to a missing release exactly while it is the one between rename and restoration, or when the switch that wrote it last verified the release before prune's rename, wrote after the second read, and nothing put the release back since. |
| PruneProtocol.CurrentIsDeletedOnlyLate | cli/src/releases.ts:463-477 | When prune is about to delete a release, that release is current exactly after such a late switch. |
| PruneProtocol.RenamedCurrentIsRestored | cli/src/releases.ts:463-475 | When the second read finds the renamed release current, or no readable pointer, the only thing prune can do next is put it back. |
| PruneProtocol.PruneBegins | cli/src/releases.ts:410-438 | Prune takes the release in `current.json` for current, goes on exactly when the scan lists that as valid, and then queues exactly the listed releases that may go. |
| PruneProtocol.PruneNeedsPointer | cli/src/releases.ts:412-420 | Without a readable pointer prune does nothing at all. |
| PruneProtocol.FirstReadDecides | cli/src/releases.ts:442-456 | Before the rename: a candidate found current is skipped and stays, without a readable pointer prune stops, any other candidate is renamed next. |
| PruneProtocol.SecondReadDecides | cli/src/releases.ts:463-475 | After the rename: put back next if it is current or the pointer unreadable, deleted next otherwise. |
| PruneProtocol.RestorationEnds | cli/src/releases.ts:463-475 | Whatever others do meanwhile, putting back ends prune when the second read found the pointer invalid; otherwise prune skips the release and goes on. |
| PruneProtocol.DecisionsAreCarriedOut | cli/src/releases.ts:463-479 | Putting back makes it present and skipped, or stops prune; deleting makes it removed and leaves it gone. |
| PruneProtocol.PruneAloneRemovesCandidates | cli/src/releases.ts:440-479 | With nobody else about, prune ends by having removed exactly its candidates in order, skipped none, and left pointer and other releases alone. |
| PruneProtocol.WrittenPointerStays | cli/src/releases.ts:326-342 | In every run a pointer that nobody touched since a switch wrote it names what that switch verified last. |
| PruneProtocol.SkippedStay | cli/src/releases.ts:453-475 | A release prune skipped is on disk in every later state and no longer in its queue. |
| PruneProtocol.RunIsTold | cli/src/manifest.ts:290-326 | The recorded times are those of the run: each switch's last verification, the last rename of each release with nothing put back since, the reads, and the write the pointer is from. |
| PruneProtocol.LateSwitchDeletesCurrent | cli/src/releases.ts:326-342 | The exception is real: a concrete run with a late switch deletes the current release. |
| Lifecycle.StepKeepsInv | runtime/src/artifact-runtime.ts:382-425 | Every stretch of code between awaits keeps the lifecycle invariant. |
| Lifecycle.ActiveIsOpen | runtime/src/artifact-runtime.ts:382-425 | After any run the active artifact's runtime is open. |
| Lifecycle.CallsReachOpenRuntimes | runtime/src/artifact-runtime.ts:494-504 | After any run a call through a handle or from compiled code is dispatched only to an open runtime. |
| Lifecycle.IdleMeansOnlyActiveOpen | runtime/src/artifact-runtime.ts:870-877 | With nothing queued or running the only open runtime is the active one, and its handle is not closed. |
| Lifecycle.FailedLoadChangesNothing | runtime/src/artifact-runtime.ts:303-312 | A load that fails leaves the active artifact and every open runtime as it found them. |
| Lifecycle.SupersededCloseKeepsSuccessor | runtime/src/artifact-runtime.ts:860-865 | Serving the close of a replaced handle leaves the successor active and open. |
| Lifecycle.ClosedHandleNeverDispatches | runtime/src/artifact-runtime.ts:840-851 | A closed handle never reaches a runtime again. |
| Lifecycle.ClosedRuntimesStayClosed | runtime/src/artifact-runtime.ts:382-425 | A closed runtime is never open or active again. |
| Lifecycle.QueueDrains | runtime/src/artifact-runtime.ts:870-877 | Unless idle some stretch can run, and each one brings the queue closer to idle. |
| Lifecycle.QueueIsServedInOrder | runtime/src/artifact-runtime.ts:870-877 | Operations start one at a time in the order they were asked for; what waits is what was asked for and not started, and a handle is closed once it was asked to. |
| Lifecycle.ActiveIsLastActivated | runtime/src/artifact-runtime.ts:382-425 | In every run the active artifact is that of the last activation, unless a close served since, of the active artifact or of its own handle, ended it. |
| Lifecycle.ActivationTakesEffect | runtime/src/artifact-runtime.ts:401-424 | A load that succeeds takes effect: the runtime created last is active and open, and the one active before is closed. |
| Lifecycle.CloseTakesEffect | runtime/src/artifact-runtime.ts:482-489 | A close that is served takes effect: what it closes is neither active nor open; serving anything else leaves the active artifact. |
| Lifecycle.CallsAreDispatchedExactly | runtime/src/artifact-runtime.ts:494-504 | A handle call is dispatched exactly when its artifact is the active one and the handle was not asked to close, a compiled call exactly when an artifact is active, and to that one. |
| Lifecycle.ActivatedHaveHandles | runtime/src/artifact-runtime.ts:834-866 | Every artifact made active has its handle, except while the one it replaced is still being closed. |
| Lifecycle.SemaRuntime.ActivateArtifact | runtime/src/artifact-runtime.ts:382-392 | Asking for a load only queues it behind what is queued already; nothing becomes active or closed by it. |
| Lifecycle.SemaRuntime.CloseSemaArtifact | runtime/src/artifact-runtime.ts:482-489 | Asking to close the active artifact only queues that; which artifact it closes is decided when its turn comes. |
| Lifecycle.SemaRuntime.Close | runtime/src/artifact-runtime.ts:852-866 | Closing a handle marks it at once, queues the rest, and a second close does nothing. |
| Lifecycle.SemaRuntime.Call | runtime/src/artifact-runtime.ts:840-845 | A handle call is dispatched exactly when the handle is open and active, to a runtime that is open. |
| Lifecycle.SemaRuntime.DispatchSemaCall | runtime/src/artifact-runtime.ts:494-504 | A compiled call is dispatched to the active runtime, which is open, or fails when none is loaded. |
| Lifecycle.SemaRuntime.BeginNext | runtime/src/artifact-runtime.ts:482-489 | The first stretch of the next operation changes exactly the specified state and keeps the invariant. |
| Lifecycle.SemaRuntime.SettleLoad | runtime/src/artifact-runtime.ts:392-415 | A load that settles either ends without a trace or has started a runtime that is open and not yet active; the invariant is kept. |
| Lifecycle.SemaRuntime.ActivateCreated | runtime/src/artifact-runtime.ts:401-424 | Activation and the closing of the replaced runtime are one stretch that keeps the invariant. |
| Lifecycle.SemaRuntime.FinishOperation | runtime/src/artifact-runtime.ts:870-877 | When the awaited close settles the operation ends, a replacing load with its new handle handed out, and the invariant is kept. |
| Fallbacks.CallsNest | runtime/src/artifact-runtime.ts:799-832 | Every call, returning or throwing, enters no running fallback and leaves every fallback it enters, so the running set afterwards is the set before. |
| Fallbacks.NoFallbackRunsTwice | runtime/src/artifact-runtime.ts:811-831 | At every moment of any call the running fallbacks are all different. |
| Fallbacks.EnteringUsesUp | runtime/src/artifact-runtime.ts:820-821 | Entering a fallback uses up one of the functions not yet running, the measure that makes mutually recursive fallbacks terminate. |
| Fallbacks.CallComesTo | runtime/src/artifact-runtime.ts:755-832 | What every call comes to: the diagnostic, the value without a threshold or with one reached, an error without a fallback or with one that runs already, and otherwise what the calls and the end of the fallback's body decide. |
| Fallbacks.ReachingMeans | runtime/src/artifact-runtime.ts:796-801 | Confidence reaches a threshold by value, and never when one of them is no number. |
| Fallbacks.FallbackIsEntered | runtime/src/artifact-runtime.ts:820-831 | A call enters its own fallback first and leaves it last exactly when it asks it and it is not running, and else enters none. |
| Fallbacks.ActiveArtifact.DispatchArtifactCall | runtime/src/artifact-runtime.ts:684-832 | The runtime form computes the specified outcome and trace and restores the invocation set, by return or by throw. |
| Decimals.NormalFormIsUnique | compiler/src/decimal.ts:201-210 | Two decimals are the same number exactly when their normal forms are equal. |
| Decimals.NormalizeIsExact | compiler/src/decimal.ts:201-210 | Normalizing keeps the exact number and gives a normal form. |
| Decimals.NormalizeDecimal | compiler/src/decimal.ts:201-210 | The loop computes the normal form. |
| Decimals.ScalingIsExact | compiler/src/decimal.ts:197-199 | The scaled coefficient is the exact number times the power of ten of the scale. |
| Decimals.TimesPow10IsProduct | compiler/src/decimal.ts:84-87 | Multiplying ten at a time is multiplying by the power of ten. |
| DecimalText.ScanIsExact | compiler/src/decimal.ts:55-63 | The scanner finds the pieces of exactly the literals of the grammar, and they are the only ones. |
| DecimalText.ReadNumberIsExact | compiler/src/decimal.ts:65-89 | A literal is read as exactly the number positional notation gives it, in normal form. |
| DecimalText.ReadingIsExact | compiler/src/decimal.ts:46-90 | Exactly the literals within the length and exponent limits are read, each as the normal form of the number it denotes. |
| DecimalText.CanonicalTextReadsBack | compiler/src/decimal.ts:157-176 | Reading the canonical text gives the normal form back exactly when the text has at most 1,000 characters. |
| DecimalText.CanonicalTextIsCanonical | compiler/src/decimal.ts:157-176 | Canonical texts are equal exactly when the numbers are. |
| DecimalText.CanonicalShapeIs | compiler/src/decimal.ts:157-176 | A canonical text has no exponent, no zeros it could do without before or after the point, and no point without a fraction. |
| DecimalText.WholeLiteralsMean | compiler/src/decimal.ts:46-90 | Digits alone are read as their value, with a minus as its negative. |
| DecimalText.PointedLiteralsMean | compiler/src/decimal.ts:46-90 | A point divides by ten for every digit after it. |
| DecimalText.ExponentsMean | compiler/src/decimal.ts:46-90 | An exponent multiplies by its power of ten, after a minus it divides by it. |
| DecimalText.StrippingIs | compiler/src/decimal.ts:46-54 | Stripping takes out exactly the underscores. |
| DecimalGrids.ComparisonIsExact | compiler/src/decimal.ts:178-195 | Comparison agrees with the order of the exact numbers. |
| DecimalGrids.SteppedIsProduct | compiler/src/decimal.ts:129-133 | Stepping i times from the minimum is adding the product of i and the step. |
| DecimalGrids.NthIsExact | compiler/src/decimal.ts:129-134 | The i-th computed value is exactly the number i steps from the minimum. |
| DecimalGrids.CountIntervals | compiler/src/decimal.ts:98-124 | The bounds pass exactly when some whole number of steps leads from minimum to maximum within the limit; each error names the first failing condition. |
| DecimalGrids.ListSupport | compiler/src/decimal.ts:126-147 | Listing succeeds exactly when all entries are finite and apart as numbers; otherwise it names the first bad entry. |
| DecimalGrids.BuildDecimalGrid | compiler/src/decimal.ts:92-155 | A grid exists exactly under these conditions and is the whole progression in canonical text, minimum first and maximum last, pairwise different as text and as numbers. |
| DecimalGrids.GridReadsBack | compiler/src/decimal.ts:92-155 | Grid entries within the length limit read back as the exact numbers of the progression. |
| TrainerStderr.LineEndIsStable | cli/src/train.ts:432-442 | More text never moves the end of a line that is already complete. |
| TrainerStderr.Filter.FindLineEnd | cli/src/train.ts:432-442 | The two searches find the first newline or decided carriage return, with a carriage return and newline kept together. |
| TrainerStderr.TwoPushesAreOne | cli/src/train.ts:417-425 | Pushing two texts in turn is pushing them at once. |
| TrainerStderr.SameTextSameState | cli/src/train.ts:417-425 | Any two ways to cut a text into chunks give the same state, forwarded lines included. |
| TrainerStderr.NothingIsLost | cli/src/train.ts:378-477 | After any chunks forwarded, held and pending text together are exactly what was pushed, in order. |
| TrainerStderr.LinesAreKept | cli/src/train.ts:417-477 | After any chunks the lines forwarded and then held are the complete lines of the text, one by one and in order, what is pending is the unfinished rest, and what is held is one traceback: a line that starts one and lines that each continued it. |
| TrainerStderr.LaunchFailuresAre | cli/src/train.ts:364-366 | A launch failure line is exactly something, a colon, a space and one of the two messages that is no report, warning or note, or what begins with the second message. |
| TrainerStderr.TerminatorsAre | cli/src/train.ts:364-366 | The line terminators a launch failure line has none of before its message. |
| TrainerStderr.TracebacksStart | cli/src/train.ts:444-461 | A traceback is held from a line that is its header or a launch failure. |
| TrainerStderr.LinesEndAt | cli/src/train.ts:432-442 | A line ends with a newline, or with a carriage return that something other than a newline follows. |
| TrainerStderr.BelongingMeans | cli/src/train.ts:463-476 | A line belongs to the held traceback exactly when it is a new header, the exception has not been told, or it is blank, indented or one of the two chaining sentences. |
| TrainerStderr.CompleteMeansTold | cli/src/train.ts:463-476 | The exception has been told exactly when some line that is no header, blank or indented came since the last header, or the traceback is a launch failure. |
| TrainerStderr.LastTracebackIsRemembered | cli/src/train.ts:402-461 | After any chunks the traceback remembered is the last one forwarded with neither a traceback nor a report after it, and there is none exactly when each was followed by a report. |
| TrainerStderr.TrimmingIs | cli/src/train.ts:445 | Trimming takes off exactly the white space at the end. |
| TrainerStderr.SpacesAre | cli/src/train.ts:445 | White space is the language's own list of characters. |
| TrainerStderr.EndAddsAtMostANewline | cli/src/train.ts:427-430 | The end of output adds at most one newline, after an unfinished line only. |
| TrainerStderr.Filter.Push | cli/src/train.ts:417-425 | Push computes the specified state and appends exactly its text to everything seen. |
| TrainerStderr.Filter.End | cli/src/train.ts:427-430 | The end computes the specified state, and everything seen grows by one newline after an unfinished line and by nothing otherwise. |
| TrainerStderr.Filter.TakeLine | cli/src/train.ts:444-461 | Handling a line computes the specified state. |
| TrainerStderr.Filter.FatalTraceback | cli/src/train.ts:402-406 | The held traceback is returned and dropped, or else the last released one. |
| TrainerStderr.Filter.Release | cli/src/train.ts:409-415 | Releasing forwards the held lines in order and loses nothing. |

## Left out

- ExecutionPlan.BuildSemaExecutionPlan: names are compared only through their UTF-8 bytes and keys joined by a NUL are pairs; descriptors are told apart by identifier rather than by expression node; the unit of work charged while the write index is built is not counted.
- Provenance.ProvenanceResolver.ForExpression: which initializers and writes a symbol has for a consumer is given (the filter that decides whether a write may reach it is not modelled), and loops that mix initializers and writes may or may not be reported, depending on the symbol entered first; loops of initializers alone always are, loops of writes alone never.
- PlanRun.ExecuteArtifactPlan: looking a function up and encoding its inputs are one acceptance predicate; inference, confidence policy and fallbacks of a called entry are one answer function.
- BundleIr.ValidateFunctions: `adapterRefs` and `domains` are copied by the code without a check and are not part of this model.
- PredicateTypes.PredicateTypeSoundness: declared types are not narrowed by control flow; resolution and assignability of the TypeScript checker are replaced by the rules over resolved input types.
- Predicates.FoldingIsSound: parsing of predicates from source text, with its work budget and parentheses, is not modelled; predicates are syntax trees.
- Contradictions.ValidateConstraintContradictions: outputs are scalars, as version 1 constraints require; whether an answer lies in the support of the output is not considered.
- InputTypes.ValidateInputValue: cyclic types do not occur, as they do not in resolved types.
- ExactJson.WrittenTextReadsBack: values are trees, so cycles, accessors, symbol keys, sparse arrays and objects with other prototypes, which the serializer refuses, cannot be stated.
- SemanticJson.EncodingIsCanonical: objects are lists of members with distinct names; the position integer-like names take in enumeration order is covered by every order being allowed.
- FunctionIds.AssignFunctionIds: normalization of file-system paths to project-relative ones is not modelled, only the check of the normalized path; routing and encoder references are not part of this model.
- PruneProtocol.DanglingIsTransientOrLate: steps are atomic (a pointer write is one rename, a verification one moment); a second prune, the removal of leftovers, dry runs, symbolic links, flushing and a publication of a release that is just being moved are not part of the model.
- Releases.CandidatesAreExact: reading manifests, resolving a digest prefix and sizes on disk are left out; a digest is the number it spells.
- Lifecycle.StepKeepsInv: the file watcher's debounce, request scopes and worker processes are left out; reloads are loads. The manifest's input encoding is taken as checked by the loader, so nothing fails between the start of a runtime and its activation.
- Fallbacks.CallsNest: a fallback body is a deterministic choice of the next call from the outcomes so far; stage calls from a body, observers, stubs and diagnostics of flat outputs are left out.
- DecimalGrids.BuildDecimalGrid: the conversion of a decimal text to a number is a parameter.
- DecimalText.ReadingIsExact: the type node around a literal, with its parentheses and minus sign, is not modelled.
- TrainerStderr.SameTextSameState: decoding bytes to text and the process itself are left out; chunks are texts.
- Tokenization, model inference, the artifact loader and its schemas, the Python trainer, the command line's rendering, init, doctor, explain and packaging, the editor plugin, bundler adapters and framework glue are not part of this model; they are external or plumbing.
