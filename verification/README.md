# A verified model of the partial evaluator and the passes around it

The program reads Terraform and Terragrunt configuration, evaluates what it can without contacting a
provider, flattens module calls, expands `count` and `for_each`, infers dependency edges and writes the
result as Parquet tables with a canonical-JSON attribute column. This project models the part that
decides what those tables say, and proves what its documentation and tests promise about it.

All passes share one small datatype (`Ir.dfy`): resolved values and possibly unresolved expressions.
Passes that the program writes as recursion are functions here; passes that it writes as loops over
mutable state are methods and classes, each proved equal to a specification function or predicate about
which the theorems are then stated.

| files | what they hold |
|---|---|
| `Ir`, `Text`, `Seqs`, `Sorting` | datatypes, association lists, the string primitives, the stable sort |
| `Reducer`, `Operators`, `Comprehensions`, `Reductions` | the reducer, what its operators and `for` forms compute, and what every construct reduces to on concrete operands |
| `Semantics` | a big-step meaning of expressions; reduction preserves it, is exact, idempotent and loses nothing in stages |
| `Graphs`, `Tarjan` | cycles and ranks; the cycle detector as a stateful class; it answers exactly |
| `CycleReports`, `Participants`, `Stability` | what the detector goes on to do after its first find, what it therefore reports, and when every drawing order of the edges reports the same |
| `Locals` | the fixpoint solver; it computes dependency-order evaluation, whatever the order of declaration |
| `Substitution` | input substitution: when it composes, and what it means |
| `Addresses` | address validation, module segments, prefixing and its inverse |
| `Expand`, `Unfolding`, `Descents` | module flattening with its stack; it is the unfolding of all valid call chains, in order, within bounds; what each row has become, and every complaint, in terms of the bodies as written |
| `Builder`, `Indices` | `count`/`for_each` expansion and de-duplication; which text stands for which instance |
| `References`, `Edges`, `EdgeSources` | counting unresolved nodes; dependency edges, and which references of the configuration they come from |
| `Json`, `Canonical`, `Printers`, `Readback`, `Sentinels` | an RFC 8259 reader, the printed trees, the writers, the round trip, and what the text of an unresolved expression tells |
| `Merges` | the Terragrunt cascade merge and its laws |
| `Batching` | row groups |
| `ProfileChain` | the `source_profile` walk |

Where a promise does not hold of the code, the code is modelled as it is, a lemma gives an input on which
it fails, and another proves when it holds — exactly, unless marked one way:

| promise | holds when | fails for |
|---|---|---|
| a binder hides an outer one of the same name | `Comprehensions.BinderHidesOuter` | `Semantics.ShadowedBinder` |
| rebuilding a map gives the map | `Comprehensions.RebuildingIsExact` | `Comprehensions.OuterKeyWins` |
| a cycle error lists the cycle | `Participants.ReportIsOneCycle`, `Locals.ParticipantsAreOneCycle` | `Tarjan.ReportedNodesMayLieOnNoCycle` |
| it lists the first cycle found | `Participants.ReportIsFirstFind`, on the graph alone one way in `Participants.SingleSuccessorsReportFirstFind` | `Tarjan.ReportedNodesMayLieOnNoCycle` |
| it lists everything on cycles, in every run | `Stability.EveryOrderReportsTheCycle`, `Locals.EveryRunNamesTheCycle` | `Participants.EdgeOrderDecides` |
| it lists one cycle, in every run | `Stability.EveryOrderReportsOneCycle`, where all cycles lie in one component | `Tarjan.ReportedNodesMayLieOnNoCycle` |
| nested call inputs compose | `Substitution.SubstComposes` | `Substitution.UnboundVariableEscapes` |
| inputs reach `var.x.attr` and the bodies of `for` | one way in `Substitution.SubstMeaning` | `Substitution.TailIsNotSubstituted`, `Substitution.InputIsCaptured` |
| module segments can be parsed back | `Addresses.PrefixRoundTrip` | `Addresses.DottedKeySplits` |
| module instances have different indices | `Builder.CallInstancesDistinct` | `Builder.QuoteInKeyCollides` |
| merging is associative | `Merges.MergeAssociative` | `Merges.DeepMergeIsNotAssociative` |
| merging a child again changes nothing | `Merges.MergeAgain` | `Merges.RepeatedListGrows` |
| different `for` expressions print differently | `Sentinels.ForTextOmitsKeyAndFilter` | `Sentinels.KeyAndFilterAreLost` |
| `__unresolved__` tells a reference from a literal | `Sentinels.ReferenceIsRecognised` | `Sentinels.LiteralPassesForReference` |
| an object's keys print as written | never for a literal key | `Sentinels.ObjectKeyIsQuotedTwice` |

## Model

| member | source | states |
|---|---|---|
| `Semantics.ReductionPreservesMeaning` | crates/core/src/eval/reduce.rs:117-335 | in every apply-time environment that extends the scope, under innermost-binder scoping, a reduced expression without rebinding means what the original means |
| `Semantics.ReductionIsExact` | crates/core/src/eval/reduce.rs:117-335 | reduction ends in a literal exactly when evaluating in the scope alone gives a value, and it is that value |
| `Semantics.ReducePreserves` | crates/core/src/eval/reduce.rs:117-335 | the same preservation for every expression, rebinding included, when a name sees its first binder as the evaluator's lookup does |
| `Semantics.ReduceIsEval` | crates/core/src/eval/reduce.rs:117-335 | the same exactness for every expression under first-match lookup |
| `Semantics.ReduceIdempotent` | crates/core/src/eval/reduce.rs:113-335 | reducing twice in one scope is reducing once |
| `Semantics.StagingLosesNothing` | crates/core/src/eval/reduce.rs:117-335 | reducing early and again when more is known reaches the same literals as reducing once at the end |
| `Semantics.LexicalAgrees` | crates/core/src/eval/reduce.rs:106-110 | first-match and innermost lookup agree on every expression in which no `for` reuses an enclosing binder's name |
| `Semantics.NoShadowSurvives` | crates/core/src/eval/reduce.rs:516-619 | reduction never introduces a reused binder name |
| `Semantics.ShadowedBinder` | crates/core/src/eval/reduce.rs:106-110 | a nested `for` with the same binder sees the outermost value of that name, in any scope; the result is right exactly when that value and the inner one coincide |
| `Reductions.ReferenceReads` | crates/core/src/eval/reduce.rs:122-144 | `var.x.a.b` and `local.x.a.b` read attribute `b` of attribute `a` of what `x` is bound to, and stay as they are when the name or the path leads nowhere |
| `Reductions.OtherReferences` | crates/core/src/eval/reduce.rs:145-169 | the workspace name and bound bare identifiers are the only other references that are resolved |
| `Reductions.OperandsReduceFirst` | crates/core/src/eval/reduce.rs:172-187 | a binary operator sees its reduced operands, left and right in place, and stays with them when it gives nothing |
| `Reductions.IntegersCompute` | crates/core/src/eval/reduce.rs:364-400 | integers add, subtract, multiply and compare as numbers, the operands in this order, and give nothing outside the `i64` range |
| `Reductions.StringsAndLogicCompute` | crates/core/src/eval/reduce.rs:364-484 | strings are appended left to right and compared character by character; logic is the truth table |
| `Reductions.FloatsCompute` | crates/core/src/eval/reduce.rs:364-400 | floats, and integers among them, are handed to the host in this order; a zero divisor gives nothing |
| `Reductions.EqualityIsStructural` | crates/core/src/eval/reduce.rs:395-396 | on float-free values `==` is equality, entry order included, and `!=` its opposite |
| `Reductions.UnaryComputes` | crates/core/src/eval/reduce.rs:471-484 | negation and `!` |
| `Reductions.TemplateConcatenates` | crates/core/src/eval/reduce.rs:199-214 | a template of literals becomes a string, and the text of a longer template is the texts of its two halves one after the other |
| `Reductions.ScalarPieces` | crates/core/src/eval/reduce.rs:486-498 | a string contributes itself, a boolean `true` or `false`, null nothing, an integer the canonical text that reads back as it |
| `Reductions.CollectionPieces` | crates/core/src/eval/reduce.rs:499-513 | a list contributes its elements' texts between brackets and a map `key = text` between braces, separated by a comma and a blank, in order |
| `Reductions.TextAndVariable` | crates/core/src/eval/reduce.rs:199-214 | text followed by a string variable becomes the text followed by its value |
| `Reductions.TemplateReducesParts` | crates/core/src/eval/reduce.rs:199-214 | one part that stays symbolic keeps the template, its parts reduced |
| `Reductions.CollectionsCompute` | crates/core/src/eval/reduce.rs:216-302 | literal elements and fields make a list and a map in the order written; a call on literals asks the registry |
| `Reductions.OddKeyStays` | crates/core/src/eval/reduce.rs:237-268 | a key that is no string keeps the object symbolic |
| `Reductions.ConditionalPicks` | crates/core/src/eval/reduce.rs:304-316 | `true` picks the first branch, `false` the second, anything else keeps both reduced |
| `Reductions.PartsStayReduced` | crates/core/src/eval/reduce.rs:189-335 | where a part stays symbolic the construct stays with its parts reduced; a `for` only reduces its collection |
| `Reductions.ListsIndex` | crates/core/src/eval/reduce.rs:516-619 | over a list the first of two binders is the index from 0 and the second the item |
| `Reductions.OddComprehensionStays` | crates/core/src/eval/reduce.rs:516-619 | no collection, too many iterations or another number of binders leaves a `for` as it is |
| `Reductions.UndecidedFilterStays` | crates/core/src/eval/reduce.rs:516-619 | so does a filter that is not decided on some item |
| `Reducer.DescendAttributes` | crates/core/src/eval/reduce.rs:349-362 | the loop follows a dotted tail through nested maps and gives nothing at a missing key or a non-map |
| `Reducer.ReduceFor` | crates/core/src/eval/reduce.rs:516-619 | the loop with its two accumulators gives the rows of the comprehension, and the node unchanged when it cannot iterate, exceeds the limit or meets one stuck iteration |
| `Operators.IntegersNeverWrap` | crates/core/src/eval/reduce.rs:364-438 | integer `+`, `-`, `*` and negation give the mathematical result or nothing; subtraction undoes addition |
| `Operators.TruncatedDivision` | crates/core/src/eval/reduce.rs:370-378 | the quotient is truncated: the remainder has the dividend's sign and is smaller than the divisor |
| `Operators.DivisionTruncates` | crates/core/src/eval/reduce.rs:370-384 | `/` is that quotient except for the one that overflows, which goes to floats |
| `Operators.DivisionIsExact` | crates/core/src/eval/reduce.rs:370-384 | `/` answers with an integer exactly when it is the one whose remainder is below the divisor and has the dividend's sign; off the overflowing pair, with nothing exactly for a zero divisor |
| `Operators.RemainderIsEuclidean` | crates/core/src/eval/reduce.rs:385-394 | `%` is never negative, below the divisor's magnitude and congruent to the dividend |
| `Operators.RemainderIsExact` | crates/core/src/eval/reduce.rs:385-394 | `%` answers exactly with the one residue of the dividend in [0, magnitude of the divisor), and with nothing exactly for a zero divisor or the overflowing pair |
| `Operators.ComparisonsAgree` | crates/core/src/eval/reduce.rs:395-400 | on two integers or two strings all six comparisons answer, exactly one of less, equal, greater holds, and the rest follow |
| `Operators.LessIsTransitive` | crates/core/src/eval/reduce.rs:460-470 | `<` is transitive on integers and on strings |
| `Operators.LogicIsBoolean` | crates/core/src/eval/reduce.rs:401-484 | the logical operators take exactly booleans and obey De Morgan's law |
| `Comprehensions.FilterKeeps` | crates/core/src/eval/reduce.rs:516-619 | reducing a filtering list comprehension gives exactly the items that pass, in order, and without a filter the list; the binder must be new in scope |
| `Comprehensions.BinderHidesOuter` | crates/core/src/eval/reduce.rs:106-110 | in any scope a name reads its outermost binding; a new binder is seen exactly when there is no outer one of the name or the first has the same value |
| `Comprehensions.RebuildingIsExact` | crates/core/src/eval/reduce.rs:516-619 | over a map the first binder is the key and the second the value: what `{for k, v in m : k => v}` reduces to in any scope, itself beyond the limit or when a key is seen as no string; it gives the map exactly when every outer binding of either name agrees |
| `Comprehensions.MapsRebuild` | crates/core/src/eval/reduce.rs:516-619 | two names that are new in scope always give the map |
| `Comprehensions.OuterKeyWins` | crates/core/src/eval/reduce.rs:106-110 | under an enclosing string binder of the key's name every key becomes its value; the map comes back exactly when all keys equal it already |
| `Tarjan.TarjanFirstCycle` | crates/core/src/eval/locals.rs:150-233 | the driver computes `FirstCycle`, and answers `Some` exactly on graphs with a cycle |
| `Tarjan.Detector.StrongConnect` | crates/core/src/eval/locals.rs:160-213 | one call turns the six mutable fields into what the recursive specification says |
| `Tarjan.Detector.PopComponent` | crates/core/src/eval/locals.rs:190-205 | popping down to the root returns the popped nodes in order and clears exactly their flags |
| `Tarjan.DetectionIsExact` | crates/core/src/eval/locals.rs:150-233 | `Some` if and only if the graph has a cycle, self-loops included; on `None` a rank falls along every edge |
| `Tarjan.ReportedNodesMayLieOnNoCycle` | crates/core/src/eval/locals.rs:161-219 | the failure: a graph on which the reported nodes lie on no cycle, because ancestors keep running after a find |
| `Participants.ReportIsExact` | crates/core/src/eval/locals.rs:160-233 | what is reported on every cyclic graph: a component, or, when node 0 is open at the first find and leads to something unvisited together with itself or another open node, exactly the open nodes that do |
| `Participants.FirstFindIsComponent` | crates/core/src/eval/locals.rs:190-209 | the first vector assigned to `found` is a strongly connected component carrying a cycle |
| `Participants.ReportedNodesLeadToCycles` | crates/core/src/eval/locals.rs:150-233 | on every graph, every reported node leads to a cycle |
| `Participants.ReportIsOneCycle` | crates/core/src/eval/locals.rs:150-233 | every two reported nodes lie on one cycle if and only if, in that overrun, every open node that leads to something unvisited also leads back to node 0 |
| `Participants.ReportIsComponent` | crates/core/src/eval/locals.rs:150-233 | the report is a whole strongly connected component if and only if, in that overrun, it is one cycle and no unvisited node shares a cycle with node 0 |
| `Participants.ReportIsFirstFind` | crates/core/src/eval/locals.rs:150-233 | the report is the first component found if and only if there is no overrun and no open node that leads only to visited ones lies on a cycle |
| `Participants.SingleSuccessorsReportFirstFind` | crates/core/src/eval/locals.rs:150-233 | so it is wherever no node has two outgoing edges |
| `Participants.EdgeOrderDecides` | crates/core/src/eval/locals.rs:114-126 | the report depends on the order of a node's edges, which is drawn from a hash set: two orders of one graph report different nodes |
| `Stability.EveryOrderReportsTheCycle` | crates/core/src/eval/locals.rs:114-141 | for every cyclic graph: every drawing order reports exactly the nodes on cycles if and only if these form one component and no node other than 0, reachable from 0 and on no cycle, has two successors of which one leads to a cycle and no cycle leads to the other |
| `Stability.EveryOrderReportsOneCycle` | crates/core/src/eval/locals.rs:114-141 | where all cycles lie in one component, every order reports nodes of one cycle under the same condition and no weaker one |
| `Stability.OneComponentIsStable` | crates/core/src/eval/error.rs:29-36 | so under it any two runs report the same nodes |
| `Locals.CollectLocalRefs` | crates/core/src/eval/locals.rs:235-286 | the accumulated set grows by the references of the expression |
| `Locals.RefsAreMentions` | crates/core/src/eval/locals.rs:235-286 | a name is a reference if and only if a symbol of kind `Local` occurs whose source, less a leading `local.`, is that name or goes on from it with a dot |
| `Locals.DependsExactly` | crates/core/src/eval/locals.rs:107-127 | so the dependency graph, which is defined by these symbols, is the one the collected references draw |
| `Locals.NoLocalsNoEdges` | crates/core/src/eval/locals.rs:235-286 | an expression without `Local` symbols depends on nothing, whatever identifiers it binds |
| `Locals.CheckCycle` | crates/core/src/eval/locals.rs:107-143 | fails exactly on a cyclic dependency graph, whatever order the hash sets are drained in; the participants are the addresses of the reported locals and each leads to a cycle; otherwise yields a rank of the locals |
| `Locals.EdgeList` | crates/core/src/eval/locals.rs:114-126 | draining the set in any order lists every declared dependency once |
| `Locals.NameParticipants` | crates/core/src/eval/locals.rs:129-141 | the participants are the valid addresses of the reported nodes |
| `Locals.ParticipantsAreOneCycle` | crates/core/src/eval/error.rs:29-36 | the promise that the participants are the cycle: they depend on one another if and only if the condition of `Participants.ReportIsOneCycle` holds |
| `Locals.SingleReferencesReportTheCycle` | crates/core/src/eval/error.rs:29-36 | where every local refers to at most one other, they are the first cycle found |
| `Locals.EveryRunNamesTheCycle` | crates/core/src/eval/error.rs:29-36 | however the hash sets are drained, the participants are exactly the locals that depend on themselves, if and only if these all depend on each other and no local forks as in `Stability.EveryOrderReportsTheCycle` |
| `Locals.SolveLocals` | crates/core/src/eval/locals.rs:67-98 | errs exactly on a cycle; otherwise, on distinct names, every local is a fixpoint under the final scope, keeps its meaning, and is a literal exactly when dependency-order evaluation of its original expression gives that value |
| `Locals.Sweep` | crates/core/src/eval/locals.rs:72-96 | one pass keeps the invariant, and a pass that resolves nothing leaves a quiescent state, so the round cap never cuts the solver short |
| `Locals.FixpointIsTopological` | crates/core/src/eval/locals.rs:67-98 | a quiescent state of an acyclic system is its topological evaluation |
| `Locals.SolutionIsTopological` | crates/core/src/eval/locals.rs:67-98 | any assignment that satisfies every local's equation is the topological one |
| `Locals.EvalReadsRefs` | crates/core/src/eval/locals.rs:235-286 | evaluation depends on no local beyond the collected references and the empty name |
| `Locals.EmptyNameIsRead` | crates/core/src/eval/locals.rs:235-286 | `local.` reads the empty name although the collector lists no reference for it |
| `Locals.TopoEvalIsLexical` | crates/core/src/eval/locals.rs:67-98 | without shadowed binders the topological evaluation is the language's own |
| `Locals.OrderIndependent` | crates/core/src/eval/locals.rs:67-98 | permuting the declarations changes neither the resolved names and values nor any local's outcome |
| `Locals.CyclePermutes` | crates/core/src/eval/locals.rs:107-143 | nor the verdict of the cycle check |
| `Substitution.SubstComposes` | crates/core/src/graph/expand.rs:587-697 | substituting through composed inputs equals substituting twice exactly when no variable left alone by the inner inputs is bound by the outer ones |
| `Substitution.UnboundVariableEscapes` | crates/core/src/graph/expand.rs:600-617 | a variable the inner call does not bind is caught by the outer call's input of that name |
| `Substitution.NestedInputsCompose` | crates/core/src/graph/expand.rs:311-329 | at any nesting depth the composed inputs act as one substitution per call |
| `Substitution.SubstMeaning` | crates/core/src/graph/expand.rs:600-697 | evaluating a substituted expression is evaluating the original with every input variable rebound to its input's value, under `for` binders too, as long as no input lands under a `for` that binds one of its free names |
| `Substitution.EvalReadsFreeNames` | crates/core/src/eval/reduce.rs:94-110 | evaluation reads only the binders of free bare identifiers |
| `Substitution.TailIsNotSubstituted` | crates/core/src/graph/expand.rs:611-617 | `var.x.attr` is left alone although the input has the attribute |
| `Substitution.InputIsCaptured` | crates/core/src/graph/expand.rs:660-692 | an input naming `x` is captured under a `for` over `x`; right exactly when the two values coincide |
| `Addresses.BracketsAndQuotesBalanced` | crates/core/src/ir/newtypes.rs:217-234 | the scan accepts exactly the balanced strings |
| `Addresses.BalancedMeans` | crates/core/src/ir/newtypes.rs:217-234 | those with an even number of quotation marks and, outside quotes, as many closing as opening brackets, no prefix closing more than it opened |
| `Addresses.ValidAddressMeans` | crates/core/src/ir/newtypes.rs:60-87 | a valid address has 1 to 1024 characters of the allowlist and is balanced |
| `Addresses.ModuleSegments.Next` | crates/core/src/ir/newtypes.rs:147-154 | one step yields the segment and advances `rest` past it, or leaves it where it is |
| `Addresses.ModulePath` | crates/core/src/ir/newtypes.rs:113-122 | the dot-joined module segments |
| `Addresses.ResourcePart` | crates/core/src/ir/newtypes.rs:130-135 | what follows the last module segment |
| `Addresses.PrefixRoundTrip` | crates/core/src/graph/expand.rs:574-584 | parsing a prefixed address gives the prefix's segments in front of the address's own, and its remainder, exactly when every segment is dot-free |
| `Addresses.DottedKeySplits` | crates/core/src/graph/expand.rs:496-505 | a `for_each` key `a.b` breaks it: the segment is cut inside the key |
| `Addresses.PlainRoundTrip` | crates/core/src/graph/expand.rs:574-584 | a plain resource address comes back whole |
| `Addresses.PrefixFailsOnLengthOrCharset` | crates/core/src/graph/expand.rs:574-584 | prefixing a valid address never breaks balance: it fails exactly when the result is too long or holds a byte outside the allowlist |
| `Addresses.BalancedConcat` | crates/core/src/ir/newtypes.rs:217-234 | concatenating balanced strings is balanced |
| `Addresses.BalancedName` | crates/core/src/graph/expand.rs:374-378 | stripping `module.` keeps balance |
| `Addresses.IndicesBalanced` | crates/core/src/graph/expand.rs:496-505 | rendered count and key indices are balanced for every key |
| `Addresses.IndicesAllowed` | crates/core/src/graph/expand.rs:496-505 | count indices always pass the allowlist, a key index when the key's characters do, quotation marks and backslashes aside |
| `Expand.MergeProviderMaps` | crates/core/src/graph/expand.rs:339-363 | the loop overwrites first slots and appends the rest |
| `Expand.MergedProvider` | crates/core/src/graph/expand.rs:339-363 | the call's own mapping wins, what it does not mention is inherited |
| `Expand.Expansion.ResolveModuleCall` | crates/core/src/graph/expand.rs:150-243 | depth cap, source kind, path, cycle and registry checks in this order, one diagnostic per miss |
| `Expand.Expansion.CallInstances` | crates/core/src/graph/expand.rs:382-394 | `count` is tried before `for_each`; a call with neither has one instance without an index |
| `Expand.Expansion.InstancesForCount` | crates/core/src/graph/expand.rs:396-427 | the loop computes the index list that `Indices.InstancesAre` describes, with the TF1505 of `Indices.InstancesComplain` |
| `Expand.Expansion.InstancesForForEach` | crates/core/src/graph/expand.rs:429-491 | likewise for a map's keys or the string items of a list |
| `Indices.InstancesAre` | crates/core/src/graph/expand.rs:382-491 | instance i carries `[d]`, d being i in decimal without leading zeros, or `["k"]`, k being the i-th key or string less its quotation marks and backslashes; anything else is one instance without an index |
| `Indices.InstancesComplain` | crates/core/src/graph/expand.rs:396-491 | a TF1505 is raised exactly for a literal beyond the cap |
| `Expand.Expansion.EmitResources` | crates/core/src/graph/expand.rs:296-310 | every resource of the body is rewritten and appended, or dropped with TF1507 |
| `Expand.Expansion.ExpandModuleCall` | crates/core/src/graph/expand.rs:256-333 | appends exactly the rows and diagnostics of the call's trace and restores the stack |
| `Expand.Expansion.ExpandInstance` | crates/core/src/graph/expand.rs:284-332 | with a duplicate-free stack as long as the depth, one instance appends its trace and restores the stack |
| `Expand.Expansion.FlattenModules` | crates/core/src/graph/expand.rs:69-87 | the output is the rows of the whole trace, the stack is empty again |
| `Unfolding.FlattenIsUnfolding` | crates/core/src/graph/expand.rs:69-333 | a row is emitted for a chain and resource if and only if the chain can be walked and the row is what its end context makes of the resource |
| `Unfolding.FlattenInOrder` | crates/core/src/graph/expand.rs:256-333 | rows come in depth-first chain order and source order, and no resource of a chain is emitted twice |
| `Unfolding.ChainDiscipline` | crates/core/src/graph/expand.rs:150-243 | along every valid chain the stack is duplicate-free, registered, extends the caller's, and is as long as the chain, at most the depth cap and the registry size |
| `Unfolding.WalkIsSound` | crates/core/src/graph/expand.rs:256-333 | with validated addresses the prefix at the end of every valid chain is balanced and its names stay within the allowlist |
| `Unfolding.DroppedExactly` | crates/core/src/graph/expand.rs:296-310 | so a resource at a chain's end is dropped exactly when its address gets too long or an index on the way holds a character outside the allowlist |
| `Unfolding.ChainInputs` | crates/core/src/graph/expand.rs:311-329 | the inputs at a chain's end are the composition of those written at its calls |
| `Unfolding.FlattenedInputs` | crates/core/src/graph/expand.rs:311-329 | so a flattened expression is the successive substitution of every call on its chain |
| `Unfolding.FlattenedSize` | crates/core/src/graph/expand.rs:284-332 | at most T·R·K·(1 + CK + … + (CK)^(D-1)) rows |
| `Descents.EmittedRow` | crates/core/src/graph/expand.rs:256-333 | every emission comes from a descent through calls as written (registered, local, none open already, not too deep, an existing instance), and its row is the resource behind one `module.<name><index>.` per call, attributes, `count` and `for_each` substituted call by call, the provider of the innermost call that maps it, everything else unchanged |
| `Descents.DescentIsEmitted` | crates/core/src/graph/expand.rs:256-333 | and every resource at the end of a descent is emitted |
| `Descents.OutputInOrder` | crates/core/src/graph/expand.rs:296-310 | the output is exactly the rows that were not dropped, in order; the diagnostics are the notes and one TF1507 per dropped row, in order |
| `Descents.NotedExactly` | crates/core/src/graph/expand.rs:150-243 | a code is noted exactly when some call at the end of a descent is too deep (TF1501), unresolved (TF1502), open already (TF1504), not registered (TF1503) or over the cap (TF1505), tried in this order |
| `Unfolding.InstanceLimit` | crates/core/src/graph/expand.rs:382-491 | a call has at most max(1, cap) instances |
| `Builder.CountConserves` | crates/core/src/graph/expand.rs:759-793 | a literal count n within the cap: rows plus TF1507 equal n, addresses pairwise distinct |
| `Builder.ForEachConserves` | crates/core/src/graph/expand.rs:795-865 | a literal map or list within the cap: rows plus TF1507 equal the number of keys or string items; addresses are distinct exactly when the keys whose address validates differ after escaping |
| `Indices.CountRows` | crates/core/src/graph/expand.rs:759-793 | a literal count n within the cap: copies numbered 0 to n - 1 in order, those left out whose address does not validate, only `count`, `for_each` and the address changed |
| `Indices.ForEachRows` | crates/core/src/graph/expand.rs:795-865 | a literal map or list within the cap: one such copy per key or string, in order, under that key |
| `Indices.OtherRows` | crates/core/src/graph/expand.rs:735-865 | no row for a count that is not positive; otherwise the resource itself, with a TF1505 for a literal beyond the cap |
| `Builder.CallInstancesDistinct` | crates/core/src/graph/expand.rs:382-491 | instance indices are pairwise distinct exactly unless two `for_each` keys escape to the same text |
| `Builder.QuoteInKeyCollides` | crates/core/src/graph/expand.rs:496-505 | the keys `a` and `a"` do |
| `Builder.ReExpansionIsIdentity` | crates/core/src/graph/expand.rs:745-757 | expanding an expanded row again gives that row |
| `Builder.ExpandCombined` | crates/core/src/graph/builder.rs:121-133 | both resource lists are expanded in order into one list |
| `Indices.OwnRowsFirst` | crates/core/src/graph/builder.rs:121-133 | the component's own resources come first, then the flattened ones, each expanded in turn |
| `Builder.Deduplicate` | crates/core/src/graph/builder.rs:141-154 | the loop keeps the first occurrence of every address and reports each other row |
| `Builder.FirstOccurrencesExact` | crates/core/src/graph/builder.rs:141-154 | the kept positions increase and are exactly those whose address is new |
| `Builder.BuildComponent` | crates/core/src/graph/builder.rs:105-154 | flattening, expansion and de-duplication of one component in sequence |
| `Builder.BuiltIsCanonical` | crates/core/src/graph/builder.rs:121-154 | addresses distinct, first occurrences in order, no address lost, kept rows plus the TF1506 among the component's diagnostics equal the combined length |
| `References.CountUnresolved` | crates/core/src/exporter/secondary.rs:311-348 | the threaded counter grows by the number of unresolved leaves and saturates at the `u64` maximum |
| `References.ResolvedMeansNoSymbols` | crates/core/src/ir/expression.rs:261-286 | fully resolved if and only if the unresolved count is zero, if and only if no symbol occurs |
| `References.ReduceAddsNothing` | crates/core/src/eval/reduce.rs:117-335 | reduction mentions no new symbol and has no larger unresolved count |
| `Edges.ReferencePointsAtHead` | crates/core/src/graph/edges.rs:304-328 | a resource, data source or module and whatever is read of it point at its two-part, three-part or module address; a single part points nowhere |
| `Edges.Collector.PushEdge` | crates/core/src/graph/edges.rs:181-190 | an edge is appended exactly when its key is new |
| `Edges.Collector.EmitSymbolEdge` | crates/core/src/graph/edges.rs:261-293 | only resource, data and module symbols with a valid head address make an edge |
| `Edges.Collector.WalkExpression` | crates/core/src/graph/edges.rs:199-259 | pushes the expression's edges in walk order and leaves the shared path as it was |
| `Edges.Collector.CollectResource` | crates/core/src/graph/edges.rs:64-89 | explicit edges first, then attribute references |
| `Edges.Collector.CollectTerragrunt` | crates/core/src/graph/edges.rs:110-144 | one edge per dependency whose address validates, none when the component's own does not |
| `Edges.CollectEdges` | crates/core/src/graph/edges.rs:29-62 | existing edges kept, new keys appended in walk order, then stably sorted |
| `Edges.WalkKeys` | crates/core/src/graph/edges.rs:199-293 | the edge keys of an expression are exactly those of its symbols |
| `Edges.CollectionIsExact` | crates/core/src/graph/edges.rs:29-144 | from no edges, the keys are exactly the declared ones, without duplicates and sorted by (from, to, kind) |
| `EdgeSources.CollectedKeys` | crates/core/src/graph/edges.rs:29-144 | the keys after collection are the existing ones and those declared: a `depends_on` target, a `Resource`, `Data` or `Module` symbol inside an attribute or an input whose two-part, three-part or module address validates, or a Terragrunt dependency below the workspace root; no other symbol makes an edge |
| `EdgeSources.ReferenceMakesEdge` | crates/core/src/graph/edges.rs:261-293 | so a reference to a resource, data source or module in an attribute has its edge |
| `EdgeSources.CollectedEdges` | crates/core/src/graph/edges.rs:199-298 | the attribute of a collected edge is the dotted path of attribute and literal object keys under which such a reference is written |
| `EdgeSources.EdgesInOrder` | crates/core/src/graph/edges.rs:53-60 | the edges are ordered by source, target and name of the kind |
| `Edges.CollectionIsIdempotent` | crates/core/src/graph/edges.rs:29-62 | collecting again changes nothing, whatever edges were there first |
| `Edges.FirstReferenceWins` | crates/core/src/graph/edges.rs:181-190 | the first reference with a key gives the edge its attribute |
| `Edges.ReductionAddsNoEdge` | crates/core/src/graph/edges.rs:199-293 | the edge keys of a reduced expression are among the original's |
| `Sorting.SortBySorts` | crates/core/src/graph/edges.rs:53-60 | the sort returns a sorted permutation |
| `Sorting.SortIsStable` | crates/core/src/graph/edges.rs:53-60 | elements of equal key keep their order |
| `Sorting.StringOrder` | crates/core/src/graph/edges.rs:53-60 | one string precedes another exactly when it ends before they differ or holds the smaller character where they first do |
| `Json.RoundTrip` | crates/core/src/exporter/json.rs:50-224 | a reader following sections 2 to 7 of RFC 8259 consumes a rendered tree completely and returns it |
| `Json.EscapedReads` | crates/core/src/exporter/json.rs:206-224 | reading an escaped string gives the string back, control characters included |
| `Json.RenderInjective` | crates/core/src/exporter/json.rs:50-224 | different trees have different texts |
| `Canonical.ExpressionIsOneText` | crates/core/src/exporter/json.rs:50-153 | every expression prints as one well-formed JSON text whose objects are sorted at every level, sentinels included |
| `Canonical.AttributesAreOneText` | crates/core/src/exporter/json.rs:26-39 | so does every attribute map |
| `Canonical.DecIsNumber` | crates/core/src/exporter/json.rs:159-162 | every integer prints as a number of the JSON grammar |
| `Readback.PrintedValueReadsBack` | crates/core/src/exporter/json.rs:155-204 | reading a printed float-free value gives the value with its keys sorted at every level |
| `Readback.TextIsCanonical` | crates/core/src/exporter/json.rs:155-204 | two float-free values without repeated keys print alike if and only if they differ only in the order of map entries |
| `Readback.AttributeOrderIsInvisible` | crates/core/src/exporter/json.rs:26-39 | permuting attributes does not change the text |
| `Sentinels.SentinelsPrintAlike` | crates/core/src/exporter/json.rs:50-153 | two expressions printed as sentinels print alike if and only if they have the same constructor and data and their printed parts print alike |
| `Sentinels.ForTextOmitsKeyAndFilter` | crates/core/src/exporter/json.rs:138-153 | two `for`s print alike if and only if binders and form agree and collection and body print alike |
| `Sentinels.KeyAndFilterAreLost` | crates/core/src/exporter/json.rs:138-153 | so replacing the key and the filter leaves the text unchanged |
| `Sentinels.ReferenceIsRecognised` | crates/core/src/exporter/json.rs:97-103 | an expression prints as a given reference if and only if it is that reference or a literal map that spells out its sentinel |
| `Sentinels.LiteralPassesForReference` | crates/core/src/exporter/json.rs:97-103 | such a map, entries in either order, prints the very text of the reference |
| `Sentinels.ObjectKeyIsQuotedTwice` | crates/core/src/exporter/json.rs:117-136 | reading an object back gives its fields, a literal key carrying an extra pair of quotes, never as written |
| `Sentinels.ObjectFieldsRead` | crates/core/src/exporter/json.rs:117-136 | one member per field, under the text of its key expression, sorted |
| `Sentinels.OperatorsRead` | crates/core/src/exporter/json.rs:61-77 | an operator reads back under its name with its operands in place |
| `Sentinels.BranchesRead` | crates/core/src/exporter/json.rs:83-92 | a conditional reads back with each branch under its own name |
| `Sentinels.ForReads` | crates/core/src/exporter/json.rs:138-153 | a `for` reads back as its binders, collection, form and body |
| `Sentinels.ListsRead` | crates/core/src/exporter/json.rs:50-114 | arrays, templates and calls read back with their parts in order |
| `Sentinels.ReferenceReads` | crates/core/src/exporter/json.rs:97-103 | a reference reads back as its kind and source |
| `Sentinels.AttributesRead` | crates/core/src/exporter/json.rs:26-39 | an attribute map reads back as one member per attribute, sorted |
| `Sentinels.FloatsRead` | crates/core/src/exporter/json.rs:163-175 | a float reads back as the number written for it, or as null |
| `Printers.Printer.WriteJsonString` | crates/core/src/exporter/json.rs:206-224 | appends the quoted, escaped string to the buffer |
| `Printers.Printer.WriteValue` | crates/core/src/exporter/json.rs:155-204 | appends exactly the text of the value's tree |
| `Printers.Printer.WriteMap` | crates/core/src/exporter/json.rs:182-202 | sorts the entries and appends the object |
| `Printers.Printer.WriteExpression` | crates/core/src/exporter/json.rs:50-95 | appends exactly the text of the expression's tree |
| `Printers.Printer.WriteUnresolved` | crates/core/src/exporter/json.rs:97-103 | appends the two-key sentinel |
| `Printers.Printer.WriteExpressionList` | crates/core/src/exporter/json.rs:105-114 | appends the array |
| `Printers.Printer.WriteObject` | crates/core/src/exporter/json.rs:117-136 | sorts index-and-text pairs and appends each field's key text with its own value |
| `Printers.Printer.KeyText` | crates/core/src/exporter/json.rs:243-247 | the key expression's text, leaving the shared buffer alone |
| `Printers.Printer.WriteFor` | crates/core/src/exporter/json.rs:138-153 | appends binders, collection, form and body |
| `Printers.Printer.RenderAttributeMap` | crates/core/src/exporter/json.rs:26-39 | appends the sorted attribute object to whatever the buffer holds |
| `Printers.AttributeMapToString` | crates/core/src/exporter/json.rs:44-48 | the same text in a fresh string |
| `Printers.StringText` | crates/core/src/exporter/json.rs:206-224 | a string's text grows by each character: short escapes where there are any, lower-case hexadecimal for other control characters |
| `Printers.CompactText` | crates/core/src/exporter/json.rs:26-224 | nothing but commas and colons stands between the parts |
| `Merges.MergeShallow` | crates/core/src/terragrunt/merge.rs:68-78 | the loop is the entry-by-entry merge with the child winning |
| `Merges.MergeDeepMapOnly` | crates/core/src/terragrunt/merge.rs:80-99 | maps merge recursively, everything else is the child's |
| `Merges.MergeDeep` | crates/core/src/terragrunt/merge.rs:101-124 | maps merge and lists concatenate, parent first |
| `Merges.MergeLocals` | crates/core/src/terragrunt/merge.rs:55-66 | the strategy picks the merge; `no_merge` returns the child |
| `Merges.MergedKeys` | crates/core/src/terragrunt/merge.rs:68-124 | the parent's keys keep their places and the child's new keys follow in order |
| `Merges.MergedLookup` | crates/core/src/terragrunt/merge.rs:68-124 | looking up a key in a merge combines the two lookups |
| `Merges.MergedValue` | crates/core/src/terragrunt/merge.rs:68-124 | what a key holds: the only value, two maps merged (not under `shallow`), the parent's items before the child's (under `deep`), otherwise the child's value |
| `Merges.MergedLists` | crates/core/src/terragrunt/merge.rs:101-124 | at any depth `deep` puts the parent's list before the child's, and the map-only merge keeps the child's |
| `Merges.MergeIsChild` | crates/core/src/terragrunt/merge.rs:68-124 | a merge returns the child exactly when the parent's keys open the child's and no parent value would show |
| `Merges.MergeAssociative` | crates/core/src/terragrunt/merge.rs:68-124 | grouping does not matter exactly when no common key holds a map (under `deep`, also a list) outside and something else between, unless the outer value leaves no trace |
| `Merges.ShallowAssociative` | crates/core/src/terragrunt/merge.rs:68-78 | shallow merging is associative |
| `Merges.DeepMergeIsNotAssociative` | crates/core/src/terragrunt/merge.rs:80-124 | a scalar between two maps separates the two groupings |
| `Merges.MergeAgain` | crates/core/src/terragrunt/merge.rs:68-124 | merging the same child again changes nothing for shallow and map-only, and for `deep` exactly when the child holds no non-empty list |
| `Merges.RepeatedListGrows` | crates/core/src/terragrunt/merge.rs:101-124 | a child that sets a list under `deep` appends it once more at every repetition |
| `Merges.DescendIntoMerge` | crates/core/src/terragrunt/merge.rs:80-124 | a path into a deep merge reads the parent where the child is silent, nothing where a child scalar cuts it, the combined ends otherwise |
| `Merges.ChildLeafWins` | crates/core/src/terragrunt/merge.rs:80-99 | a path the child ends in a non-map reads the child |
| `Batching.RowBuilders.AppendRow` | crates/core/src/exporter/writer.rs:443-474 | appends one row and adds to both counters |
| `Batching.RowBuilders.FlushBatch` | crates/core/src/exporter/writer.rs:476-507 | hands over the pending rows and resets both counters |
| `Batching.RowBuilders.EmitRow` | crates/core/src/exporter/writer.rs:776-784 | one more row is emitted, written batches stay full and pending rows stay under both thresholds |
| `Batching.RowBuilders.EmitComponentRows` | crates/core/src/exporter/writer.rs:697-787 | the component's rows are emitted in (module path, address) order |
| `Batching.RowBuilders.WriteTable` | crates/core/src/exporter/writer.rs:634-657 | the written batches concatenate to exactly the emitted sequence, only the last may be under both thresholds, and the row total is its length |
| `Batching.BatchSize` | crates/core/src/exporter/writer.rs:780-784 | every batch has between one and max(1, `row_group_rows`) rows |
| `Batching.BatchesUnique` | crates/core/src/exporter/writer.rs:776-784 | the rows and the thresholds determine the batches |
| `Batching.TableIsSorted` | crates/core/src/exporter/writer.rs:635-641 | with distinct component paths the table is sorted by component, module path and address |
| `Batching.TableConservesRows` | crates/core/src/exporter/writer.rs:635-787 | the table holds exactly the collected rows |
| `ProfileChain.ResolveProfile` | crates/core/src/provider/profile_map.rs:289-366 | fails exactly when none of chain positions 0 to 8 ends the walk; otherwise the first that does decides; at most nine distinct profiles are visited, in chain order |
| `ProfileChain.OnlyTheLastHopDecides` | crates/core/src/provider/profile_map.rs:300-351 | failure depends on position 8 alone, so the visited list has no say |
| `ProfileChain.LoopNeverStops` | crates/core/src/provider/profile_map.rs:301-306 | a chain that returns to an earlier profile never ends |
| `ProfileChain.RegionIsEarliest` | crates/core/src/provider/profile_map.rs:314-319 | the region is that of the earliest profile with a valid one |
| `ProfileChain.RoleIsEarliest` | crates/core/src/provider/profile_map.rs:320-324 | the role is that of the earliest profile that has one |
| `ProfileChain.ExtractAccountId` | crates/core/src/provider/resolver.rs:354-358 | an extracted account is twelve digits |

## Left out

- Floating point: a float is an opaque bit pattern and the IEEE operations, `ryu` and the float comparisons are parameters; the theorems hold for every choice of them, the JSON ones for every `ryu` that prints JSON numbers.
- Readback.PrintedValueReadsBack: for float-free values, because non-finite floats print as `null` and digits of finite ones are `ryu`'s.
- Reducer.EvalBinary: integer `%` of the smallest `i64` by -1 overflows in the program; the model gives no value there.
- Locals.Sweep: a NaN makes the program's progress test report progress falsely; that is a nondeterministic flag here, and the results do not depend on it.
- Locals.SolveLocals: the results (not the cycle verdict) are promised for distinct, non-empty local names, which the language requires of a `locals` block; a name the scope already binds keeps its earlier binding for every reference, as first-match lookup has it.
- Locals.EvalReadsRefs: the two environments must also agree on the empty name, which the collector skips and the evaluator reads; `Locals.EmptyNameIsRead` shows why.
- Locals.ParticipantsAreOneCycle: for distinct names whose addresses validate; a name whose address does not validate is dropped from the error, as `Locals.NameParticipants` says.
- Stability.EveryOrderReportsOneCycle: graphs whose cycles lie in several components, where different orders may report different ones or, by chance, the same.
- Tarjan.FirstCycle: the index counters are unbounded, where the program's are `u32`.
- Substitution.SubstMeaning: bound variables occur as roots only, and no input lands under a `for` of the expression that binds one of the input's free names; both conditions have a counterexample beside them.
- Depth-first expansion leaves a nested call's own `count` and `for_each` and a resource's `depends_on` unsubstituted, as the program does; nothing is claimed about evaluating them.
- Variable defaults: module bodies are reduced with defaults before call inputs arrive, so nothing is claimed about call inputs overriding defaults end to end.
- Path joining and canonicalisation: `Expand.Repo.resolve` is an uninterpreted partial function; path normalisation in edges works on components.
- Functions callable from expressions: a fixed partial function from name and argument values to a value.
- Source spans, address hints and the text of diagnostics; only codes and their number and order are kept.
- Lengths are counted in characters, not UTF-8 bytes, in addresses, regions and row sizes; addresses, regions and account numbers that validate are ASCII.
- Parsing HCL into expressions, the loader, the file system, Parquet and Arrow encoding, failing writes, manifests, the command line.
- The `*_row` constructors of the row table: a row is its sort key and its other cells. Components are sorted by the path that is also written.
- The component sort and the carried-over fields at the end of the graph build: they add no rows.
- Reading section headers of profile files, the YAML profile map and the profile lookup of the provider resolver; readable branch by branch.
- Merge-strategy names and the unknown-name fallback.
