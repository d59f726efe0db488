# easy-scheduler core, modelled in Dafny

easy-scheduler runs a directed acyclic graph (a DAG) of named nodes against a per-run context. Each node carries a handler: a guard (`when`) and an action. A node runs once all its predecessors have finished. This project models the core of the scheduler and proves properties of that model. The model covers:

- **Graph compilation.** `DagGraphBuilder` checks a node table and compiles it into a `DefaultDagGraph`. It adds the synthetic `#START_NODE` and `#END_NODE`, stores a dependency-type code on every edge, and keeps each node's in-degree.
- **Nodes and handlers.** `DefaultDagNode` and `DefaultNodeHandler` are modelled with their builders. The node and handler null checks are included.
- **The run context.** `DagContext`'s default methods are modelled over the `ConcurrentDagContext` store.
- **Node invocation.** `RawDagNodeInvoker` is modelled together with the filter chain that `ConcurrentDagEngine.registerFilter` builds around it.
- **One run of `ConcurrentDagEngine`.** Its inner `DagExecutor` is a transition system. Each step is atomic: `start`; the supplier's state check, and later its invocation; the node timer's test, and later its write; the completion callback, which reads the node's result record once; and the end of the caller's latch wait. The supplier, the timer and the context share each node's result record, as in the source. The source's callback reads that record twice, once to store it and once to choose the next nodes; the model's single read is a simplification, and the STRONG-edge guarantee below is a property of this atomic-callback model (see "Left out"). The environment picks the interleaving, what user code answers and what the clock reads. An invariant is proved to hold for every step.
- **One run of `SingleThreadDagEngine`.** This engine is deterministic, so it is a recursive function.
- **The reader side.**
  - `DefinitionValidator` checks graph and node definitions.
  - `AbstractGraphFactory` keeps a handler registry, folds the condition predicates and the original handler into one guard (`createWhen`), and turns node definitions into nodes and a definition into a graph.

User code is never executed. Guards, actions and filters are named by identifiers, and a `UserCode` or `FilterCode` value supplies their answers (a value, `false`, or an exception). Java `null` is `Option.None`. A thrown exception is `Result.Err` carrying the exception class.

Module layout: `Wrappers`, `DependencyTypes`, `States`, `Values`, `Contexts`, `Handlers`, `Nodes`, `Digraphs` (the edge set and the acyclicity check), `DagGraphs`, `GraphBuilders`, `Invokers`, `ConcurrentEngine`, `EngineProperties`, `SingleThreadEngine`, `DefinitionValidation`, `GraphFactories`.

Where this revision of the code disagrees with its own documentation, the model follows the code:

- **Filter order.** `registerFilter` sorts filters by ascending order and wraps each one around the previous invoker. The filter with the HIGHEST order is therefore the outermost.
- **Timeout tests.** Both timeout tests are strict: a run whose timeout equals the elapsed time is not timed out.
- **Successor types.** `ConcurrentDagEngine` asks the graph for `getSuccessorNodeTypes`, which `DefaultDagGraph` does not implement. The model decodes the type of each outgoing edge from the code the builder stored on it.
- **`SingleThreadDagEngine` names.** It uses a `DagState.SUCCESS` constant and one-argument `evaluate`/`execute` calls that no longer exist. They are modelled as `SUCCEED` and as the two-argument handler methods.
- **`AbstractGraphFactory.createWhen`.** It wraps the registered handler's one-argument `evaluate`. The model gives that delegate the node being tested.

## Model

| member | source | states |
|---|---|---|
| DependencyTypes.CodeOf | easy-scheduler-core/src/main/java/org/gloryjie/scheduler/api/DependencyType.java:19-26 | the constant found has the requested code; the result is null exactly when the value is not 1, 2 or 3 |
| DependencyTypes.CodeInjective | easy-scheduler-core/src/main/java/org/gloryjie/scheduler/api/DependencyType.java:8-16 | two constants share a code only if they are the same constant |
| DependencyTypes.CodeOfRoundTrip | easy-scheduler-core/src/main/java/org/gloryjie/scheduler/api/DependencyType.java:19-26 | decoding the code of any constant gives that constant back |
| States.IsDoneState | easy-scheduler-core/src/main/java/org/gloryjie/scheduler/api/DagState.java:33-39 | a graph state is done exactly when it is neither WAITING nor RUNNING |
| States.DagResult.IsDone | easy-scheduler-core/src/main/java/org/gloryjie/scheduler/api/DagResult.java:38-40 | a result is done exactly when its state is neither WAITING nor RUNNING |
| States.IsTerminalNode | easy-scheduler-core/src/main/java/org/gloryjie/scheduler/core/ConcurrentDagEngine.java:97-98 | a node state is final exactly when it is neither WAITING nor RUNNING, the two states the node timer still overwrites |
| Contexts.NewContext | easy-scheduler-core/src/main/java/org/gloryjie/scheduler/core/ConcurrentDagContext.java:14-18 | a new context returns the caller's object (null when none was given) and holds no other key |
| Contexts.Put | easy-scheduler-core/src/main/java/org/gloryjie/scheduler/core/ConcurrentDagContext.java:20-25 | a null key or null value is rejected with its message; otherwise the key then reads the value, the old value is returned, and every other key is unchanged |
| Contexts.Lookup | easy-scheduler-core/src/main/java/org/gloryjie/scheduler/core/ConcurrentDagContext.java:27-30 | a null key throws a messageless null-pointer exception; otherwise the value stored under the key, or null when there is none |
| Contexts.Remove | easy-scheduler-core/src/main/java/org/gloryjie/scheduler/core/ConcurrentDagContext.java:32-35 | a null key throws a messageless null-pointer exception; otherwise returns the removed value, the key is then absent and every other key is unchanged |
| Contexts.AsMap | easy-scheduler-core/src/main/java/org/gloryjie/scheduler/core/ConcurrentDagContext.java:37-40 | the snapshot answers every key exactly as `get` does |
| Contexts.GetNodeResult | easy-scheduler-core/src/main/java/org/gloryjie/scheduler/api/DagContext.java:21-24 | null when nothing is stored for the node; a stored result is returned as stored; the cast fails exactly when a non-result value sits under the key |
| Contexts.PutNodeResult | easy-scheduler-core/src/main/java/org/gloryjie/scheduler/api/DagContext.java:32-36 | a null name or null result is rejected; otherwise the result reads back, and the caller's object and every other node's result are unchanged |
| Contexts.NodeResultKeyNotUserContext | easy-scheduler-core/src/main/java/org/gloryjie/scheduler/api/DagContext.java:11-13 | no node-result key collides with the user-context key |
| Contexts.NodeResultKeyInjective | easy-scheduler-core/src/main/java/org/gloryjie/scheduler/api/DagContext.java:21-36 | distinct node names get distinct result keys |
| Contexts.NodeResultRoundTrip | easy-scheduler-core/src/main/java/org/gloryjie/scheduler/api/DagContext.java:21-36 | storing a node result and reading it back gives the same result, in every context |
| Contexts.PutThenRemove | easy-scheduler-core/src/main/java/org/gloryjie/scheduler/core/ConcurrentDagContext.java:20-35 | putting a fresh key and removing it again returns the value put, restores the context, and `get` then reads null |
| Nodes.NewNode | easy-scheduler-core/src/main/java/org/gloryjie/scheduler/core/DefaultDagNode.java:24-32 | a null name is rejected; a null dependency map means no dependencies; every other argument is kept and the node starts without attributes |
| Nodes.AddDependency | easy-scheduler-core/src/main/java/org/gloryjie/scheduler/core/DefaultDagNode.java:45-50 | nulls are rejected; the named dependency gets the given type; no other dependency or field changes |
| Nodes.AddStrongDependency | easy-scheduler-core/src/main/java/org/gloryjie/scheduler/api/DagNode.java:32-34 | the one-argument form records the dependency as STRONG |
| Nodes.RemoveDependency | easy-scheduler-core/src/main/java/org/gloryjie/scheduler/core/DefaultDagNode.java:52-56 | a null name is rejected; only that dependency disappears |
| Nodes.AddThenRemove | easy-scheduler-core/src/main/java/org/gloryjie/scheduler/core/DefaultDagNode.java:45-56 | adding an absent dependency and then removing it gives the node back |
| Nodes.DependNodeNames | easy-scheduler-core/src/main/java/org/gloryjie/scheduler/core/DefaultDagNode.java:58-62 | the name set is exactly the key set of the dependency map |
| Nodes.DependNodeTypeMap | easy-scheduler-core/src/main/java/org/gloryjie/scheduler/core/DefaultDagNode.java:64-67 | the copy is keyed by exactly the names `dependNodeNames` reports, each giving the type recorded for it |
| Nodes.NodeTimeout | easy-scheduler-core/src/main/java/org/gloryjie/scheduler/core/DefaultDagNode.java:88-91 | a positive own timeout wins; otherwise the handler's timeout is used, and a node without a handler throws |
| Values.GetAttribute | easy-scheduler-core/src/main/java/org/gloryjie/scheduler/core/DefaultDagNode.java:69-73 | a null key is rejected; otherwise the stored value is returned, or null when there is none; `DefaultDagGraph.java:85-102` repeats these three methods |
| Values.SetAttribute | easy-scheduler-core/src/main/java/org/gloryjie/scheduler/core/DefaultDagNode.java:75-80 | nulls are rejected; the key then reads back the value, and every other key reads as before |
| Values.RemoveAttribute | easy-scheduler-core/src/main/java/org/gloryjie/scheduler/core/DefaultDagNode.java:82-86 | a null key is rejected; the key then reads null and every other key reads as before |
| Nodes.DependOnType | easy-scheduler-core/src/main/java/org/gloryjie/scheduler/core/DefaultDagNode.java:127-132 | every listed name gets the type, unlisted names keep theirs, and the key set grows by exactly the listed names |
| Nodes.DependOn | easy-scheduler-core/src/main/java/org/gloryjie/scheduler/core/DefaultDagNode.java:120-125 | every listed name is recorded as STRONG and the key set grows by exactly those names |
| Nodes.LastDependOnWins | easy-scheduler-core/src/main/java/org/gloryjie/scheduler/core/DefaultDagNode.java:127-132 | when two calls name the same dependency, the later type wins |
| Nodes.WithAttribute | easy-scheduler-core/src/main/java/org/gloryjie/scheduler/core/DefaultDagNode.java:139-142 | the key then holds the value, null included; every other entry and every other builder field is kept |
| Nodes.BuildNode | easy-scheduler-core/src/main/java/org/gloryjie/scheduler/core/DefaultDagNode.java:144-148 | a null name or a null attribute value is rejected; otherwise the node has the builder's name, handler, dependencies, timeout and attributes |
| Nodes.AttributeReachesNode | easy-scheduler-core/src/main/java/org/gloryjie/scheduler/core/DefaultDagNode.java:139-148 | a null attribute value is accepted by the builder and then makes the build throw; a non-null value reaches the built node under its key |
| DagGraphs.NewDagGraph | easy-scheduler-core/src/main/java/org/gloryjie/scheduler/core/DefaultDagGraph.java:29-43 | a null name, or a table missing the start or the end node, is rejected; otherwise each in-degree is that node's number of predecessors in the edge set |
| DagGraphs.GetNode | easy-scheduler-core/src/main/java/org/gloryjie/scheduler/core/DefaultDagGraph.java:56-59 | returns the node exactly when the name is in the table, and null otherwise |
| DagGraphs.GetStartNode | easy-scheduler-core/src/main/java/org/gloryjie/scheduler/core/DefaultDagGraph.java:66-69 | the start node exactly when the table holds its reserved name, and null otherwise |
| DagGraphs.GetEndNode | easy-scheduler-core/src/main/java/org/gloryjie/scheduler/core/DefaultDagGraph.java:61-64 | the end node exactly when the table holds its reserved name, and null otherwise |
| DagGraphs.GetNodeInDegree | easy-scheduler-core/src/main/java/org/gloryjie/scheduler/core/DefaultDagGraph.java:71-74 | in a graph whose tables agree, one entry per node of the edge set, giving its number of predecessors |
| DagGraphs.SuccessorNames | easy-scheduler-core/src/main/java/org/gloryjie/scheduler/core/DefaultDagGraph.java:76-83 | for a node of the graph, the successors are exactly the targets of its outgoing edges |
| DagGraphs.GetSuccessorNodes | easy-scheduler-core/src/main/java/org/gloryjie/scheduler/core/DefaultDagGraph.java:76-83 | a name that is not a node of the edge set is rejected with Guava's "is not an element of this graph" exception; otherwise every successor name is looked up in the table, and nothing else is returned |
| DagGraphs.SuccessorsIgnoreNodeDependencies | easy-scheduler-core/src/main/java/org/gloryjie/scheduler/core/DefaultDagGraph.java:76-83 | changing a node's dependency map after the build leaves every successor set unchanged |
| DagGraphs.SuccessorTypes | easy-scheduler-core/src/main/java/org/gloryjie/scheduler/core/ConcurrentDagEngine.java:231-234 | one entry per successor, giving the type decoded from that edge's stored code |
| DagGraphs.HasStrongSuccessor | easy-scheduler-core/src/main/java/org/gloryjie/scheduler/core/ConcurrentDagEngine.java:231-234 | true exactly when some outgoing edge carries the STRONG code |
| DagGraphs.Timeout | easy-scheduler-core/src/main/java/org/gloryjie/scheduler/api/DagGraph.java:69-71 | the graph reports no timeout, because `DefaultDagGraph` keeps the interface default |
| Digraphs.AcyclicIffNoCycle | easy-scheduler-core/src/main/java/org/gloryjie/scheduler/core/DagGraphBuilder.java:215-220 | the peeling check passes exactly when the graph has no cycle |
| Digraphs.AcyclicHasNoCycle | easy-scheduler-core/src/main/java/org/gloryjie/scheduler/core/DagGraphBuilder.java:215-220 | a graph that passes the check has no cycle |
| Digraphs.FailedPeelHasCycle | easy-scheduler-core/src/main/java/org/gloryjie/scheduler/core/DagGraphBuilder.java:215-220 | a failing check comes with a cycle among the nodes checked |
| Digraphs.AcyclicHasSourceAndSink | easy-scheduler-core/src/main/java/org/gloryjie/scheduler/core/DagGraphBuilder.java:137-175 | a non-empty acyclic graph has a node without predecessors and one without successors, so neither "must not be empty" error can occur |
| Digraphs.FindLeaves | easy-scheduler-core/src/main/java/org/gloryjie/scheduler/core/DagGraphBuilder.java:199-213 | the leaves found are exactly the successor-less nodes reachable from the root |
| GraphBuilders.AddNode | easy-scheduler-core/src/main/java/org/gloryjie/scheduler/core/DagGraphBuilder.java:63-71 | a null node and a duplicate name are rejected with the source's exceptions; otherwise the table grows by exactly that entry |
| GraphBuilders.AddNodes | easy-scheduler-core/src/main/java/org/gloryjie/scheduler/core/DagGraphBuilder.java:56-60 | a null array is rejected; otherwise the nodes are added one by one |
| GraphBuilders.AddNodeList | easy-scheduler-core/src/main/java/org/gloryjie/scheduler/core/DagGraphBuilder.java:56-71 | succeeds exactly when all nodes are non-null, new and pairwise distinct by name; the table then holds each of them and keeps its old entries |
| GraphBuilders.UserGraph | easy-scheduler-core/src/main/java/org/gloryjie/scheduler/core/DagGraphBuilder.java:105-126 | one edge from every dependency to its dependent, weighted with the type's code |
| GraphBuilders.SentinelNode | easy-scheduler-core/src/main/java/org/gloryjie/scheduler/core/DagGraphBuilder.java:148-161 | a sentinel has no dependencies; it has a handler (named after the sentinel, running the consumer) exactly when a consumer was given |
| GraphBuilders.StartEdges | easy-scheduler-core/src/main/java/org/gloryjie/scheduler/core/DagGraphBuilder.java:166 | an edge of weight 1 from the start node to every source |
| GraphBuilders.EndEdges | easy-scheduler-core/src/main/java/org/gloryjie/scheduler/core/DagGraphBuilder.java:193-195 | an edge of weight 1 from every leaf to the end node |
| GraphBuilders.WithAttribute | easy-scheduler-core/src/main/java/org/gloryjie/scheduler/core/DagGraphBuilder.java:83-86 | the key, null included, then holds the value, null included; every other entry and every other builder field is kept |
| GraphBuilders.CopyAttributes | easy-scheduler-core/src/main/java/org/gloryjie/scheduler/core/DefaultDagGraph.java:91-96 | a null key or a null value is rejected with the NPE of the check that fails, the key's when only the key is null; otherwise every builder attribute is on the graph and nothing else changes |
| GraphBuilders.AttributeReachesGraph | easy-scheduler-core/src/main/java/org/gloryjie/scheduler/core/DagGraphBuilder.java:83-101 | on a builder that builds, one more attribute with a null key or a null value makes `build` throw that NPE, and a non-null pair is on the built graph |
| GraphBuilders.Build | easy-scheduler-core/src/main/java/org/gloryjie/scheduler/core/DagGraphBuilder.java:88-135 | an empty table is rejected first; a table with an unknown dependency, a node depending on itself or a cycle is rejected with an illegal-argument exception of that kind; a built graph is acyclic, keeps the name, timeout and completed table, and counts in-degrees |
| GraphBuilders.CompileGraph | easy-scheduler-core/src/main/java/org/gloryjie/scheduler/core/DagGraphBuilder.java:105-135 | a cycle among the user nodes is reported as "graph has cycle"; a compiled graph is acyclic |
| GraphBuilders.ConnectStartShape | easy-scheduler-core/src/main/java/org/gloryjie/scheduler/core/DagGraphBuilder.java:137-167 | the start node precedes exactly the user sources, has no predecessor, and leaves the user edges untouched |
| GraphBuilders.ReachableFromStart | easy-scheduler-core/src/main/java/org/gloryjie/scheduler/core/DagGraphBuilder.java:137-167 | every user node of an acyclic graph is reachable from the start node |
| GraphBuilders.LeavesAreSinks | easy-scheduler-core/src/main/java/org/gloryjie/scheduler/core/DagGraphBuilder.java:169-213 | the depth-first leaf search from the start node finds exactly the user nodes without successors |
| GraphBuilders.SentinelsKeepAcyclic | easy-scheduler-core/src/main/java/org/gloryjie/scheduler/core/DagGraphBuilder.java:128-135 | connecting the start and end nodes to an acyclic graph keeps it acyclic |
| GraphBuilders.CompileGraphOk | easy-scheduler-core/src/main/java/org/gloryjie/scheduler/core/DagGraphBuilder.java:93-95 | with known dependencies, compilation succeeds exactly when the user graph is acyclic |
| GraphBuilders.BuildSucceedsIff | easy-scheduler-core/src/main/java/org/gloryjie/scheduler/core/DagGraphBuilder.java:88-102 | a build succeeds exactly when the table is non-empty, every dependency is known, no node depends on itself, there is no cycle, and no attribute key or value is null |
| GraphBuilders.BuiltGraphIsCompiled | easy-scheduler-core/src/main/java/org/gloryjie/scheduler/core/DagGraphBuilder.java:88-102 | a successful build's edge set is the compiled graph of its node table |
| GraphBuilders.UserSources | easy-scheduler-core/src/main/java/org/gloryjie/scheduler/core/DagGraphBuilder.java:138-141 | the nodes linked to the start node are exactly those without dependencies |
| GraphBuilders.UserSinks | easy-scheduler-core/src/main/java/org/gloryjie/scheduler/core/DagGraphBuilder.java:169-171 | the nodes linked to the end node are exactly those no other node depends on |
| GraphBuilders.StartNodeEdges | easy-scheduler-core/src/main/java/org/gloryjie/scheduler/core/DagGraphBuilder.java:137-167 | in a built graph, the start node's successors are the dependency-free nodes, on weight-1 edges, and it has no predecessor |
| GraphBuilders.EndNodeEdges | easy-scheduler-core/src/main/java/org/gloryjie/scheduler/core/DagGraphBuilder.java:169-196 | in a built graph, the end node's predecessors are the nodes nothing depends on, on weight-1 edges, and it has no successor |
| GraphBuilders.UserPredecessors | easy-scheduler-core/src/main/java/org/gloryjie/scheduler/core/DagGraphBuilder.java:105-167 | a user node's predecessors are its dependencies, or the start node alone when it has none |
| GraphBuilders.AllReachableFromStart | easy-scheduler-core/src/main/java/org/gloryjie/scheduler/core/DagGraphBuilder.java:128-196 | every node of a built graph, the end node included, is reachable from the start node |
| GraphBuilders.Leaves | easy-scheduler-core/src/main/java/org/gloryjie/scheduler/core/DagGraphBuilder.java:169-171 | a node is a leaf exactly when no node of the table depends on it |
| GraphBuilders.BuiltInDegrees | easy-scheduler-core/src/main/java/org/gloryjie/scheduler/core/DefaultDagGraph.java:40-41 | start 0; end = number of leaves; a user node = number of its dependencies, or 1 without any |
| GraphBuilders.SingleNodeExample | easy-scheduler-core/src/test/java/org/gloryjie/scheduler/core/DagGraphBuilderTest.java:24-53 | one plain node gives in-degrees 0, 1 and 1 for start, node and end |
| GraphBuilders.TwoNodeExample | easy-scheduler-core/src/test/java/org/gloryjie/scheduler/core/DagGraphBuilderTest.java:62-97 | two independent nodes give in-degree 1 each and 2 for the end node |
| GraphBuilders.TwoNodeAdded | easy-scheduler-core/src/test/java/org/gloryjie/scheduler/core/DagGraphBuilderTest.java:72 | adding two differently named nodes puts both in the table |
| GraphBuilders.CycleExample | easy-scheduler-core/src/test/java/org/gloryjie/scheduler/core/DagGraphBuilderTest.java:150-178 | two nodes depending on each other are rejected as a cycle; after one dependency is removed the table is valid |
| GraphBuilders.TwoCycle | easy-scheduler-core/src/test/java/org/gloryjie/scheduler/core/DagGraphBuilderTest.java:150-169 | the two-node cycle has a cycle witness and the build reports "graph has cycle" |
| GraphBuilders.OneEdgeNoCycle | easy-scheduler-core/src/test/java/org/gloryjie/scheduler/core/DagGraphBuilderTest.java:105-119 | a chain of two nodes has no cycle |
| Handlers.NewHandler | easy-scheduler-core/src/main/java/org/gloryjie/scheduler/core/DefaultNodeHandler.java:28-37 | a null name is rejected; every other argument is kept as given |
| Handlers.Evaluate | easy-scheduler-core/src/main/java/org/gloryjie/scheduler/core/DefaultNodeHandler.java:44-47 | a handler without a guard admits every node |
| Handlers.EvaluateIsConjunction | easy-scheduler-core/src/main/java/org/gloryjie/scheduler/core/DefaultNodeHandler.java:44-47 | a guarded handler answers as the left-to-right, short-circuit conjunction of its guard's atoms |
| Handlers.GuardIsConjunction | easy-scheduler-core/src/main/java/org/gloryjie/scheduler/core/DefaultNodeHandler.java:84-91 | a guard built with `and` evaluates as the short-circuit conjunction of its atoms, exceptions included |
| Handlers.ContextGuardIgnoresNode | easy-scheduler-core/src/main/java/org/gloryjie/scheduler/core/DefaultNodeHandler.java:79-82 | a guard made only of context predicates gives the same answer for every node |
| Handlers.RunAction | easy-scheduler-core/src/main/java/org/gloryjie/scheduler/core/DefaultNodeHandler.java:93-101 | a context consumer returns null; a context function ignores the node |
| Handlers.ContextActionIgnoresNode | easy-scheduler-core/src/main/java/org/gloryjie/scheduler/core/DefaultNodeHandler.java:93-96 | an action built from a context function gives the same outcome for every node |
| Handlers.Execute | easy-scheduler-core/src/main/java/org/gloryjie/scheduler/core/DefaultNodeHandler.java:49-51 | a handler without an action throws a null-pointer exception; otherwise it runs its action |
| Handlers.When | easy-scheduler-core/src/main/java/org/gloryjie/scheduler/core/DefaultNodeHandler.java:84-91 | the first guard is kept as is; each later guard is appended to the conjunction; nothing else changes |
| Handlers.WhenNullable | easy-scheduler-core/src/main/java/org/gloryjie/scheduler/core/DefaultNodeHandler.java:84-91 | a null guard leaves a builder without a guard unchanged, and on a builder with one `and` throws a messageless null-pointer exception; a non-null guard is added as `When` adds it |
| Handlers.WhenAll | easy-scheduler-core/src/main/java/org/gloryjie/scheduler/core/DefaultNodeHandler.java:84-91 | after a non-empty list of `when` calls the builder has a guard; the name, action and timeout are kept |
| Handlers.WhenAllConjunction | easy-scheduler-core/src/main/java/org/gloryjie/scheduler/core/DefaultNodeHandler.java:84-91 | several `when` calls build the conjunction of all their guards, in call order |
| Handlers.WhenContext | easy-scheduler-core/src/main/java/org/gloryjie/scheduler/core/DefaultNodeHandler.java:79-82 | the context predicate becomes the last atom of the guard |
| Handlers.WithAction | easy-scheduler-core/src/main/java/org/gloryjie/scheduler/core/DefaultNodeHandler.java:98-101 | the action is set, and the name, guard and timeout are kept |
| Handlers.Build | easy-scheduler-core/src/main/java/org/gloryjie/scheduler/core/DefaultNodeHandler.java:108-110 | the build fails exactly when the name is null; otherwise the handler has the builder's fields |
| Handlers.BuiltHandlerSemantics | easy-scheduler-core/src/main/java/org/gloryjie/scheduler/core/DefaultNodeHandler.java:63-110 | a handler built with a name, guards and an action evaluates the conjunction of the guards and runs the action |
| Invokers.RawInvoke | easy-scheduler-core/src/main/java/org/gloryjie/scheduler/core/ConcurrentDagEngine.java:411-426 | no handler gives null; a throwing or false guard gives the exception or null; a non-null result came from a passing guard and the action |
| Invokers.Sort | easy-scheduler-core/src/main/java/org/gloryjie/scheduler/core/ConcurrentDagEngine.java:63-65 | the sorted filter list is ordered by `order` and is a permutation of the input |
| Invokers.SortStable | easy-scheduler-core/src/main/java/org/gloryjie/scheduler/core/ConcurrentDagEngine.java:65 | filters of equal order keep their registration order |
| Invokers.SortSorted | easy-scheduler-core/src/main/java/org/gloryjie/scheduler/core/ConcurrentDagEngine.java:65 | an already sorted list is left unchanged |
| Invokers.InsertSorted | easy-scheduler-core/src/main/java/org/gloryjie/scheduler/core/ConcurrentDagEngine.java:64-65 | inserting into a sorted list keeps it sorted |
| Invokers.ChainLayers | easy-scheduler-core/src/main/java/org/gloryjie/scheduler/core/ConcurrentDagEngine.java:66-71 | the chain's layers, from the outside in, are the sorted filters in reverse |
| Invokers.RegisterFilter | easy-scheduler-core/src/main/java/org/gloryjie/scheduler/core/ConcurrentDagEngine.java:62-72 | the list stays sorted and gains exactly the new filter, stably; the outermost filter has the highest order |
| Invokers.RegisterKeepsSorted | easy-scheduler-core/src/main/java/org/gloryjie/scheduler/core/ConcurrentDagEngine.java:62-72 | registering into a sorted list is a stable insertion |
| Invokers.PassThroughChain | easy-scheduler-core/src/main/java/org/gloryjie/scheduler/core/ConcurrentDagEngine.java:428-444 | a chain of filters that only call through answers as the raw invoker |
| ConcurrentEngine.Init | easy-scheduler-core/src/main/java/org/gloryjie/scheduler/core/ConcurrentDagEngine.java:182-196 | every node starts WAITING, the counters copy the in-degrees, and the context holds the caller's object |
| ConcurrentEngine.Executed | easy-scheduler-core/src/main/java/org/gloryjie/scheduler/core/ConcurrentDagEngine.java:369-385 | a normal return records the result and SUCCEEDED; an exception records the throwable and FAILED |
| ConcurrentEngine.DagDone | easy-scheduler-core/src/main/java/org/gloryjie/scheduler/core/ConcurrentDagEngine.java:273-282 | the first call that finds the run RUNNING sets its state and throwable; a later call changes neither; every call releases the latch; nothing else changes |
| ConcurrentEngine.Complete | easy-scheduler-core/src/main/java/org/gloryjie/scheduler/core/ConcurrentDagEngine.java:96-106 | a pending future takes the completion offered; a completed future keeps its first completion |
| ConcurrentEngine.Synced | easy-scheduler-core/src/main/java/org/gloryjie/scheduler/core/ConcurrentDagEngine.java:96-102 | a write into a node's shared record shows through the context exactly when the context already stores that record; no other node's result changes |
| ConcurrentEngine.Begin | easy-scheduler-core/src/main/java/org/gloryjie/scheduler/core/ConcurrentDagEngine.java:198-203 | `start` sets the run RUNNING and fires the start node with a fresh task; no other task changes |
| ConcurrentEngine.SupplyStart | easy-scheduler-core/src/main/java/org/gloryjie/scheduler/core/ConcurrentDagEngine.java:344-352 | the supplier goes on to execute exactly when the run is RUNNING and the node WAITING, and then marks the node and its record RUNNING; otherwise its future completes with null |
| ConcurrentEngine.SupplyEnd | easy-scheduler-core/src/main/java/org/gloryjie/scheduler/core/ConcurrentDagEngine.java:353-385 | the record becomes SUCCEEDED with the result or FAILED with the throwable; the future completes with the record unless it already completed; a record the context stores shows the write |
| ConcurrentEngine.TimerCheck | easy-scheduler-core/src/main/java/org/gloryjie/scheduler/core/ConcurrentDagEngine.java:96-98 | the timer goes on exactly when the future is not complete and the record is WAITING or RUNNING; otherwise it is spent; nothing else changes |
| ConcurrentEngine.TimerFires | easy-scheduler-core/src/main/java/org/gloryjie/scheduler/core/ConcurrentDagEngine.java:99-102 | the timer writes TIMEOUT and its exception into the shared record, completes the future unless it already completed, and the context sees the write when it stores the record |
| ConcurrentEngine.CheckTimeout | easy-scheduler-core/src/main/java/org/gloryjie/scheduler/core/ConcurrentDagEngine.java:313-321 | past a positive graph timeout a RUNNING run becomes TIMEOUT with a timeout exception; a run that is not RUNNING keeps its state and throwable; below the timeout nothing changes |
| ConcurrentEngine.WaitingAmong | easy-scheduler-core/src/main/java/org/gloryjie/scheduler/core/ConcurrentDagEngine.java:257-261 | the fan-out touches exactly the WAITING successors |
| ConcurrentEngine.Ready | easy-scheduler-core/src/main/java/org/gloryjie/scheduler/core/ConcurrentDagEngine.java:262-264 | a successor is fired exactly when its counter drops from 1 to 0 |
| ConcurrentEngine.Lowered | easy-scheduler-core/src/main/java/org/gloryjie/scheduler/core/ConcurrentDagEngine.java:262 | each touched counter drops by one and no other counter changes |
| ConcurrentEngine.Fired | easy-scheduler-core/src/main/java/org/gloryjie/scheduler/core/ConcurrentDagEngine.java:264 | each ready node gets a fresh task and older tasks are kept |
| ConcurrentEngine.Decrement | easy-scheduler-core/src/main/java/org/gloryjie/scheduler/core/ConcurrentDagEngine.java:252-271 | the fan-out changes neither the graph, nor the node states, nor the context |
| ConcurrentEngine.FireNext | easy-scheduler-core/src/main/java/org/gloryjie/scheduler/core/ConcurrentDagEngine.java:224-250 | moving to the next nodes changes neither the graph, nor the node states, nor the context |
| ConcurrentEngine.Resolve | easy-scheduler-core/src/main/java/org/gloryjie/scheduler/core/ConcurrentDagEngine.java:295-309 | the record is stored under its node's name and reads back; a record with a state gives the node that state; a record without one leaves the states and fails a RUNNING run; the next nodes are chosen from the same read of the record |
| ConcurrentEngine.Deliver | easy-scheduler-core/src/main/java/org/gloryjie/scheduler/core/ConcurrentDagEngine.java:288-302 | the callback is ignored for a null completion, a run that is not RUNNING or a node that is not RUNNING, and then changes no state, context or run state; otherwise the record as it is now reads back from the context |
| ConcurrentEngine.Next | easy-scheduler-core/src/main/java/org/gloryjie/scheduler/core/ConcurrentDagEngine.java:198-385 | no step changes the graph, the graph timeout or the executor; tasks and fanned-out nodes are never forgotten |
| ConcurrentEngine.View | easy-scheduler-core/src/main/java/org/gloryjie/scheduler/core/ConcurrentDagEngine.java:388-401 | the result reports the run's state, its throwable and one state per node |
| ConcurrentEngine.InitInv | easy-scheduler-core/src/main/java/org/gloryjie/scheduler/core/ConcurrentDagEngine.java:182-196 | a new run over a well-formed graph satisfies the run invariant |
| ConcurrentEngine.BeginInv | easy-scheduler-core/src/main/java/org/gloryjie/scheduler/core/ConcurrentDagEngine.java:198-203 | `start` preserves the invariant |
| ConcurrentEngine.SupplyStartInv | easy-scheduler-core/src/main/java/org/gloryjie/scheduler/core/ConcurrentDagEngine.java:344-352 | the supplier's state check and the RUNNING mark preserve the invariant |
| ConcurrentEngine.SupplyEndInv | easy-scheduler-core/src/main/java/org/gloryjie/scheduler/core/ConcurrentDagEngine.java:353-385 | executing the node and completing its future preserve the invariant |
| ConcurrentEngine.TimerCheckInv | easy-scheduler-core/src/main/java/org/gloryjie/scheduler/core/ConcurrentDagEngine.java:96-98 | the timer's test preserves the invariant |
| ConcurrentEngine.TimerInv | easy-scheduler-core/src/main/java/org/gloryjie/scheduler/core/ConcurrentDagEngine.java:99-102 | the timer's TIMEOUT write into the shared record preserves the invariant |
| ConcurrentEngine.DagDoneInv | easy-scheduler-core/src/main/java/org/gloryjie/scheduler/core/ConcurrentDagEngine.java:273-282 | `dagDone` preserves the invariant; the latch is down exactly when the run is done |
| ConcurrentEngine.FanOutInv | easy-scheduler-core/src/main/java/org/gloryjie/scheduler/core/ConcurrentDagEngine.java:252-271 | decrementing the successors preserves the invariant; a WAITING node's counter is its number of predecessors that have not fanned out |
| ConcurrentEngine.FireNextInv | easy-scheduler-core/src/main/java/org/gloryjie/scheduler/core/ConcurrentDagEngine.java:224-250 | `fireNextNode` from a finished node preserves the invariant |
| ConcurrentEngine.ResolveInv | easy-scheduler-core/src/main/java/org/gloryjie/scheduler/core/ConcurrentDagEngine.java:359-365 | recording a completed result, checking the graph timeout and moving on preserve the invariant |
| ConcurrentEngine.DeliverInv | easy-scheduler-core/src/main/java/org/gloryjie/scheduler/core/ConcurrentDagEngine.java:284-311 | the completion callback preserves the invariant |
| ConcurrentEngine.AwaitInv | easy-scheduler-core/src/main/java/org/gloryjie/scheduler/core/ConcurrentDagEngine.java:205-221 | the caller's wait ending (returned, timed out or interrupted) preserves the invariant |
| ConcurrentEngine.NextInv | easy-scheduler-core/src/main/java/org/gloryjie/scheduler/core/ConcurrentDagEngine.java:198-385 | every step the environment can choose preserves the run invariant, the STRONG-edge conjunct resting on the callback's single read |
| ConcurrentEngine.PositiveCounters | easy-scheduler-core/src/main/java/org/gloryjie/scheduler/core/ConcurrentDagEngine.java:262-268 | before a node fans out, every WAITING successor's counter is at least 1, so the negative-counter failure cannot occur |
| EngineProperties.StartedAfterPredecessors | easy-scheduler-core/src/main/java/org/gloryjie/scheduler/core/ConcurrentDagEngine.java:224-271 | a node leaves WAITING only after every predecessor finished; in the atomic-callback model, a predecessor on a STRONG edge succeeded |
| EngineProperties.DoneIsFinal | easy-scheduler-core/src/main/java/org/gloryjie/scheduler/core/ConcurrentDagEngine.java:273-282 | once the run is done, no step changes its state or its throwable: the first `dagDone` wins |
| EngineProperties.StepProgress | easy-scheduler-core/src/main/java/org/gloryjie/scheduler/core/ConcurrentDagEngine.java:284-385 | node states only move forward, a final state is never overwritten, and a stored result stays stored |
| EngineProperties.LateSupplierRewritesStoredResult | easy-scheduler-core/src/main/java/org/gloryjie/scheduler/core/ConcurrentDagEngine.java:363-385 | a supplier that returns after its node finished (by timing out) leaves the node's state but rewrites the stored result, which is the shared record, to SUCCEEDED or FAILED |
| EngineProperties.LateTimerRewritesStoredResult | easy-scheduler-core/src/main/java/org/gloryjie/scheduler/core/ConcurrentDagEngine.java:96-102 | a timer that passed its test before its node finished rewrites the stored result to TIMEOUT, whatever state the node finished with |
| EngineProperties.ReadyIsNew | easy-scheduler-core/src/main/java/org/gloryjie/scheduler/core/ConcurrentDagEngine.java:262-264 | the fan-out fires only nodes that had never been fired |
| EngineProperties.FanOutOutcome | easy-scheduler-core/src/main/java/org/gloryjie/scheduler/core/ConcurrentDagEngine.java:252-271 | the fan-out lowers each WAITING successor's counter by one, fires exactly those at 1, and keeps the run RUNNING |
| EngineProperties.FireNextOutcome | easy-scheduler-core/src/main/java/org/gloryjie/scheduler/core/ConcurrentDagEngine.java:224-250 | the run FAILS (with the node's throwable) exactly when the node did not succeed and has a STRONG outgoing edge; otherwise it SUCCEEDS exactly at the end node or a node without successors; otherwise it fans out |
| SingleThreadEngine.Init | easy-scheduler-core/src/main/java/org/gloryjie/scheduler/core/SingleThreadDagEngine.java:80-92 | every node WAITING, the counters copy the in-degrees, the run RUNNING |
| SingleThreadEngine.WaitingSet | easy-scheduler-core/src/main/java/org/gloryjie/scheduler/core/SingleThreadDagEngine.java:148-151 | exactly the nodes still WAITING |
| SingleThreadEngine.ExecuteNode | easy-scheduler-core/src/main/java/org/gloryjie/scheduler/core/SingleThreadDagEngine.java:178-199 | SUCCEEDED exactly when the guard passes and the action returns; no state exactly when the guard answers false; FAILED carries a throwable; a missing handler fails as written |
| SingleThreadEngine.CheckTimeout | easy-scheduler-core/src/main/java/org/gloryjie/scheduler/core/SingleThreadDagEngine.java:202-209 | past a positive timeout the run becomes TIMEOUT with a timeout exception; otherwise nothing changes |
| SingleThreadEngine.DecrementAll | easy-scheduler-core/src/main/java/org/gloryjie/scheduler/core/SingleThreadDagEngine.java:163-169 | each counter drops by the number of times its node is listed; an unknown successor throws |
| SingleThreadEngine.Record | easy-scheduler-core/src/main/java/org/gloryjie/scheduler/core/SingleThreadDagEngine.java:108-119 | the node's state, throwable and context entry are set from its result; a result that is not SUCCEEDED fails the run |
| SingleThreadEngine.RecordBlames | easy-scheduler-core/src/main/java/org/gloryjie/scheduler/core/SingleThreadDagEngine.java:108-119 | with the corrected execute, when recording a node's result fails the run, that node has a handler and its state is FAILED or null |
| SingleThreadEngine.FireNode | easy-scheduler-core/src/main/java/org/gloryjie/scheduler/core/SingleThreadDagEngine.java:101-132 | firing a node keeps the run well formed, only moves node states forward, and keeps the failure's cause; a run that the timeout check leaves not RUNNING is returned as the check left it, the node still WAITING; otherwise the node ends with the state its execution gave |
| SingleThreadEngine.FireNext | easy-scheduler-core/src/main/java/org/gloryjie/scheduler/core/SingleThreadDagEngine.java:134-142 | the same, for moving on to the successors; the end node or an empty successor list sets SUCCESS whatever the run state, FAILED included, and changes nothing else; a successor without a counter throws a null-pointer exception; after the run has ended the counters drop but no node fires |
| SingleThreadEngine.FireEach | easy-scheduler-core/src/main/java/org/gloryjie/scheduler/core/SingleThreadDagEngine.java:144-161 | the same, for the loop over the successors; a WAITING successor with a negative counter throws the engine exception "inDegree could not be less than 0", and one without a counter a null-pointer exception |
| SingleThreadEngine.FireEachSkips | easy-scheduler-core/src/main/java/org/gloryjie/scheduler/core/SingleThreadDagEngine.java:148-160 | a successor that is not WAITING, or that is WAITING with a positive counter, is passed over |
| SingleThreadEngine.FireEachFires | easy-scheduler-core/src/main/java/org/gloryjie/scheduler/core/SingleThreadDagEngine.java:148-154 | a WAITING successor at counter 0 is fired, and the loop continues from the state that firing left, or stops with its exception |
| SingleThreadEngine.EndFailureStillSucceeds | easy-scheduler-core/src/main/java/org/gloryjie/scheduler/core/SingleThreadDagEngine.java:101-138 | an end node whose result is not SUCCEEDED is recorded with that state and throwable, and the run still ends SUCCESS |
| SingleThreadEngine.SuccessorsLowered | easy-scheduler-core/src/main/java/org/gloryjie/scheduler/core/SingleThreadDagEngine.java:134-169 | when the successor lists are the graph's, the decrement cannot throw and lowers by one exactly the counters of the node's successors |
| SingleThreadEngine.Fire | easy-scheduler-core/src/main/java/org/gloryjie/scheduler/core/SingleThreadDagEngine.java:20-24 | the result reports a state for every node of the graph |
| SingleThreadEngine.AsWrittenStartFails | easy-scheduler-core/src/main/java/org/gloryjie/scheduler/core/SingleThreadDagEngine.java:178-199 | as written, a start node without a handler fails the whole run with a null-pointer exception before any user node runs |
| SingleThreadEngine.CorrectedStartSucceeds | easy-scheduler-core/src/main/java/org/gloryjie/scheduler/core/SingleThreadDagEngine.java:178-199 | with the corrected execute, a start node without a handler succeeds |
| SingleThreadEngine.CorrectedFailureHasCause | easy-scheduler-core/src/main/java/org/gloryjie/scheduler/core/SingleThreadDagEngine.java:101-132 | with the corrected execute, a FAILED run has a node with a handler whose state is FAILED or null |
| SingleThreadEngine.AnyFailureFailsRun | easy-scheduler-core/src/main/java/org/gloryjie/scheduler/core/SingleThreadDagEngine.java:101-169 | a node that does not succeed fails the run with its throwable, and its successors' counters are still decremented |
| DefinitionValidation.CheckNodeDefinition | easy-scheduler-reader/src/main/java/org/gloryjie/scheduler/reader/DefinitionValidator.java:8-17 | an empty name, then a missing handler and missing actions, are rejected with their messages |
| DefinitionValidation.NodeCheckMeansAcceptable | easy-scheduler-reader/src/main/java/org/gloryjie/scheduler/reader/DefinitionValidator.java:8-17 | the check accepts exactly the definitions with a name and a handler or actions |
| DefinitionValidation.CheckGraphDefinition | easy-scheduler-reader/src/main/java/org/gloryjie/scheduler/reader/DefinitionValidator.java:19-32 | an empty name and then empty nodes are rejected; otherwise the check passes exactly when every node passes, and a failure is the first failing node's error |
| GraphFactories.GetHandler | easy-scheduler-reader/src/main/java/org/gloryjie/scheduler/reader/AbstractGraphFactory.java:198-203 | a null name is rejected; otherwise the registered handler, or null |
| GraphFactories.RegisterHandler | easy-scheduler-reader/src/main/java/org/gloryjie/scheduler/reader/AbstractGraphFactory.java:206-215 | a null handler or a taken name is rejected and the registry is unchanged; otherwise exactly that entry is added |
| GraphFactories.RegisterKeepsKeyed | easy-scheduler-reader/src/main/java/org/gloryjie/scheduler/reader/AbstractGraphFactory.java:206-215 | every handler stays filed under its own name |
| GraphFactories.RegisterThenGet | easy-scheduler-reader/src/main/java/org/gloryjie/scheduler/reader/AbstractGraphFactory.java:198-215 | a registered handler can be looked up, and other lookups are unaffected |
| GraphFactories.FirstRegistrationWins | easy-scheduler-reader/src/main/java/org/gloryjie/scheduler/reader/AbstractGraphFactory.java:211-213 | a second handler of the same name is rejected, and the first stays registered |
| GraphFactories.FoldAnd | easy-scheduler-reader/src/main/java/org/gloryjie/scheduler/reader/AbstractGraphFactory.java:139-142 | the fold fails exactly when a null predicate follows a non-null one; it is null exactly when everything is null; otherwise it is the conjunction of the non-null predicates in order |
| GraphFactories.CreateWhen | easy-scheduler-reader/src/main/java/org/gloryjie/scheduler/reader/AbstractGraphFactory.java:132-146 | without conditions, the handler's own test or null; otherwise the fold that starts from it |
| GraphFactories.WhenIsConjunction | easy-scheduler-reader/src/main/java/org/gloryjie/scheduler/reader/AbstractGraphFactory.java:132-146 | a created predicate evaluates as the conjunction of the handler's test and the conditions, in order |
| GraphFactories.WhenFailsOnLateNull | easy-scheduler-reader/src/main/java/org/gloryjie/scheduler/reader/AbstractGraphFactory.java:141-142 | a null condition after the handler's test or after a non-null condition makes the fold throw |
| GraphFactories.WireWhen | easy-scheduler-reader/src/main/java/org/gloryjie/scheduler/reader/AbstractGraphFactory.java:109-120 | as written, the created predicate, or a test that throws in place of a null one, is appended to the handler's guard; corrected, a null predicate leaves the builder unchanged; the name, action and timeout are kept |
| GraphFactories.ResolveHandler | easy-scheduler-reader/src/main/java/org/gloryjie/scheduler/reader/AbstractGraphFactory.java:96-103 | no handler name gives no handler; an unknown name is rejected with "Handler not found"; a known name gives its handler |
| GraphFactories.CreateDagNode | easy-scheduler-reader/src/main/java/org/gloryjie/scheduler/reader/AbstractGraphFactory.java:95-129 | succeeds exactly when the handler is found, the predicate folds, and the name and dependencies are non-null; the node has the definition's name and timeout and STRONG dependencies, and its handler has the registered name (or the anonymous name), the timeout and the action |
| GraphFactories.CreatedHandlerName | easy-scheduler-reader/src/main/java/org/gloryjie/scheduler/reader/AbstractGraphFactory.java:105-106 | for a registered handler, the new handler takes the definition's handler name |
| GraphFactories.CreatedGuard | easy-scheduler-reader/src/main/java/org/gloryjie/scheduler/reader/AbstractGraphFactory.java:109-120 | with the corrected wiring, the node's guard is the conjunction of the handler's test and the conditions |
| GraphFactories.ActionsOnlyGuardThrows | easy-scheduler-reader/src/main/java/org/gloryjie/scheduler/reader/AbstractGraphFactory.java:109-120 | as written, a node with actions only gets a guard that throws when tested |
| GraphFactories.ActionsOnlyGuardPasses | easy-scheduler-reader/src/main/java/org/gloryjie/scheduler/reader/AbstractGraphFactory.java:109-120 | with the corrected wiring, the same node's guard admits every node |
| GraphFactories.AddDefinitions | easy-scheduler-reader/src/main/java/org/gloryjie/scheduler/reader/AbstractGraphFactory.java:85-89 | each definition becomes a node in the table under its own name, the names are distinct and new, and nothing else in the builder changes |
| GraphFactories.BuiltFromDefinitions | easy-scheduler-reader/src/main/java/org/gloryjie/scheduler/reader/AbstractGraphFactory.java:78-92 | the graph keeps the definition's name and timeout, and holds exactly the defined nodes plus the start and end nodes, each made from its definition |
| GraphFactories.CreateDagGraph | easy-scheduler-reader/src/main/java/org/gloryjie/scheduler/reader/AbstractGraphFactory.java:78-92 | null nodes are rejected; a created graph has the definition's name and timeout, the defined nodes plus start and end, and each user node is the node made from its definition |

## Left out

- `createConfigGraph`, `createClassGraph` and the readers behind them (JSON, YAML, class annotations, SpEL): parsing is outside the core, and only their `GraphDefinition` output is modelled.
- `createAction`: the action a definition yields is a parameter of the factory. This leaves out setting the result field on the user object by reflection, and the `andThen` chaining of consumers.
- `registerMethodHandler` and `findMethodHandler`: they work by reflection over annotated methods.
- GraphFactories.RegisterHandler: the null handler-name check is not modelled, because a `DefaultNodeHandler` never has a null name.
- Nodes.BuildNode: a null attribute key, and a null dependency name or type in the builder's map, are not modelled, because builder keys and dependency entries are plain values. In the source the first makes `setAttribute` throw, and the second makes the node constructor's `putAll` throw a null-pointer exception.
- DefinitionValidation.CheckGraphDefinition: a null element of the node list is not modelled, because definitions are plain values. The source throws a null-pointer exception when its loop reaches one.
- DagGraphs.SuccessorNames: it is total. The exception for a name outside the graph is modelled by `DagGraphs.GetSuccessorNodes`, and both engines ask only for nodes of the graph.
- Handlers.When: it takes a non-null guard. The null guard is modelled by `Handlers.WhenNullable`.
- GraphBuilders.Build: when one node has an unknown dependency and another depends on itself, the source reports whichever its `HashMap` iteration reaches first; the model always reports the unknown dependency. The messages are also shortened: the source's unknown-dependency message goes on to name the node and the dependency, and the self-loop message is Guava's longer text naming the node.
- GraphBuilders.Build: a builder is built once. The source's `build` puts the start and end nodes into the builder's own table and keeps its edges, so a second `build` of the same builder throws the self-loop exception. In the model, `Build` does not change the builder.
- User code cannot write to the context. A guard, action or filter answers with a value, `false` or an exception, and the init and end consumers exist only as handlers. So an action that changes the caller's object or overwrites a `#NODE_RESULT#` entry is not modelled.
- User code throws only exceptions. A Java `Error` would escape `executeNode`'s `catch (Exception)` and complete the future exceptionally; that path is not modelled.
- Nodes are identified by their name in the table, not by object identity. `curNode == dagGraph.getEndNode()` is modelled as a name comparison.
- The timer, the supplier and the context share one `NodeResultImpl` object per node. The model keeps it as the task's record, and the context's stored result follows every later write to it. Each writer's field writes are one step, though: a record that mixes the supplier's state with the timer's throwable, from writes interleaved field by field, is not modelled.
- ConcurrentEngine.Deliver: the callback reads the node's record once. The source reads it twice: `handleNodeExecuteResult` stores it and sets the node state from it (ConcurrentDagEngine.java:363-364), and `fireNextNode` then reads `getState()` and `getThrowable()` again (:230, :236). The timer (:99-101) or the supplier (:377-378) can write the record in between. If the timer's TIMEOUT is stored and the supplier then writes SUCCEEDED, the node stays TIMEOUT but its successors are fired, over a STRONG edge too, and the run can SUCCEED. If SUCCEEDED is stored and the timer then writes TIMEOUT, the node stays SUCCEEDED but the run FAILS with the timeout exception. Neither outcome is modelled.
- ConcurrentEngine.Resolve: it chooses the next nodes from the record it stores, so it does not model the second read of the record described under ConcurrentEngine.Deliver.
- ConcurrentEngine.ResolveInv: the invariant's STRONG-edge conjunct (FannedOutWhenAllowed) holds because the callback reads the record once; with the source's second read it fails, by the first outcome under ConcurrentEngine.Deliver.
- ConcurrentEngine.DeliverInv: as ConcurrentEngine.ResolveInv; the STRONG-edge conjunct rests on the single read of the record.
- ConcurrentEngine.NextInv: as ConcurrentEngine.ResolveInv; the STRONG-edge conjunct rests on the single read of the record.
- EngineProperties.StartedAfterPredecessors: its STRONG-edge clause is a property of the atomic-callback model. In the source, a node whose stored state is TIMEOUT can still fire a successor over a STRONG edge, as described under ConcurrentEngine.Deliver.
- Thread pools, the clock and the scheduled timer service become choices of the environment. Start, end, submit and cost times are not modelled.
- The concurrent engine's atomic decrement is one step of the fan-out. The `exceptionally` handler is modelled only for the one exception the model can raise: a result without a state.
- `MapDagContext` does not implement the context interface in this revision. The single-thread engine runs on the same context model.
- The single-thread engine's catch block is not modelled: no exception escapes `executeNode`.
- A node's `dependsOn` set is given as a sequence in its iteration order.
- The single-thread engine's successor lists are a parameter, contents as well as order, because the order of `getSuccessorNodes` is Guava's. `SingleThreadEngine.ListsSuccessors` says when they are the graph's: each node's list names exactly its successors, each once. Only SuccessorsLowered assumes it. The other lemmas about the single-thread engine hold for any lists.
- SingleThreadEngine.Fire: its own contract states only the shape of the result. What a run ends with is stated by AsWrittenStartFails, CorrectedStartSucceeds, CorrectedFailureHasCause, AnyFailureFailsRun and EndFailureStillSucceeds. It requires the start node, which the `DefaultDagGraph` constructor guarantees.
- Timeouts, elapsed times and counters are unbounded integers: the source's `long` and `int` wrap-around is not modelled.

## Findings

| source | as written | input that shows it | evidently intended | confidence | as-written member | corrected member |
|---|---|---|---|---|---|---|
| easy-scheduler-core/src/main/java/org/gloryjie/scheduler/core/SingleThreadDagEngine.java:178-199 | `executeNode` calls `evaluate` on the node's handler without a null check, inside the try | a graph built without an init consumer: its start node has no handler, so the start node is FAILED with a null-pointer exception and the run FAILS before any user node runs | a node without a handler succeeds with a null result, as in the concurrent engine's raw invoker; `NodeExecuteTimeoutTest.java:35-37` expects SUCCEED from this engine | not executed | SingleThreadEngine.AsWrittenStartFails | SingleThreadEngine.CorrectedStartSucceeds |
| easy-scheduler-reader/src/main/java/org/gloryjie/scheduler/reader/AbstractGraphFactory.java:109-120 | `.when(predicate)` is called even when `createWhen` returned null, and `DefaultNodeHandler.Builder.when` wraps it in a lambda that dereferences it | a definition with actions but no handler and no conditions, which `DefinitionValidator.java:13-16` accepts: its node's guard throws a null-pointer exception on every test | the null predicate is skipped, so the handler has no guard and always runs | not executed | GraphFactories.ActionsOnlyGuardThrows | GraphFactories.ActionsOnlyGuardPasses |
