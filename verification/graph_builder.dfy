/** `DagGraphBuilder`: collects uniquely named nodes, then compiles them
    into a `DagGraph`: one edge per declared dependency (from the
    dependency to the dependent node, valued by the dependency type's
    code), an acyclicity check, a synthetic start node linked to every node
    without predecessors and a synthetic end node linked from every node
    without successors reachable from the start node. */
module GraphBuilders {
  import opened Wrappers
  import opened DependencyTypes
  import opened Values
  import opened Handlers
  import opened Nodes
  import opened Digraphs
  import opened DagGraphs

  /** Value of the edges the builder adds itself (STRONG's code). */
  const DEFAULT_WEIGHT: int := 1

  /** The builder's state. `init` and `end` name the optional context
      consumers that become the start and end nodes' actions. */
  datatype GraphBuilder = GraphBuilder(graphName: Option<string>, nodeMap: map<string, DagNode>,
                                       timeout: Option<int>, init: Option<string>, end: Option<string>,
                                       attributes: map<Option<string>, Option<Value>>)

  const EmptyGraphBuilder := GraphBuilder(None, map[], None, None, None, map[])

  /** `addNode`: rejects a null node and a name already present; otherwise
      the node table grows by exactly that entry. */
  function AddNode(b: GraphBuilder, node: Option<DagNode>): (r: Result<GraphBuilder>)
    ensures r.Ok? <==> node.Some? && node.value.name !in b.nodeMap
    ensures node.None? ==> r == Err(NullPointer("dagNode must not be null"))
    ensures node.Some? && node.value.name in b.nodeMap ==> r == Err(IllegalArgument("dagNode name must be unique"))
    ensures r.Ok? ==> r.value.nodeMap.Keys == b.nodeMap.Keys + {node.value.name}
                      && r.value.nodeMap[node.value.name] == node.value
                      && (forall k :: k in b.nodeMap ==> r.value.nodeMap[k] == b.nodeMap[k])
                      && r.value.(nodeMap := b.nodeMap) == b
  {
    var n :- RequireNonNull(node, "dagNode must not be null");
    if n.name in b.nodeMap then Err(IllegalArgument("dagNode name must be unique"))
    else Ok(b.(nodeMap := b.nodeMap[n.name := n]))
  }

  /** The names of a list of nodes are pairwise distinct. */
  predicate DistinctNames(ns: seq<DagNode>)
  {
    forall i, j :: 0 <= i < j < |ns| ==> ns[i].name != ns[j].name
  }

  /** `addNodes`: rejects a null array, then adds the nodes in order and
      stops at the first failure. */
  function AddNodes(b: GraphBuilder, nodes: Option<seq<Option<DagNode>>>): (r: Result<GraphBuilder>)
    ensures nodes.None? ==> r.Err? && r.error.NullPointer?
    ensures nodes.Some? ==> r == AddNodeList(b, nodes.value)
  {
    var ns :- RequireNonNull(nodes, "dagNodes must not be null");
    AddNodeList(b, ns)
  }

  /** The loop of `addNodes`: it succeeds exactly when no entry is null and
      all names are new and pairwise distinct, and then every node is in
      the table under its name. */
  function AddNodeList(b: GraphBuilder, ns: seq<Option<DagNode>>): (r: Result<GraphBuilder>)
    ensures r.Ok? <==> (forall i :: 0 <= i < |ns| ==> ns[i].Some?)
                       && (forall i :: 0 <= i < |ns| ==> ns[i].value.name !in b.nodeMap)
                       && (forall i, j :: 0 <= i < j < |ns| ==> ns[i].value.name != ns[j].value.name)
    ensures r.Ok? ==> r.value.nodeMap.Keys == b.nodeMap.Keys + (set i | 0 <= i < |ns| :: ns[i].value.name)
    ensures r.Ok? ==> forall i :: 0 <= i < |ns| ==> r.value.nodeMap[ns[i].value.name] == ns[i].value
    ensures r.Ok? ==> forall k :: k in b.nodeMap ==> r.value.nodeMap[k] == b.nodeMap[k]
    ensures r.Ok? ==> r.value.(nodeMap := b.nodeMap) == b
    decreases |ns|
  {
    if ns == [] then Ok(b)
    else
      match AddNode(b, ns[0])
      case Err(e) => Err(e)
      case Ok(b') =>
        var r := AddNodeList(b', ns[1..]);
        AddNodeListCons(b, b', ns, r);
        r
  }

  /** What `AddNodeList` promises about adding `ns` to `b`. */
  ghost predicate AddedList(b: GraphBuilder, ns: seq<Option<DagNode>>, r: Result<GraphBuilder>)
  {
    && (r.Ok? <==> (forall i :: 0 <= i < |ns| ==> ns[i].Some?)
                   && (forall i :: 0 <= i < |ns| ==> ns[i].value.name !in b.nodeMap)
                   && (forall i, j :: 0 <= i < j < |ns| ==> ns[i].value.name != ns[j].value.name))
    && (r.Ok? ==> r.value.nodeMap.Keys == b.nodeMap.Keys + (set i | 0 <= i < |ns| :: ns[i].value.name))
    && (r.Ok? ==> forall i :: 0 <= i < |ns| ==> r.value.nodeMap[ns[i].value.name] == ns[i].value)
    && (r.Ok? ==> forall k :: k in b.nodeMap ==> r.value.nodeMap[k] == b.nodeMap[k])
    && (r.Ok? ==> r.value.(nodeMap := b.nodeMap) == b)
  }

  /** Adding the first node and then the rest keeps the promise for the
      whole list. */
  lemma AddNodeListCons(b: GraphBuilder, b': GraphBuilder, ns: seq<Option<DagNode>>, r: Result<GraphBuilder>)
    requires ns != [] && AddNode(b, ns[0]) == Ok(b')
    requires AddedList(b', ns[1..], r)
    ensures AddedList(b, ns, r)
  {
    assert forall i :: 1 <= i < |ns| ==> ns[i] == ns[1..][i - 1];
    if r.Ok? {
      NamesCons(ns);
    }
  }

  /** The names of a list of present nodes: the first one and the rest's. */
  lemma NamesCons(ns: seq<Option<DagNode>>)
    requires |ns| > 0 && forall i :: 0 <= i < |ns| ==> ns[i].Some?
    ensures (set i | 0 <= i < |ns| :: ns[i].value.name)
         == {ns[0].value.name} + (set i | 0 <= i < |ns[1..]| :: ns[1..][i].value.name)
  {
    var A := set i | 0 <= i < |ns| :: ns[i].value.name;
    var B := set i | 0 <= i < |ns[1..]| :: ns[1..][i].value.name;
    forall x | x in A
      ensures x in {ns[0].value.name} + B
    {
      var i :| 0 <= i < |ns| && ns[i].value.name == x;
      if i > 0 {
        assert ns[1..][i - 1].value.name == x;
      }
    }
    forall x | x in B
      ensures x in A
    {
      var i :| 0 <= i < |ns[1..]| && ns[1..][i].value.name == x;
      assert ns[i + 1].value.name == x;
    }
  }

  function WithGraphName(b: GraphBuilder, name: Option<string>): GraphBuilder { b.(graphName := name) }
  function WithTimeout(b: GraphBuilder, t: Option<int>): GraphBuilder { b.(timeout := t) }
  function WithInit(b: GraphBuilder, consumer: Option<string>): GraphBuilder { b.(init := consumer) }
  function WithEnd(b: GraphBuilder, consumer: Option<string>): GraphBuilder { b.(end := consumer) }
  /** `attribute`: the builder's HashMap takes a null key and a null value alike. */
  function WithAttribute(b: GraphBuilder, key: Option<string>, value: Option<Value>): (r: GraphBuilder)
    ensures key in r.attributes && r.attributes[key] == value
    ensures forall k :: k in b.attributes && k != key ==> k in r.attributes && r.attributes[k] == b.attributes[k]
    ensures r.attributes.Keys == b.attributes.Keys + {key}
    ensures r.(attributes := b.attributes) == b
  {
    b.(attributes := b.attributes[key := value])
  }

  /** Every declared dependency names a node of the table. */
  predicate DepsKnown(m: map<string, DagNode>)
  {
    forall n, d :: n in m && d in m[n].deps ==> d in m
  }

  /** No node depends on itself (the graph refuses self-loops). */
  predicate NoSelfDependency(m: map<string, DagNode>)
  {
    forall n :: n in m ==> n !in m[n].deps
  }

  /** The user graph: one node per table entry and one edge d -> n for
      each dependency d of n, valued by the dependency type's code. */
  function UserGraph(m: map<string, DagNode>): (g: Graph)
    ensures g.nodes == m.Keys
    ensures forall d, n :: (d, n) in g.weights <==> n in m && d in m[n].deps
    ensures forall d, n :: (d, n) in g.weights ==> g.weights[(d, n)] == m[n].deps[d].Code()
    ensures DepsKnown(m) ==> WellFormed(g)
  {
    var edges := set n, d | n in m && d in m[n].deps :: (d, n);
    assert forall d, n :: n in m && d in m[n].deps ==> (d, n) in edges by {
      forall d, n | n in m && d in m[n].deps
        ensures (d, n) in edges
      {
      }
    }
    Graph(m.Keys, map e | e in edges :: m[e.1].deps[e.0].Code())
  }

  /** The start or end node: no dependencies, and a handler only when a
      consumer was given, which then is the handler's action. */
  function SentinelNode(name: string, consumer: Option<string>): (n: DagNode)
    ensures n.name == name && n.deps == map[] && n.timeout.None? && n.attributes == map[]
    ensures n.handler.None? <==> consumer.None?
    ensures consumer.Some? ==> n.handler.value.name == name && n.handler.value.when.None?
                               && n.handler.value.action == Some(ContextConsumer(consumer.value))
  {
    var h := if consumer.Some? then Some(Handler(name, None, Some(ContextConsumer(consumer.value)), None)) else None;
    DagNode(name, h, map[], None, map[])
  }

  /** The start node's edges: one of value 1 to each node of `targets`. */
  function StartEdges(targets: set<string>): (m: map<(string, string), int>)
    ensures forall u, v :: (u, v) in m <==> u == START_NODE_NAME && v in targets
    ensures forall e :: e in m ==> m[e] == DEFAULT_WEIGHT
  {
    var es := set v | v in targets :: (START_NODE_NAME, v);
    map e | e in es :: DEFAULT_WEIGHT
  }

  /** The end node's edges: one of value 1 from each node of `sources`. */
  function EndEdges(sources: set<string>): (m: map<(string, string), int>)
    ensures forall u, v :: (u, v) in m <==> v == END_NODE_NAME && u in sources
    ensures forall e :: e in m ==> m[e] == DEFAULT_WEIGHT
  {
    var es := set u | u in sources :: (u, END_NODE_NAME);
    map e | e in es :: DEFAULT_WEIGHT
  }

  /** `connectToStartNode`'s edges added to the user graph. */
  function ConnectStart(g0: Graph): Graph
  {
    Graph(g0.nodes + {START_NODE_NAME}, g0.weights + StartEdges(Sources(g0, g0.nodes)))
  }

  /** `connectToEndNode`'s edges added to the graph. */
  function ConnectEnd(g1: Graph, leaves: set<string>): Graph
  {
    Graph(g1.nodes + {END_NODE_NAME}, g1.weights + EndEdges(leaves))
  }

  /** Copies the builder's attributes onto the graph. `setAttribute` checks
      the key before the value. When a null key and a null value under
      another key are both present, which NPE comes first depends on the
      HashMap's iteration order; the model reports the key's. */
  function CopyAttributes(g: DagGraph, attrs: map<Option<string>, Option<Value>>): (r: Result<DagGraph>)
    ensures r.Ok? <==> None !in attrs && forall k :: k in attrs ==> attrs[k].Some?
    ensures None in attrs && (forall k :: k in attrs && k.Some? ==> attrs[k].Some?) ==>
              r == Err(NullPointer("dag graph attribute key must not be null"))
    ensures None !in attrs && (exists k :: k in attrs && attrs[k].None?) ==>
              r == Err(NullPointer("dag graph attribute value must not be null"))
    ensures r.Err? ==> r.error in {NullPointer("dag graph attribute key must not be null"),
                                   NullPointer("dag graph attribute value must not be null")}
    ensures r.Ok? ==> r.value.(attributes := g.attributes) == g
    ensures r.Ok? ==> forall k :: Some(k) in attrs ==> k in r.value.attributes && Some(r.value.attributes[k]) == attrs[Some(k)]
    ensures r.Ok? ==> forall k :: k in r.value.attributes && k !in g.attributes ==> Some(k) in attrs
  {
    if None in attrs then Err(NullPointer("dag graph attribute key must not be null"))
    else if forall k :: k in attrs ==> attrs[k].Some? then
      Ok(g.(attributes := g.attributes + map k | k in attrs && k.Some? :: k.value := attrs[k].value))
    else Err(NullPointer("dag graph attribute value must not be null"))
  }

  /** The final node table: the builder's nodes plus the two sentinels. */
  function FinalNodeMap(b: GraphBuilder): map<string, DagNode>
  {
    b.nodeMap[START_NODE_NAME := SentinelNode(START_NODE_NAME, b.init)]
             [END_NODE_NAME := SentinelNode(END_NODE_NAME, b.end)]
  }

  /** `build`, with the checks in the order the source performs them. */
  function Build(b: GraphBuilder): (r: Result<DagGraph>)
    ensures |b.nodeMap| == 0 ==> r == Err(IllegalArgument("dag graph must not be empty"))
    ensures |b.nodeMap| > 0 && !DepsKnown(b.nodeMap) ==> r == Err(IllegalArgument("dependency node must not be null"))
    ensures |b.nodeMap| > 0 && DepsKnown(b.nodeMap) && !NoSelfDependency(b.nodeMap) ==>
              r == Err(IllegalArgument("self-loops are not allowed"))
    ensures |b.nodeMap| > 0 && DepsKnown(b.nodeMap) && NoSelfDependency(b.nodeMap) && !Acyclic(UserGraph(b.nodeMap)) ==>
              r == Err(IllegalArgument("graph has cycle"))
    ensures r.Ok? ==> r.value.nodeMap == FinalNodeMap(b) && r.value.timeout == b.timeout
                      && Some(r.value.graphName) == b.graphName && Acyclic(r.value.graph)
    ensures r.Ok? ==> r.value.inDegree.Keys == r.value.graph.nodes
                      && forall v :: v in r.value.graph.nodes ==> r.value.inDegree[v] == |Pred(r.value.graph, v)|
  {
    if |b.nodeMap| == 0 then Err(IllegalArgument("dag graph must not be empty"))
    else if !DepsKnown(b.nodeMap) then Err(IllegalArgument("dependency node must not be null"))
    else if !NoSelfDependency(b.nodeMap) then Err(IllegalArgument("self-loops are not allowed"))
    else
      var g :- CompileGraph(b.nodeMap);
      var dg :- NewDagGraph(b.graphName, g, FinalNodeMap(b), b.timeout);
      CopyAttributes(dg, b.attributes)
  }

  /** The graph part of `build`: the user graph's cycle check, the start
      node linked to the nodes without predecessors, the leaf search from
      it, the end node linked from the leaves, and the final cycle check. */
  function CompileGraph(m: map<string, DagNode>): (r: Result<Graph>)
    requires DepsKnown(m)
    ensures !Acyclic(UserGraph(m)) ==> r == Err(IllegalArgument("graph has cycle"))
    ensures r.Ok? ==> Acyclic(r.value)
  {
    var g0 := UserGraph(m);
    if !Acyclic(g0) then Err(IllegalArgument("graph has cycle"))
    else
      var starts := Sources(g0, g0.nodes);
      if starts == {} then Err(IllegalArgument("start nodes must not be empty"))
      else if START_NODE_NAME in starts then Err(IllegalArgument("self-loops are not allowed"))
      else
        ConnectStartWellFormed(g0);
        var leaves := FindLeaves(ConnectStart(g0), START_NODE_NAME);
        if leaves == {} then Err(IllegalArgument("end nodes must not be empty"))
        else if END_NODE_NAME in leaves then Err(IllegalArgument("self-loops are not allowed"))
        else
          var g2 := ConnectEnd(ConnectStart(g0), leaves);
          if !Acyclic(g2) then Err(IllegalArgument("graph has cycle")) else Ok(g2)
  }

  /** The graph `build` produces for a valid node table: the user graph,
      the start node linked to its nodes without predecessors and its
      nodes without successors linked to the end node. */
  function Compiled(m: map<string, DagNode>): Graph
  {
    ConnectEnd(ConnectStart(UserGraph(m)), Sinks(UserGraph(m), m.Keys))
  }

  /** A node table the builder accepts. */
  predicate ValidNodes(m: map<string, DagNode>)
  {
    |m| > 0 && DepsKnown(m) && NoSelfDependency(m) && NoReservedNames(m) && Acyclic(UserGraph(m))
  }

  /** The builder's own nodes do not use the sentinels' names. */
  predicate NoReservedNames(m: map<string, DagNode>)
  {
    START_NODE_NAME !in m && END_NODE_NAME !in m
  }

  /** Linking the start node adds edges out of it only, one to each node
      without predecessors, and none into it. */
  lemma ConnectStartShape(g0: Graph)
    requires WellFormed(g0) && START_NODE_NAME !in g0.nodes
    ensures WellFormed(ConnectStart(g0))
    ensures Succ(ConnectStart(g0), START_NODE_NAME) == Sources(g0, g0.nodes)
    ensures Pred(ConnectStart(g0), START_NODE_NAME) == {}
    ensures forall u, v :: u != START_NODE_NAME ==> ((u, v) in ConnectStart(g0).weights <==> (u, v) in g0.weights)
    ensures forall e :: e in g0.weights ==> ConnectStart(g0).weights[e] == g0.weights[e]
  {
  }

  /** Linking the start node keeps every edge between known nodes. */
  lemma ConnectStartWellFormed(g0: Graph)
    requires WellFormed(g0)
    ensures WellFormed(ConnectStart(g0)) && START_NODE_NAME in ConnectStart(g0).nodes
  {
  }

  /** A walk ending at `b` from a node of the graph stays in the graph. */
  lemma ReachableInGraph(g: Graph, a: string, b: string)
    requires WellFormed(g) && a in g.nodes && Reachable(g, a, b)
    ensures b in g.nodes
  {
    var p :| IsPath(g, p) && p[0] == a && p[|p| - 1] == b;
    if |p| > 1 {
      assert (p[|p| - 2], p[|p| - 1]) in g.weights;
    }
  }

  /** Adding edges keeps every walk. */
  lemma ReachableInSupergraph(g: Graph, h: Graph, a: string, b: string)
    requires g.weights.Keys <= h.weights.Keys && Reachable(g, a, b)
    ensures Reachable(h, a, b)
  {
    var p :| IsPath(g, p) && p[0] == a && p[|p| - 1] == b;
    assert IsPath(h, p);
  }

  /** Every node of an acyclic user graph is reachable from the start node:
      by induction on the peeling round, a first-round node is a direct
      successor of the start node and any other node has a predecessor
      peeled earlier. */
  lemma {:induction false} ReachableFromStart(g0: Graph, v: string)
    requires WellFormed(g0) && Acyclic(g0) && START_NODE_NAME !in g0.nodes && v in g0.nodes
    ensures Reachable(ConnectStart(g0), START_NODE_NAME, v)
    decreases Layer(g0, g0.nodes, v)
  {
    if v in Sources(g0, g0.nodes) {
      StartReachesSource(g0, v);
    } else {
      var u :| u in g0.nodes && (u, v) in g0.weights;
      EdgeRaisesLayer(g0, g0.nodes, u, v);
      ReachableFromStart(g0, u);
      assert (u, v) in ConnectStart(g0).weights;
      ReachableStep(ConnectStart(g0), START_NODE_NAME, u, v);
    }
  }

  /** A node without predecessors is one edge away from the start node. */
  lemma StartReachesSource(g0: Graph, v: string)
    requires v in Sources(g0, g0.nodes)
    ensures Reachable(ConnectStart(g0), START_NODE_NAME, v)
  {
    var g1 := ConnectStart(g0);
    var p := [START_NODE_NAME, v];
    assert (START_NODE_NAME, v) in StartEdges(Sources(g0, g0.nodes));
    assert (p[0], p[1]) in g1.weights;
    assert IsPath(g1, p) && p[0] == START_NODE_NAME && p[|p| - 1] == v;
  }

  /** A node without successors in the user graph has none after the
      start node is linked. */
  lemma SinkStaysSink(g0: Graph, v: string)
    requires WellFormed(g0) && START_NODE_NAME !in g0.nodes && v in Sinks(g0, g0.nodes)
    ensures Succ(ConnectStart(g0), v) == {}
  {
    var g1 := ConnectStart(g0);
    forall w
      ensures (v, w) !in g1.weights
    {
      assert (v, w) !in StartEdges(Sources(g0, g0.nodes));
    }
  }

  /** A user node without successors after the start node is linked has
      none in the user graph. */
  lemma LeafIsSink(g0: Graph, v: string)
    requires WellFormed(g0) && v in g0.nodes && Succ(ConnectStart(g0), v) == {}
    ensures v in Sinks(g0, g0.nodes)
  {
    var g1 := ConnectStart(g0);
    forall w | w in g0.nodes
      ensures (v, w) !in g0.weights
    {
      assert w !in Succ(g1, v);
    }
  }

  /** The start node of a non-empty acyclic graph has a successor. */
  lemma StartHasSuccessor(g0: Graph)
    requires WellFormed(g0) && Acyclic(g0) && g0.nodes != {}
    ensures Succ(ConnectStart(g0), START_NODE_NAME) != {}
  {
    AcyclicHasSourceAndSink(g0);
    var s :| s in Sources(g0, g0.nodes);
    assert (START_NODE_NAME, s) in StartEdges(Sources(g0, g0.nodes));
    assert s in Succ(ConnectStart(g0), START_NODE_NAME);
  }

  /** A node the leaf search finds is a user node without successors. */
  lemma LeafIsUserSink(g0: Graph, v: string)
    requires WellFormed(g0) && START_NODE_NAME !in g0.nodes
    requires Succ(ConnectStart(g0), START_NODE_NAME) != {}
    requires WellFormed(ConnectStart(g0)) && START_NODE_NAME in ConnectStart(g0).nodes
    requires v in FindLeaves(ConnectStart(g0), START_NODE_NAME)
    ensures v in Sinks(g0, g0.nodes)
  {
    ReachableInGraph(ConnectStart(g0), START_NODE_NAME, v);
    assert v != START_NODE_NAME;
    LeafIsSink(g0, v);
  }

  /** Every node without successors is found by the leaf search. */
  lemma SinksAreLeaves(g0: Graph)
    requires WellFormed(g0) && Acyclic(g0) && START_NODE_NAME !in g0.nodes
    ensures WellFormed(ConnectStart(g0)) && START_NODE_NAME in ConnectStart(g0).nodes
    ensures Sinks(g0, g0.nodes) <= FindLeaves(ConnectStart(g0), START_NODE_NAME)
  {
    ConnectStartWellFormed(g0);
    forall v | v in Sinks(g0, g0.nodes)
      ensures v in FindLeaves(ConnectStart(g0), START_NODE_NAME)
    {
      ReachableFromStart(g0, v);
      SinkStaysSink(g0, v);
    }
  }

  /** Everything the leaf search finds is a user node without successors. */
  lemma LeavesAreUserSinks(g0: Graph)
    requires WellFormed(g0) && Acyclic(g0) && START_NODE_NAME !in g0.nodes && g0.nodes != {}
    ensures WellFormed(ConnectStart(g0)) && START_NODE_NAME in ConnectStart(g0).nodes
    ensures FindLeaves(ConnectStart(g0), START_NODE_NAME) <= Sinks(g0, g0.nodes)
  {
    ConnectStartWellFormed(g0);
    StartHasSuccessor(g0);
    forall v | v in FindLeaves(ConnectStart(g0), START_NODE_NAME)
      ensures v in Sinks(g0, g0.nodes)
    {
      LeafIsUserSink(g0, v);
    }
  }

  /** The leaf search from the start node finds exactly the user graph's
      nodes without successors. */
  lemma LeavesAreSinks(g0: Graph)
    requires WellFormed(g0) && Acyclic(g0) && START_NODE_NAME !in g0.nodes && g0.nodes != {}
    ensures WellFormed(ConnectStart(g0)) && START_NODE_NAME in ConnectStart(g0).nodes
    ensures FindLeaves(ConnectStart(g0), START_NODE_NAME) == Sinks(g0, g0.nodes)
  {
    SinksAreLeaves(g0);
    LeavesAreUserSinks(g0);
  }

  /** No edge of the compiled graph enters the start node or leaves the
      end node, so a cycle of it avoids both and is a cycle of the user
      graph. */
  lemma CycleAvoidsSentinels(g0: Graph, leaves: set<string>, p: seq<string>)
    requires WellFormed(g0) && START_NODE_NAME !in g0.nodes && END_NODE_NAME !in g0.nodes && leaves <= g0.nodes
    requires IsCycle(ConnectEnd(ConnectStart(g0), leaves), p)
    ensures IsCycle(g0, p)
  {
    var g2 := ConnectEnd(ConnectStart(g0), leaves);
    forall i | 0 <= i < |p|
      ensures p[i] != START_NODE_NAME && p[i] != END_NODE_NAME
    {
      var before := if i == 0 then |p| - 2 else i - 1;
      var after := if i == |p| - 1 then 1 else i + 1;
      assert (p[before], p[i]) in g2.weights;
      assert (p[i], p[after]) in g2.weights;
    }
    forall i | 0 <= i < |p| - 1
      ensures (p[i], p[i + 1]) in g0.weights
    {
      assert (p[i], p[i + 1]) in g2.weights;
    }
  }

  /** Linking both sentinels keeps an acyclic user graph acyclic. */
  lemma SentinelsKeepAcyclic(g0: Graph, leaves: set<string>)
    requires WellFormed(g0) && Acyclic(g0)
    requires START_NODE_NAME !in g0.nodes && END_NODE_NAME !in g0.nodes && leaves <= g0.nodes
    ensures WellFormed(ConnectEnd(ConnectStart(g0), leaves))
    ensures Acyclic(ConnectEnd(ConnectStart(g0), leaves))
  {
    var g2 := ConnectEnd(ConnectStart(g0), leaves);
    AcyclicHasNoCycle(g0);
    forall p | IsCycle(g2, p)
      ensures IsCycle(g0, p)
    {
      CycleAvoidsSentinels(g0, leaves, p);
    }
    AcyclicIffNoCycle(g2);
  }

  /** For a table without reserved names, the graph part fails only on a
      cycle of the user graph: the two checks the source makes after the
      first are never hit. */
  lemma CompileGraphOk(m: map<string, DagNode>)
    requires DepsKnown(m) && NoReservedNames(m) && |m| > 0
    ensures CompileGraph(m).Ok? <==> Acyclic(UserGraph(m))
  {
    var g0 := UserGraph(m);
    if Acyclic(g0) {
      AcyclicHasSourceAndSink(g0);
      LeavesAreSinks(g0);
      SentinelsKeepAcyclic(g0, Sinks(g0, g0.nodes));
    }
  }

  /** The graph part's result is the compiled graph, which is acyclic. */
  lemma CompileGraphValue(m: map<string, DagNode>)
    requires DepsKnown(m) && NoReservedNames(m) && |m| > 0 && CompileGraph(m).Ok?
    ensures CompileGraph(m).value == Compiled(m) && WellFormed(Compiled(m)) && Acyclic(Compiled(m))
  {
    var g0 := UserGraph(m);
    AcyclicHasSourceAndSink(g0);
    LeavesAreSinks(g0);
    SentinelsKeepAcyclic(g0, Sinks(g0, g0.nodes));
  }

  /** The conditions on the node table and the name under which a builder
      without reserved names gets as far as copying its attributes. */
  ghost predicate GraphBuildable(b: GraphBuilder)
  {
    && |b.nodeMap| > 0 && DepsKnown(b.nodeMap) && NoSelfDependency(b.nodeMap)
    && !HasCycle(UserGraph(b.nodeMap)) && b.graphName.Some?
  }

  /** The conditions under which a builder without reserved names builds. */
  ghost predicate Buildable(b: GraphBuilder)
  {
    GraphBuildable(b) && None !in b.attributes && (forall k :: k in b.attributes ==> b.attributes[k].Some?)
  }

  /** A build that succeeds had a buildable builder. */
  lemma BuildOkIsBuildable(b: GraphBuilder)
    requires NoReservedNames(b.nodeMap) && Build(b).Ok?
    ensures Buildable(b)
  {
    assert |b.nodeMap| > 0 && DepsKnown(b.nodeMap) && NoSelfDependency(b.nodeMap);
    assert !HasCycle(UserGraph(b.nodeMap)) by {
      AcyclicIffNoCycle(UserGraph(b.nodeMap));
    }
    assert None !in b.attributes && forall k :: k in b.attributes ==> b.attributes[k].Some? by {
      var g := CompileGraph(b.nodeMap).value;
      var dg := NewDagGraph(b.graphName, g, FinalNodeMap(b), b.timeout);
      assert dg.Ok? && Build(b) == CopyAttributes(dg.value, b.attributes);
    }
  }

  /** A buildable builder builds. */
  lemma BuildableBuilds(b: GraphBuilder)
    requires NoReservedNames(b.nodeMap) && Buildable(b)
    ensures Build(b).Ok?
  {
    AcyclicIffNoCycle(UserGraph(b.nodeMap));
    CompileGraphOk(b.nodeMap);
    var g := CompileGraph(b.nodeMap).value;
    var dg := NewDagGraph(b.graphName, g, FinalNodeMap(b), b.timeout);
    assert dg.Ok?;
    assert Build(b) == CopyAttributes(dg.value, b.attributes);
  }

  /** A builder without reserved names builds exactly when it has nodes,
      every dependency is known and not the node itself, the dependencies
      form no cycle, the graph is named and no attribute value is null. */
  lemma BuildSucceedsIff(b: GraphBuilder)
    requires NoReservedNames(b.nodeMap)
    ensures Build(b).Ok? <==> Buildable(b)
  {
    if Build(b).Ok? {
      BuildOkIsBuildable(b);
    }
    if Buildable(b) {
      BuildableBuilds(b);
    }
  }

  /** A successful build's graph is the compiled graph of its node table. */
  lemma BuiltGraphIsCompiled(b: GraphBuilder)
    requires NoReservedNames(b.nodeMap) && Build(b).Ok?
    ensures ValidNodes(b.nodeMap) && Build(b).value.graph == Compiled(b.nodeMap)
  {
    assert |b.nodeMap| > 0 && DepsKnown(b.nodeMap) && NoSelfDependency(b.nodeMap);
    var c := CompileGraph(b.nodeMap);
    assert c.Ok?;
    CompileGraphValue(b.nodeMap);
    var dg := NewDagGraph(b.graphName, c.value, FinalNodeMap(b), b.timeout);
    assert dg.Ok?;
    assert Build(b) == CopyAttributes(dg.value, b.attributes);
  }

  /** A builder whose node table and name are buildable ends in `CopyAttributes`. */
  lemma BuildEndsInCopy(b: GraphBuilder)
    requires NoReservedNames(b.nodeMap) && GraphBuildable(b)
    ensures CompileGraph(b.nodeMap).Ok?
    ensures NewDagGraph(b.graphName, CompileGraph(b.nodeMap).value, FinalNodeMap(b), b.timeout).Ok?
    ensures Build(b) == CopyAttributes(NewDagGraph(b.graphName, CompileGraph(b.nodeMap).value, FinalNodeMap(b), b.timeout).value,
                                       b.attributes)
  {
    AcyclicIffNoCycle(UserGraph(b.nodeMap));
    CompileGraphOk(b.nodeMap);
    var c := CompileGraph(b.nodeMap);
    assert c.Ok?;
    var dg := NewDagGraph(b.graphName, c.value, FinalNodeMap(b), b.timeout);
    assert dg.Ok?;
    assert Build(b) == CopyAttributes(dg.value, b.attributes);
  }

  /** Copying a null-free attribute map with one more entry: the entry
      decides the outcome. */
  lemma CopyOneMoreAttribute(g: DagGraph, attrs: map<Option<string>, Option<Value>>, key: Option<string>, value: Option<Value>)
    requires None !in attrs && forall k :: k in attrs ==> attrs[k].Some?
    ensures key.None? ==> CopyAttributes(g, attrs[key := value]) == Err(NullPointer("dag graph attribute key must not be null"))
    ensures key.Some? && value.None? ==>
              CopyAttributes(g, attrs[key := value]) == Err(NullPointer("dag graph attribute value must not be null"))
    ensures key.Some? && value.Some? ==> && CopyAttributes(g, attrs[key := value]).Ok?
                                         && key.value in CopyAttributes(g, attrs[key := value]).value.attributes
                                         && CopyAttributes(g, attrs[key := value]).value.attributes[key.value] == value.value
  {
    var a := attrs[key := value];
    if key.None? {
      assert None in a;
    } else if value.None? {
      assert None !in a && a[key].None?;
    } else {
      assert None !in a && forall k :: k in a ==> a[k].Some?;
      assert Some(key.value) in a;
    }
  }

  /** An attribute set on a builder that builds reaches the built graph; a
      null key or a null value makes `build` throw its NPE instead. */
  lemma AttributeReachesGraph(b: GraphBuilder, key: Option<string>, value: Option<Value>)
    requires NoReservedNames(b.nodeMap) && Build(b).Ok?
    ensures key.None? ==> Build(WithAttribute(b, key, value)) == Err(NullPointer("dag graph attribute key must not be null"))
    ensures key.Some? && value.None? ==>
              Build(WithAttribute(b, key, value)) == Err(NullPointer("dag graph attribute value must not be null"))
    ensures key.Some? && value.Some? ==> && Build(WithAttribute(b, key, value)).Ok?
                                         && key.value in Build(WithAttribute(b, key, value)).value.attributes
                                         && Build(WithAttribute(b, key, value)).value.attributes[key.value] == value.value
  {
    BuildOkIsBuildable(b);
    var b' := WithAttribute(b, key, value);
    assert GraphBuildable(b');
    BuildEndsInCopy(b');
    var dg := NewDagGraph(b'.graphName, CompileGraph(b'.nodeMap).value, FinalNodeMap(b'), b'.timeout).value;
    CopyOneMoreAttribute(dg, b.attributes, key, value);
  }

  /** A node no node of the table depends on. */
  predicate IsLeaf(m: map<string, DagNode>, u: string)
  {
    forall n :: n in m ==> u !in m[n].deps
  }

  /** The compiled graph stated directly on the node table: its nodes, its
      three kinds of edges and their values. */
  ghost predicate EdgeTable(m: map<string, DagNode>, g: Graph)
  {
    && g.nodes == m.Keys + {START_NODE_NAME, END_NODE_NAME}
    && (forall u, v :: (u, v) in g.weights <==>
                         || (u in m && v in m && u in m[v].deps)
                         || (u == START_NODE_NAME && v in m && m[v].deps == map[])
                         || (v == END_NODE_NAME && u in m && IsLeaf(m, u)))
    && (forall u, v :: v in m && u in m[v].deps ==> (u, v) in g.weights && g.weights[(u, v)] == m[v].deps[u].Code())
    && (forall u, v :: (u, v) in g.weights && (u == START_NODE_NAME || v == END_NODE_NAME) ==>
                         g.weights[(u, v)] == DEFAULT_WEIGHT)
  }

  /** The user graph's nodes without predecessors are those without
      dependencies. */
  lemma UserSources(m: map<string, DagNode>)
    requires DepsKnown(m)
    ensures forall v :: v in Sources(UserGraph(m), m.Keys) <==> v in m && m[v].deps == map[]
  {
    var g0 := UserGraph(m);
    forall v | v in m && m[v].deps != map[]
      ensures v !in Sources(g0, m.Keys)
    {
      var d :| d in m[v].deps;
      assert (d, v) in g0.weights;
    }
  }

  /** The user graph's nodes without successors are those no node depends
      on. */
  lemma UserSinks(m: map<string, DagNode>)
    requires DepsKnown(m)
    ensures forall u :: u in Sinks(UserGraph(m), m.Keys) <==> u in m && IsLeaf(m, u)
  {
    var g0 := UserGraph(m);
    forall u | u in m && !IsLeaf(m, u)
      ensures u !in Sinks(g0, m.Keys)
    {
      var n :| n in m && u in m[n].deps;
      assert (u, n) in g0.weights;
    }
  }

  /** The compiled graph has exactly the edge table of its node table. */
  lemma CompiledEdgeTable(m: map<string, DagNode>)
    requires DepsKnown(m) && NoReservedNames(m)
    ensures EdgeTable(m, Compiled(m))
  {
    var g := Compiled(m);
    CompiledEdges(m);
    assert forall u, v :: (u, v) in g.weights <==>
                         || (u in m && v in m && u in m[v].deps)
                         || (u == START_NODE_NAME && v in m && m[v].deps == map[])
                         || (v == END_NODE_NAME && u in m && IsLeaf(m, u)) by {
      UserSources(m);
      UserSinks(m);
    }
  }

  /** The compiled graph's edges: the user graph's with their values, and
      the start and end nodes' with the default value. */
  lemma CompiledEdges(m: map<string, DagNode>)
    requires DepsKnown(m) && NoReservedNames(m)
    ensures Compiled(m).nodes == m.Keys + {START_NODE_NAME, END_NODE_NAME}
    ensures forall u, v :: (u, v) in Compiled(m).weights <==>
                         || (u, v) in UserGraph(m).weights
                         || (u == START_NODE_NAME && v in Sources(UserGraph(m), m.Keys))
                         || (v == END_NODE_NAME && u in Sinks(UserGraph(m), m.Keys))
    ensures forall u, v :: v in m && u in m[v].deps ==>
                         (u, v) in Compiled(m).weights && Compiled(m).weights[(u, v)] == m[v].deps[u].Code()
    ensures forall u, v :: (u, v) in Compiled(m).weights && (u == START_NODE_NAME || v == END_NODE_NAME) ==>
                         Compiled(m).weights[(u, v)] == DEFAULT_WEIGHT
  {
    CompiledEdgeSet(m);
    CompiledUserWeights(m);
    CompiledSentinelWeights(m);
  }

  /** An edge of the compiled graph is a user edge, a start edge or an end edge. */
  lemma CompiledEdgeSet(m: map<string, DagNode>)
    ensures forall u, v :: (u, v) in Compiled(m).weights <==>
                         || (u, v) in UserGraph(m).weights
                         || (u == START_NODE_NAME && v in Sources(UserGraph(m), m.Keys))
                         || (v == END_NODE_NAME && u in Sinks(UserGraph(m), m.Keys))
  {
    var g0 := UserGraph(m);
    assert Compiled(m).weights
        == g0.weights + StartEdges(Sources(g0, m.Keys)) + EndEdges(Sinks(g0, m.Keys));
  }

  /** A user edge keeps its dependency type's code. */
  lemma CompiledUserWeights(m: map<string, DagNode>)
    requires DepsKnown(m) && NoReservedNames(m)
    ensures forall u, v :: v in m && u in m[v].deps ==>
                         (u, v) in Compiled(m).weights && Compiled(m).weights[(u, v)] == m[v].deps[u].Code()
  {
    var g0 := UserGraph(m);
    var se := StartEdges(Sources(g0, m.Keys));
    var ee := EndEdges(Sinks(g0, m.Keys));
    assert Compiled(m).weights == g0.weights + se + ee;
    forall u, v | v in m && u in m[v].deps
      ensures (u, v) in g0.weights + se + ee && (g0.weights + se + ee)[(u, v)] == m[v].deps[u].Code()
    {
      UserEdgeKept(g0.weights, se, ee, (u, v));
    }
  }

  /** The start and end nodes' edges carry the default value. */
  lemma CompiledSentinelWeights(m: map<string, DagNode>)
    requires DepsKnown(m) && NoReservedNames(m)
    ensures forall u, v :: (u, v) in Compiled(m).weights && (u == START_NODE_NAME || v == END_NODE_NAME) ==>
                         Compiled(m).weights[(u, v)] == DEFAULT_WEIGHT
  {
    var g0 := UserGraph(m);
    var se := StartEdges(Sources(g0, m.Keys));
    var ee := EndEdges(Sinks(g0, m.Keys));
    var w := g0.weights + se + ee;
    assert Compiled(m).weights == w;
    forall u, v | (u, v) in w && (u == START_NODE_NAME || v == END_NODE_NAME)
      ensures w[(u, v)] == DEFAULT_WEIGHT
    {
      assert (u, v) !in g0.weights;
    }
  }

  /** An edge of the first table that the others lack keeps its value in
      their union. */
  lemma UserEdgeKept(a: map<(string, string), int>, b: map<(string, string), int>,
                     c: map<(string, string), int>, e: (string, string))
    requires e in a && e !in b && e !in c
    ensures e in a + b + c && (a + b + c)[e] == a[e]
  {
    assert (a + b)[e] == a[e];
  }

  /** The start node leads to every node without dependencies, with the
      default value, and nothing leads into it. */
  lemma StartNodeEdges(m: map<string, DagNode>, g: Graph)
    requires EdgeTable(m, g) && NoReservedNames(m)
    ensures forall v :: v in Succ(g, START_NODE_NAME) <==> v in m && m[v].deps == map[]
    ensures forall v :: v in Succ(g, START_NODE_NAME) ==> g.weights[(START_NODE_NAME, v)] == DEFAULT_WEIGHT
    ensures Pred(g, START_NODE_NAME) == {}
  {
  }

  /** Every node no other node depends on leads to the end node, with the
      default value, and the end node leads nowhere. */
  lemma EndNodeEdges(m: map<string, DagNode>, g: Graph)
    requires EdgeTable(m, g) && NoReservedNames(m)
    ensures forall v :: v in Pred(g, END_NODE_NAME) <==> v in m && IsLeaf(m, v)
    ensures forall v :: v in Pred(g, END_NODE_NAME) ==> g.weights[(v, END_NODE_NAME)] == DEFAULT_WEIGHT
    ensures Succ(g, END_NODE_NAME) == {}
  {
  }

  /** Each node's predecessors are its dependencies, or the start node
      alone when it has none. */
  lemma UserPredecessors(m: map<string, DagNode>, g: Graph)
    requires EdgeTable(m, g) && NoReservedNames(m) && DepsKnown(m)
    ensures forall v :: v in m ==> Pred(g, v) == if m[v].deps == map[] then {START_NODE_NAME} else m[v].deps.Keys
  {
    forall v | v in m
      ensures Pred(g, v) == if m[v].deps == map[] then {START_NODE_NAME} else m[v].deps.Keys
    {
      if m[v].deps != map[] {
        var d :| d in m[v].deps;
        assert d in Pred(g, v);
      }
    }
  }

  /** Linking the end node keeps every walk of the graph with the start
      node linked, so each user node stays reachable from the start node. */
  lemma UserNodeReachable(m: map<string, DagNode>, v: string)
    requires ValidNodes(m) && v in m
    ensures Reachable(Compiled(m), START_NODE_NAME, v)
  {
    var g0 := UserGraph(m);
    ReachableFromStart(g0, v);
    ReachableInSupergraph(ConnectStart(g0), Compiled(m), START_NODE_NAME, v);
  }

  /** The end node is reached through any node without successors. */
  lemma EndNodeReachable(m: map<string, DagNode>)
    requires ValidNodes(m)
    ensures Reachable(Compiled(m), START_NODE_NAME, END_NODE_NAME)
  {
    var g0 := UserGraph(m);
    AcyclicHasSourceAndSink(g0);
    var l :| l in Sinks(g0, g0.nodes);
    UserNodeReachable(m, l);
    assert (l, END_NODE_NAME) in EndEdges(Sinks(g0, m.Keys));
    ReachableStep(Compiled(m), START_NODE_NAME, l, END_NODE_NAME);
  }

  /** Every node of the compiled graph lies on a walk from the start
      node: each of the table's nodes and the end node. */
  lemma AllReachableFromStart(m: map<string, DagNode>)
    requires ValidNodes(m)
    ensures forall v :: v in m ==> Reachable(Compiled(m), START_NODE_NAME, v)
    ensures Reachable(Compiled(m), START_NODE_NAME, END_NODE_NAME)
  {
    forall v | v in m
      ensures Reachable(Compiled(m), START_NODE_NAME, v)
    {
      UserNodeReachable(m, v);
    }
    EndNodeReachable(m);
  }

  /** The nodes no node of the table depends on. */
  function Leaves(m: map<string, DagNode>): (r: set<string>)
    ensures forall u :: u in r <==> u in m && IsLeaf(m, u)
  {
    set u | u in m && IsLeaf(m, u)
  }

  /** The in-degree table of a graph with the edge table of `m`: 0 for the
      start node, the number of dependencies for a node that has some and
      1 for one that has none, and the number of nodes nobody depends on
      for the end node. */
  lemma TableInDegrees(m: map<string, DagNode>, g: Graph)
    requires EdgeTable(m, g) && NoReservedNames(m) && DepsKnown(m)
    ensures |Pred(g, START_NODE_NAME)| == 0
    ensures |Pred(g, END_NODE_NAME)| == |Leaves(m)|
    ensures forall v :: v in m ==> |Pred(g, v)| == if m[v].deps == map[] then 1 else |m[v].deps.Keys|
  {
    StartNodeEdges(m, g);
    EndPredecessorsAreLeaves(m, g);
    UserInDegrees(m, g);
  }

  /** The end node's predecessors are the nodes nobody depends on. */
  lemma EndPredecessorsAreLeaves(m: map<string, DagNode>, g: Graph)
    requires EdgeTable(m, g) && NoReservedNames(m)
    ensures Pred(g, END_NODE_NAME) == Leaves(m)
  {
    EndNodeEdges(m, g);
  }

  /** A user node's in-degree: its number of dependencies, or 1 (the edge
      from the start node) when it has none. */
  lemma UserInDegrees(m: map<string, DagNode>, g: Graph)
    requires EdgeTable(m, g) && NoReservedNames(m) && DepsKnown(m)
    ensures forall v :: v in m ==> |Pred(g, v)| == if m[v].deps == map[] then 1 else |m[v].deps.Keys|
  {
    UserPredecessors(m, g);
  }

  /** A successful build has the edge table of its nodes and counts each
      node's predecessors as its in-degree. */
  lemma BuiltEdgeTable(b: GraphBuilder)
    requires NoReservedNames(b.nodeMap) && Build(b).Ok?
    ensures ValidNodes(b.nodeMap) && EdgeTable(b.nodeMap, Build(b).value.graph)
  {
    BuiltGraphIsCompiled(b);
    CompiledEdgeTable(b.nodeMap);
  }

  /** The in-degree table of a successful build. */
  lemma BuiltInDegrees(b: GraphBuilder)
    requires NoReservedNames(b.nodeMap) && Build(b).Ok?
    ensures var d := Build(b).value.inDegree;
            && d.Keys == b.nodeMap.Keys + {START_NODE_NAME, END_NODE_NAME}
            && d[START_NODE_NAME] == 0
            && d[END_NODE_NAME] == |Leaves(b.nodeMap)|
            && forall v :: v in b.nodeMap ==> d[v] == if b.nodeMap[v].deps == map[] then 1 else |b.nodeMap[v].deps.Keys|
  {
    BuiltEdgeTable(b);
    var dg := Build(b).value;
    TableInDegrees(b.nodeMap, dg.graph);
  }

  /** A graph without edges has no cycle. */
  lemma NoEdgesNoCycle(g: Graph)
    requires g.weights == map[]
    ensures !HasCycle(g)
  {
    forall p
      ensures !IsCycle(g, p)
    {
      if |p| >= 2 {
        assert (p[0], p[1]) !in g.weights;
      }
    }
  }

  /** A node without dependencies, handler, timeout or attributes. */
  function PlainNode(name: string): DagNode
  {
    DagNode(name, None, map[], None, map[])
  }

  /** A name the builder does not reserve. */
  predicate Unreserved(x: string)
  {
    x != START_NODE_NAME && x != END_NODE_NAME
  }

  /** One node without dependencies is a valid table. */
  lemma SingleNodeValid(x: string)
    requires Unreserved(x)
    ensures ValidNodes(map[x := PlainNode(x)])
  {
    var m := map[x := PlainNode(x)];
    assert x in m;
    IndependentNodesValid(m);
  }

  /** A non-empty table without dependencies and reserved names is valid:
      its user graph has no edges. */
  lemma IndependentNodesValid(m: map<string, DagNode>)
    requires |m| > 0 && NoReservedNames(m)
    requires forall n :: n in m ==> m[n].deps == map[]
    ensures ValidNodes(m)
  {
    var g0 := UserGraph(m);
    assert g0.weights == map[] by {
      assert forall e :: e !in g0.weights;
    }
    NoEdgesNoCycle(g0);
    AcyclicIffNoCycle(g0);
  }

  /** In the graph of one node without dependencies the start node has
      in-degree 0, the node and the end node 1. */
  lemma SingleNodeExample(x: string, g: Graph)
    requires Unreserved(x) && EdgeTable(map[x := PlainNode(x)], g)
    ensures |Pred(g, START_NODE_NAME)| == 0 && |Pred(g, x)| == 1 && |Pred(g, END_NODE_NAME)| == 1
  {
    var m := map[x := PlainNode(x)];
    SingleLeaves(x);
    TableInDegrees(m, g);
    RootInDegree(m, g, x);
  }

  lemma SingleLeaves(x: string)
    ensures Leaves(map[x := PlainNode(x)]) == {x}
  {
    assert IsLeaf(map[x := PlainNode(x)], x);
  }

  /** A node without dependencies has the start node as its one predecessor. */
  lemma RootInDegree(m: map<string, DagNode>, g: Graph, x: string)
    requires EdgeTable(m, g) && NoReservedNames(m) && DepsKnown(m) && x in m && m[x].deps == map[]
    ensures |Pred(g, x)| == 1
  {
    TableInDegrees(m, g);
  }

  /** Adding two nodes with distinct names puts both in the table. */
  lemma TwoNodeAdded(x: string, y: string)
    requires x != y
    ensures var r := AddNodes(WithGraphName(EmptyGraphBuilder, Some("test")), Some([Some(PlainNode(x)), Some(PlainNode(y))]));
            r.Ok? && r.value.nodeMap == map[x := PlainNode(x), y := PlainNode(y)]
  {
    var b0 := WithGraphName(EmptyGraphBuilder, Some("test"));
    var m := map[x := PlainNode(x), y := PlainNode(y)];
    var b1 := b0.(nodeMap := map[x := PlainNode(x)]);
    assert AddNode(b0, Some(PlainNode(x))) == Ok(b1);
    assert AddNode(b1, Some(PlainNode(y))) == Ok(b0.(nodeMap := m));
    assert AddNodeList(b1, [Some(PlainNode(y))]) == Ok(b0.(nodeMap := m)) by {
      assert [Some(PlainNode(y))][1..] == [];
    }
    assert AddNodeList(b0, [Some(PlainNode(x)), Some(PlainNode(y))]) == Ok(b0.(nodeMap := m)) by {
      assert [Some(PlainNode(x)), Some(PlainNode(y))][1..] == [Some(PlainNode(y))];
    }
  }

  /** Two independent nodes form a valid table. */
  lemma TwoNodeValid(x: string, y: string)
    requires Unreserved(x) && Unreserved(y) && x != y
    ensures ValidNodes(map[x := PlainNode(x), y := PlainNode(y)])
  {
    var m := map[x := PlainNode(x), y := PlainNode(y)];
    assert x in m && m.Keys == {x, y};
    IndependentNodesValid(m);
  }

  /** In the graph of two independent nodes each has in-degree 1 and the
      end node has in-degree 2. */
  lemma TwoNodeExample(x: string, y: string, g: Graph)
    requires Unreserved(x) && Unreserved(y) && x != y
    requires EdgeTable(map[x := PlainNode(x), y := PlainNode(y)], g)
    ensures |Pred(g, START_NODE_NAME)| == 0 && |Pred(g, x)| == 1 && |Pred(g, y)| == 1
    ensures |Pred(g, END_NODE_NAME)| == 2
  {
    var m := map[x := PlainNode(x), y := PlainNode(y)];
    assert Leaves(m) == {x, y} by {
      assert IsLeaf(m, x) && IsLeaf(m, y);
    }
    assert m[x].deps == map[] && m[y].deps == map[];
    TableInDegrees(m, g);
  }

  /** x depends on y and y on x: the table has a cycle and the build
      reports it; once x's dependency on y is removed, the table is valid. */
  lemma CycleExample(x: string, y: string)
    requires Unreserved(x) && Unreserved(y) && x != y
    ensures var a := PlainNode(x).(deps := map[y := Strong]);
            var bn := PlainNode(y).(deps := map[x := Strong]);
            && HasCycle(UserGraph(map[x := a, y := bn]))
            && Build(GraphBuilder(Some("test"), map[x := a, y := bn], None, None, None, map[]))
               == Err(IllegalArgument("graph has cycle"))
            && RemoveDependency(a, Some(y)).Ok?
            && ValidNodes(map[x := RemoveDependency(a, Some(y)).value, y := bn])
  {
    var a := PlainNode(x).(deps := map[y := Strong]);
    var bn := PlainNode(y).(deps := map[x := Strong]);
    TwoCycle(x, y);
    var a' := RemoveDependency(a, Some(y)).value;
    assert a' == PlainNode(x);
    OneEdgeValid(x, y);
  }

  /** x depending on y and y on x form a cycle, which the build reports. */
  lemma TwoCycle(x: string, y: string)
    requires Unreserved(x) && Unreserved(y) && x != y
    ensures var m := map[x := PlainNode(x).(deps := map[y := Strong]), y := PlainNode(y).(deps := map[x := Strong])];
            && HasCycle(UserGraph(m))
            && Build(GraphBuilder(Some("test"), m, None, None, None, map[])) == Err(IllegalArgument("graph has cycle"))
  {
    var m := map[x := PlainNode(x).(deps := map[y := Strong]), y := PlainNode(y).(deps := map[x := Strong])];
    MutualDependencyCycle(m, x, y);
    TwoTableChecks(m, x, y);
    CycleRejected(GraphBuilder(Some("test"), m, None, None, None, map[]));
  }

  /** A table that passes the earlier checks but has a cycle is rejected
      with the cycle error. */
  lemma CycleRejected(b: GraphBuilder)
    requires |b.nodeMap| > 0 && DepsKnown(b.nodeMap) && NoSelfDependency(b.nodeMap)
    requires HasCycle(UserGraph(b.nodeMap))
    ensures Build(b) == Err(IllegalArgument("graph has cycle"))
  {
    AcyclicIffNoCycle(UserGraph(b.nodeMap));
  }

  /** Two nodes that depend on each other close a walk x, y, x. */
  lemma MutualDependencyCycle(m: map<string, DagNode>, x: string, y: string)
    requires x in m && y in m && y in m[x].deps && x in m[y].deps
    ensures HasCycle(UserGraph(m))
  {
    var g0 := UserGraph(m);
    var p := [x, y, x];
    assert (p[0], p[1]) in g0.weights && (p[1], p[2]) in g0.weights;
    assert IsCycle(g0, p);
  }

  /** A two-entry table whose entries name each other passes the builder's
      checks before the cycle check. */
  lemma TwoTableChecks(m: map<string, DagNode>, x: string, y: string)
    requires m.Keys == {x, y}
    requires forall n :: n in m ==> m[n].deps.Keys <= {x, y} - {n}
    ensures |m| > 0 && DepsKnown(m) && NoSelfDependency(m)
  {
    assert x in m.Keys;
  }

  /** The table of x, and y depending on x, is valid. */
  lemma OneEdgeValid(x: string, y: string)
    requires Unreserved(x) && Unreserved(y) && x != y
    ensures ValidNodes(map[x := PlainNode(x), y := PlainNode(y).(deps := map[x := Strong])])
  {
    var m := map[x := PlainNode(x), y := PlainNode(y).(deps := map[x := Strong])];
    OneEdgeNoCycle(x, y);
    AcyclicIffNoCycle(UserGraph(m));
  }

  /** With x depending on nothing and y on x, the only edge is x to y, and
      no walk closes. */
  lemma OneEdgeNoCycle(x: string, y: string)
    requires x != y
    ensures var m := map[x := PlainNode(x), y := PlainNode(y).(deps := map[x := Strong])];
            DepsKnown(m) && !HasCycle(UserGraph(m))
  {
    var m := map[x := PlainNode(x), y := PlainNode(y).(deps := map[x := Strong])];
    var g0 := UserGraph(m);
    assert forall u, v :: (u, v) in g0.weights ==> u == x && v == y;
    forall p
      ensures !IsCycle(g0, p)
    {
      if |p| >= 2 && (p[0], p[1]) in g0.weights {
        if |p| > 2 {
          assert (p[1], p[2]) !in g0.weights;
        }
      }
    }
  }
}
