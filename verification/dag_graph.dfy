/** `DefaultDagGraph`: the frozen result of the graph builder. It holds a
    copy of the node table, the edge set with its values (a dependency
    type code per edge), the in-degree table computed from that edge set,
    and an attribute table. */
module DagGraphs {
  import opened Wrappers
  import opened DependencyTypes
  import opened Values
  import opened Nodes
  import opened Digraphs

  const START_NODE_NAME: string := "#START_NODE"
  const END_NODE_NAME: string := "#END_NODE"

  datatype DagGraph = DagGraph(graphName: string, graph: Graph, nodeMap: map<string, DagNode>,
                               inDegree: map<string, int>, timeout: Option<int>,
                               attributes: map<string, Value>)

  /** The constructor: rejects a null name and a node table without the
      start or the end node; keeps its own copy of the table and counts
      the in-degree of every node of the edge set. */
  function NewDagGraph(graphName: Option<string>, graph: Graph, nodeMap: map<string, DagNode>,
                       timeout: Option<int>): (r: Result<DagGraph>)
    ensures r.Ok? <==> graphName.Some? && START_NODE_NAME in nodeMap && END_NODE_NAME in nodeMap
    ensures r.Err? ==> r.error.NullPointer?
    ensures r.Ok? ==> r.value.graphName == graphName.value && r.value.graph == graph
                      && r.value.nodeMap == nodeMap && r.value.timeout == timeout
                      && r.value.attributes == map[]
    ensures r.Ok? ==> r.value.inDegree.Keys == graph.nodes
    ensures r.Ok? ==> forall v :: v in graph.nodes ==> r.value.inDegree[v] == |Pred(graph, v)|
  {
    var name :- RequireNonNull(graphName, "graph name must not be null");
    if START_NODE_NAME !in nodeMap then Err(NullPointer("start node must not be null"))
    else if END_NODE_NAME !in nodeMap then Err(NullPointer("end node must not be null"))
    else Ok(DagGraph(name, graph, nodeMap, map v | v in graph.nodes :: InDegree(graph, v), timeout, map[]))
  }

  /** `getNode`: `None` (null) for a name that is not in the table. */
  function GetNode(g: DagGraph, nodeName: string): (r: Option<DagNode>)
    ensures r.Some? <==> nodeName in g.nodeMap
    ensures r.Some? ==> r.value == g.nodeMap[nodeName]
  {
    if nodeName in g.nodeMap then Some(g.nodeMap[nodeName]) else None
  }

  /** `getStartNode`: the table's entry for the start node's reserved name. */
  function GetStartNode(g: DagGraph): (r: Option<DagNode>)
    ensures r.Some? <==> START_NODE_NAME in g.nodeMap
    ensures r.Some? ==> r.value == g.nodeMap[START_NODE_NAME]
  {
    GetNode(g, START_NODE_NAME)
  }

  /** `getEndNode`: the table's entry for the end node's reserved name. */
  function GetEndNode(g: DagGraph): (r: Option<DagNode>)
    ensures r.Some? <==> END_NODE_NAME in g.nodeMap
    ensures r.Some? ==> r.value == g.nodeMap[END_NODE_NAME]
  {
    GetNode(g, END_NODE_NAME)
  }

  /** `getNodeInDegree`: a copy of the in-degree table; in a graph whose
      tables agree, one entry per node giving its number of predecessors. */
  function GetNodeInDegree(g: DagGraph): (r: map<string, int>)
    ensures Runnable(g) ==> r.Keys == g.graph.nodes
    ensures Runnable(g) ==> forall v :: v in r ==> r[v] == |Pred(g.graph, v)|
  {
    g.inDegree
  }

  /** The names of `getSuccessorNodes(nodeName)`, read from the frozen
      edge set, for a node of the graph (the engines ask for no other). */
  function SuccessorNames(g: DagGraph, nodeName: string): (r: set<string>)
    ensures forall w :: w in r <==> (nodeName, w) in g.graph.weights
  {
    Succ(g.graph, nodeName)
  }

  /** `getSuccessorNodes`: the edge set rejects a name that is not one of
      its nodes, as Guava's `successors` does; otherwise each successor
      name is looked up in the node table. */
  function GetSuccessorNodes(g: DagGraph, nodeName: string): (r: Result<set<Option<DagNode>>>)
    ensures r.Err? <==> nodeName !in g.graph.nodes
    ensures r.Err? ==> r.error == IllegalArgument("Node " + nodeName + " is not an element of this graph.")
    ensures r.Ok? ==> forall w :: w in SuccessorNames(g, nodeName) ==> GetNode(g, w) in r.value
    ensures r.Ok? ==> forall x :: x in r.value ==> exists w :: w in SuccessorNames(g, nodeName) && x == GetNode(g, w)
  {
    if nodeName !in g.graph.nodes then Err(IllegalArgument("Node " + nodeName + " is not an element of this graph."))
    else Ok(set w | w in SuccessorNames(g, nodeName) :: GetNode(g, w))
  }

  /** Changing the dependency map of a node in the table (as
      `addDependency`/`removeDependency` on a node object would) leaves
      every successor set as it was: successors come from the edge set. */
  lemma SuccessorsIgnoreNodeDependencies(g: DagGraph, k: string, deps: map<string, DependencyType>, x: string)
    requires k in g.nodeMap
    ensures SuccessorNames(g.(nodeMap := g.nodeMap[k := g.nodeMap[k].(deps := deps)]), x) == SuccessorNames(g, x)
  {
  }

  /** The dependency type of each outgoing edge, decoded from the edge value
      (the builder stores the type code there). */
  function SuccessorTypes(g: DagGraph, nodeName: string): (r: map<string, Option<DependencyType>>)
    ensures r.Keys == SuccessorNames(g, nodeName)
    ensures forall w :: w in r ==> r[w] == CodeOf(g.graph.weights[(nodeName, w)])
  {
    map w | w in SuccessorNames(g, nodeName) :: CodeOf(g.graph.weights[(nodeName, w)])
  }

  /** Some outgoing edge of the node is STRONG. */
  predicate HasStrongSuccessor(g: DagGraph, nodeName: string): (r: bool)
    ensures r <==> exists w :: (nodeName, w) in g.graph.weights && g.graph.weights[(nodeName, w)] == Strong.Code()
  {
    var t := SuccessorTypes(g, nodeName);
    var b := exists w :: w in t && t[w] == Some(Strong);
    assert b ==> exists w :: (nodeName, w) in g.graph.weights && g.graph.weights[(nodeName, w)] == Strong.Code();
    assert (exists w :: (nodeName, w) in g.graph.weights && g.graph.weights[(nodeName, w)] == Strong.Code()) ==> b by {
      if w :| (nodeName, w) in g.graph.weights && g.graph.weights[(nodeName, w)] == Strong.Code() {
        assert w in t && t[w] == Some(Strong);
      }
    }
    b
  }

  /** `timeout()`: `DefaultDagGraph` does not override the interface
      default, so the stored timeout is never reported. */
  function Timeout(g: DagGraph): (r: Option<int>)
    ensures r.None?
  {
    None
  }

  /** The tables of a graph agree with each other, as in every graph the
      builder produces: the node table and the in-degree table cover the
      edge set's nodes, the in-degrees count predecessors, and the start
      node has none. */
  predicate Runnable(g: DagGraph)
  {
    && WellFormed(g.graph)
    && g.nodeMap.Keys == g.graph.nodes
    && g.inDegree.Keys == g.graph.nodes
    && (forall v :: v in g.inDegree ==> g.inDegree[v] == |Pred(g.graph, v)|)
    && START_NODE_NAME in g.graph.nodes
    && Pred(g.graph, START_NODE_NAME) == {}
  }

  /** The engines' graph timeout test: a positive timeout strictly below
      the elapsed time. */
  predicate GraphTimedOut(limit: Option<int>, elapsed: int)
  {
    limit.Some? && limit.value > 0 && limit.value < elapsed
  }
}
