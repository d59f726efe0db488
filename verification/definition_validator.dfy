/** Graph definitions as a configuration reader produces them, and
    `DefinitionValidator`, which rejects a definition missing a name, its
    nodes, or a way to do a node's work. Every field of a definition may
    be null. */
module DefinitionValidation {
  import opened Wrappers

  /** `DagNodeDefinition`: the node's name and timeout, the names it
      depends on (a set, given here in its iteration order), the name of a
      registered handler, and the condition and action expressions. */
  datatype NodeDefinition = NodeDefinition(nodeName: Option<string>, timeout: Option<int>,
                                           dependsOn: Option<seq<string>>, handler: Option<string>,
                                           conditions: Option<seq<string>>, actions: Option<seq<string>>)

  /** `GraphDefinition`. */
  datatype GraphDefinition = GraphDefinition(graphName: Option<string>, timeout: Option<int>,
                                             nodes: Option<seq<NodeDefinition>>)

  /** `StringUtils.isEmpty`: null or of length 0. */
  predicate EmptyText(s: Option<string>)
  {
    s.None? || s.value == ""
  }

  /** `CollectionUtils.isEmpty`: null or without elements. */
  predicate EmptyList<T>(xs: Option<seq<T>>)
  {
    xs.None? || xs.value == []
  }

  const EMPTY_NODE_NAME: string := "DagNode name cannot be empty"
  const EMPTY_NODE_WORK: string := "DagNode handler or actions cannot be empty"
  const EMPTY_GRAPH_NAME: string := "Graph name cannot be empty"
  const EMPTY_GRAPH_NODES: string := "Graph nodes cannot be empty"

  /** `checkNodeDefinition`: the name is checked first, then that a handler
      or at least one action is given. */
  function CheckNodeDefinition(d: NodeDefinition): (r: Result<()>)
    ensures EmptyText(d.nodeName) ==> r == Err(GraphRead(EMPTY_NODE_NAME))
    ensures !EmptyText(d.nodeName) && EmptyText(d.handler) && EmptyList(d.actions) ==>
              r == Err(GraphRead(EMPTY_NODE_WORK))
    ensures r.Err? ==> r.error.GraphRead?
  {
    if EmptyText(d.nodeName) then Err(GraphRead(EMPTY_NODE_NAME))
    else if EmptyText(d.handler) && EmptyList(d.actions) then Err(GraphRead(EMPTY_NODE_WORK))
    else Ok(())
  }

  /** What a node definition needs to pass: a name, and a handler or
      actions (either one is enough). */
  predicate NodeAcceptable(d: NodeDefinition)
  {
    && d.nodeName.Some? && |d.nodeName.value| > 0
    && ((d.handler.Some? && |d.handler.value| > 0) || (d.actions.Some? && |d.actions.value| > 0))
  }

  /** The validator accepts exactly the acceptable node definitions. */
  lemma NodeCheckMeansAcceptable(d: NodeDefinition)
    ensures CheckNodeDefinition(d).Ok? <==> NodeAcceptable(d)
  {
  }

  /** `checkGraphDefinition`: the name, then the node list, then every node
      in list order; the first failing check's exception escapes. */
  method CheckGraphDefinition(d: GraphDefinition) returns (r: Result<()>)
    ensures EmptyText(d.graphName) ==> r == Err(GraphRead(EMPTY_GRAPH_NAME))
    ensures !EmptyText(d.graphName) && EmptyList(d.nodes) ==> r == Err(GraphRead(EMPTY_GRAPH_NODES))
    ensures r.Ok? <==> && !EmptyText(d.graphName) && !EmptyList(d.nodes)
                       && forall i :: 0 <= i < |d.nodes.value| ==> NodeAcceptable(d.nodes.value[i])
    ensures r.Err? && !EmptyText(d.graphName) && !EmptyList(d.nodes) ==>
              exists i :: && 0 <= i < |d.nodes.value| && r == CheckNodeDefinition(d.nodes.value[i])
                          && forall j :: 0 <= j < i ==> NodeAcceptable(d.nodes.value[j])
  {
    if EmptyText(d.graphName) {
      return Err(GraphRead(EMPTY_GRAPH_NAME));
    }
    if EmptyList(d.nodes) {
      return Err(GraphRead(EMPTY_GRAPH_NODES));
    }
    var nodes := d.nodes.value;
    var i := 0;
    while i < |nodes|
      invariant 0 <= i <= |nodes|
      invariant forall j :: 0 <= j < i ==> NodeAcceptable(nodes[j])
    {
      var c := CheckNodeDefinition(nodes[i]);
      NodeCheckMeansAcceptable(nodes[i]);
      if c.Err? {
        return c;
      }
      i := i + 1;
    }
    return Ok(());
  }
}
