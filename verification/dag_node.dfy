/** `DefaultDagNode` and its builder: a named node with an optional handler,
    a dependency map from predecessor name to dependency type, an optional
    own timeout and a string-keyed attribute table. */
module Nodes {
  import opened Wrappers
  import opened DependencyTypes
  import opened Values
  import opened Handlers

  datatype DagNode = DagNode(name: string, handler: Option<Handler>, deps: map<string, DependencyType>,
                             timeout: Option<int>, attributes: map<string, Value>)

  /** The constructor: rejects a null name; a null dependency map means no
      dependencies, otherwise the map is copied. */
  function NewNode(name: Option<string>, handler: Option<Handler>, deps: Option<map<string, DependencyType>>,
                   timeout: Option<int>): (r: Result<DagNode>)
    ensures r.Ok? <==> name.Some?
    ensures r.Err? ==> r.error == NullPointer("node name must not be null")
    ensures r.Ok? ==> r.value.name == name.value && r.value.handler == handler && r.value.timeout == timeout
    ensures r.Ok? ==> r.value.deps == (if deps.None? then map[] else deps.value)
    ensures r.Ok? ==> r.value.attributes == map[]
  {
    var n :- RequireNonNull(name, "node name must not be null");
    Ok(DagNode(n, handler, deps.GetOr(map[]), timeout, map[]))
  }

  /** `addDependency(type, name)`: rejects nulls, then sets or overwrites the
      type recorded for that name; no other dependency changes. */
  function AddDependency(n: DagNode, t: Option<DependencyType>, depName: Option<string>): (r: Result<DagNode>)
    ensures r.Ok? <==> t.Some? && depName.Some?
    ensures r.Err? ==> r.error.NullPointer?
    ensures r.Ok? ==> depName.value in r.value.deps && r.value.deps[depName.value] == t.value
    ensures r.Ok? ==> forall k :: k != depName.value ==>
                        (k in r.value.deps <==> k in n.deps) && (k in n.deps ==> r.value.deps[k] == n.deps[k])
    ensures r.Ok? ==> r.value.(deps := n.deps) == n
  {
    var ty :- RequireNonNull(t, "depend type must not be null");
    var d :- RequireNonNull(depName, "node name must not be null");
    Ok(n.(deps := n.deps[d := ty]))
  }

  /** `DagNode.addDependency(name)`: the interface default records STRONG. */
  function AddStrongDependency(n: DagNode, depName: Option<string>): (r: Result<DagNode>)
    ensures r.Ok? <==> depName.Some?
    ensures r.Ok? ==> r.value.deps == n.deps[depName.value := Strong]
  {
    AddDependency(n, Some(Strong), depName)
  }

  /** `removeDependency(name)`: rejects a null name, then removes only that name. */
  function RemoveDependency(n: DagNode, depName: Option<string>): (r: Result<DagNode>)
    ensures r.Ok? <==> depName.Some?
    ensures r.Ok? ==> depName.value !in r.value.deps
    ensures r.Ok? ==> forall k :: k != depName.value ==>
                        (k in r.value.deps <==> k in n.deps) && (k in n.deps ==> r.value.deps[k] == n.deps[k])
    ensures r.Ok? ==> r.value.(deps := n.deps) == n
  {
    var d :- RequireNonNull(depName, "node name must not be null");
    Ok(n.(deps := n.deps - {d}))
  }

  /** Adding a dependency that was absent and removing it again gives the
      node back unchanged. */
  lemma AddThenRemove(n: DagNode, t: DependencyType, depName: string)
    requires depName !in n.deps
    ensures AddDependency(n, Some(t), Some(depName)).Ok?
    ensures RemoveDependency(AddDependency(n, Some(t), Some(depName)).value, Some(depName)) == Ok(n)
  {
    assert (n.deps[depName := t] - {depName}) == n.deps;
  }

  /** `dependNodeTypeMap`: a copy of the dependency map, keyed by exactly
      the names `dependNodeNames` reports. */
  function DependNodeTypeMap(n: DagNode): (r: map<string, DependencyType>)
    ensures r.Keys == DependNodeNames(n)
    ensures forall d :: d in r ==> r[d] == n.deps[d]
  {
    n.deps
  }

  /** `dependNodeNames`: a copy of the dependency names, the same set as the
      keys of `dependNodeTypeMap`. */
  function DependNodeNames(n: DagNode): (r: set<string>)
    ensures forall d :: d in r <==> d in n.deps
  {
    set d | d in n.deps
  }

  /** `timeout()`: the node's own timeout when it is positive, otherwise the
      handler's timeout; a node without a handler then throws
      `NullPointerException`. */
  function NodeTimeout(n: DagNode): (r: Result<Option<int>>)
    ensures n.timeout.Some? && n.timeout.value > 0 ==> r == Ok(n.timeout)
    ensures !(n.timeout.Some? && n.timeout.value > 0) ==>
              (r.Err? <==> n.handler.None?) && (r.Ok? ==> r.value == n.handler.value.timeout)
  {
    if n.timeout.Some? && n.timeout.value > 0 then Ok(n.timeout)
    else if n.handler.None? then Err(NullPointer(""))
    else Ok(n.handler.value.timeout)
  }

  /** `DefaultDagNode.Builder`. Its attribute table is a plain `HashMap`,
      which accepts null values. */
  datatype NodeBuilder = NodeBuilder(name: Option<string>, handler: Option<Handler>,
                                     deps: map<string, DependencyType>, timeout: Option<int>,
                                     attributes: map<string, Option<Value>>)

  const EmptyNodeBuilder := NodeBuilder(None, None, map[], None, map[])

  /** `dependOn(type, names...)`: records `t` for every listed name, later
      writes overwriting earlier ones; unlisted names keep their type. */
  function DependOnType(b: NodeBuilder, t: DependencyType, names: seq<string>): (r: NodeBuilder)
    ensures r.deps.Keys == b.deps.Keys + set i | 0 <= i < |names| :: names[i]
    ensures forall i :: 0 <= i < |names| ==> r.deps[names[i]] == t
    ensures forall k :: k in b.deps && k !in names ==> r.deps[k] == b.deps[k]
    ensures r.(deps := b.deps) == b
    decreases |names|
  {
    if names == [] then b
    else
      var r := DependOnType(b.(deps := b.deps[names[0] := t]), t, names[1..]);
      assert forall i :: 1 <= i < |names| ==> names[i] == names[1..][i - 1];
      r
  }

  /** `dependOn(names...)`: the same with STRONG. */
  function DependOn(b: NodeBuilder, names: seq<string>): (r: NodeBuilder)
    ensures r.deps.Keys == b.deps.Keys + set i | 0 <= i < |names| :: names[i]
    ensures forall i :: 0 <= i < |names| ==> r.deps[names[i]] == Strong
  {
    DependOnType(b, Strong, names)
  }

  /** The last `dependOn` call that names a dependency decides its type. */
  lemma LastDependOnWins(b: NodeBuilder, t: DependencyType, u: DependencyType, name: string)
    ensures DependOnType(DependOnType(b, t, [name]), u, [name]).deps[name] == u
  {
  }

  /** `Builder.attribute`: the builder's `HashMap` takes the value, null
      included, and keeps every other entry and field. */
  function WithAttribute(b: NodeBuilder, key: string, value: Option<Value>): (r: NodeBuilder)
    ensures key in r.attributes && r.attributes[key] == value
    ensures forall k :: k != key ==> (k in r.attributes <==> k in b.attributes)
                                     && (k in b.attributes ==> r.attributes[k] == b.attributes[k])
    ensures r.(attributes := b.attributes) == b
  {
    b.(attributes := b.attributes[key := value])
  }

  /** `Builder.build`: constructs the node, then copies every builder
      attribute onto it; a null name or a null attribute value throws. */
  function BuildNode(b: NodeBuilder): (r: Result<DagNode>)
    ensures r.Ok? <==> b.name.Some? && forall k :: k in b.attributes ==> b.attributes[k].Some?
    ensures r.Ok? ==> r.value.name == b.name.value && r.value.handler == b.handler
                      && r.value.deps == b.deps && r.value.timeout == b.timeout
    ensures r.Ok? ==> r.value.attributes.Keys == b.attributes.Keys
                      && forall k :: k in b.attributes ==> Some(r.value.attributes[k]) == b.attributes[k]
  {
    var n :- NewNode(b.name, b.handler, Some(b.deps), b.timeout);
    if forall k :: k in b.attributes ==> b.attributes[k].Some? then
      Ok(n.(attributes := map k | k in b.attributes :: b.attributes[k].value))
    else
      Err(NullPointer("dag node attribute value must not be null"))
  }

  /** A null attribute value is accepted by the builder but makes `build`
      throw, and a non-null one carries over to the built node. */
  lemma AttributeReachesNode(b: NodeBuilder, key: string, value: Option<Value>)
    requires b.name.Some? && forall k :: k in b.attributes ==> b.attributes[k].Some?
    ensures value.None? ==> BuildNode(WithAttribute(b, key, value)).Err?
    ensures value.Some? ==> && BuildNode(WithAttribute(b, key, value)).Ok?
                            && key in BuildNode(WithAttribute(b, key, value)).value.attributes
                            && BuildNode(WithAttribute(b, key, value)).value.attributes[key] == value.value
  {
  }
}
