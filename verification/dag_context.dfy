/** Values stored in a run's context, and the node result record. */
module Values {
  import opened Wrappers
  import opened States

  /** An object held by the context: a user object (opaque, told apart by
      `id`) or a node result recorded by an engine. */
  datatype Value = Opaque(id: int) | NodeResultValue(nodeResult: NodeResult)

  /** `NodeResult`: the outcome of one node in one run. `state` is `None`
      where the source leaves the field `null`. */
  datatype NodeResult = NodeResult(nodeName: string, state: Option<NodeState>,
                                   result: Option<Value>, throwable: Option<Throwable>)

  /** `getAttribute` of a node's or a graph's attribute table (both keep
      it in a `ConcurrentHashMap`): a null key is rejected; an absent key
      reads null. `owner` names the table's owner in the error message. */
  function GetAttribute(attrs: map<string, Value>, key: Option<string>, owner: string): (r: Result<Option<Value>>)
    ensures r.Ok? <==> key.Some?
    ensures r.Err? ==> r.error == NullPointer(owner + " attribute key must not be null")
    ensures r.Ok? ==> (r.value.Some? <==> key.value in attrs)
    ensures r.Ok? && r.value.Some? ==> r.value.value == attrs[key.value]
  {
    var k :- RequireNonNull(key, owner + " attribute key must not be null");
    Ok(if k in attrs then Some(attrs[k]) else None)
  }

  /** `setAttribute`: a null key or value is rejected; afterwards the key
      reads back the value and every other key reads as before. */
  function SetAttribute(attrs: map<string, Value>, key: Option<string>, value: Option<Value>,
                        owner: string): (r: Result<map<string, Value>>)
    ensures r.Ok? <==> key.Some? && value.Some?
    ensures r.Ok? ==> GetAttribute(r.value, key, owner) == Ok(value)
    ensures r.Ok? ==> forall k :: k != key.value ==> GetAttribute(r.value, Some(k), owner) == GetAttribute(attrs, Some(k), owner)
  {
    var k :- RequireNonNull(key, owner + " attribute key must not be null");
    var v :- RequireNonNull(value, owner + " attribute value must not be null");
    Ok(attrs[k := v])
  }

  /** `removeAttribute`: a null key is rejected; afterwards the key reads
      null and every other key reads as before. */
  function RemoveAttribute(attrs: map<string, Value>, key: Option<string>, owner: string): (r: Result<map<string, Value>>)
    ensures r.Ok? <==> key.Some?
    ensures r.Ok? ==> GetAttribute(r.value, key, owner) == Ok(None)
    ensures r.Ok? ==> forall k :: k != key.value ==> GetAttribute(r.value, Some(k), owner) == GetAttribute(attrs, Some(k), owner)
  {
    var k :- RequireNonNull(key, owner + " attribute key must not be null");
    Ok(attrs - {k})
  }
}

/** The per-run key/value store (`DagContext` with its default methods,
    implemented by `ConcurrentDagContext`). Node results live under keys
    with a reserved prefix; the caller's object under a reserved key. */
module Contexts {
  import opened Wrappers
  import opened Values

  const NODE_RESULT_PREFIX: string := "#NODE_RESULT#"
  const USER_CONTEXT: string := "#USER_CONTEXT#"

  /** The backing map holds neither null keys nor null values. */
  datatype DagContext = DagContext(entries: map<string, Value>)

  /** `get`: the value under `key`, or `None` (Java `null`) when absent. */
  function Get(c: DagContext, key: string): Option<Value>
  {
    if key in c.entries then Some(c.entries[key]) else None
  }

  /** The constructor: the user object is stored under `USER_CONTEXT` only
      when it is not null. */
  function NewContext(user: Option<Value>): (c: DagContext)
    ensures GetContext(c) == user
    ensures forall k :: k != USER_CONTEXT ==> Get(c, k) == None
  {
    match user
    case Some(v) => DagContext(map[USER_CONTEXT := v])
    case None => DagContext(map[])
  }

  /** `put`: rejects a null key, then a null value; otherwise stores the
      value and returns the value previously under the key. */
  function Put(c: DagContext, key: Option<string>, value: Option<Value>): (r: Result<(DagContext, Option<Value>)>)
    ensures r.Ok? <==> key.Some? && value.Some?
    ensures key.None? ==> r == Err(NullPointer("key must not null"))
    ensures key.Some? && value.None? ==> r == Err(NullPointer("value must not null"))
    ensures r.Ok? ==> Get(r.value.0, key.value) == value && r.value.1 == Get(c, key.value)
    ensures r.Ok? ==> forall k :: k != key.value ==> Get(r.value.0, k) == Get(c, k)
  {
    var k :- RequireNonNull(key, "key must not null");
    var v :- RequireNonNull(value, "value must not null");
    Ok((DagContext(c.entries[k := v]), Get(c, k)))
  }

  /** `get` as callers see it: the backing `ConcurrentHashMap` throws a
      messageless NPE on a null key; otherwise the value under the key,
      `None` when absent. `Get` is the same read for a key known not to
      be null. */
  function Lookup(c: DagContext, key: Option<string>): (r: Result<Option<Value>>)
    ensures r.Err? <==> key.None?
    ensures r.Err? ==> r.error == NullPointer("")
    ensures r.Ok? ==> (r.value.Some? <==> key.value in c.entries)
    ensures r.Ok? && r.value.Some? ==> r.value.value == c.entries[key.value]
  {
    var k :- RequireNonNull(key, "");
    Ok(Get(c, k))
  }

  /** `remove`: the backing map throws a messageless NPE on a null key;
      otherwise the key is deleted and the value it held is returned. */
  function Remove(c: DagContext, key: Option<string>): (r: Result<(DagContext, Option<Value>)>)
    ensures r.Err? <==> key.None?
    ensures r.Err? ==> r.error == NullPointer("")
    ensures r.Ok? ==> r.value.1 == Get(c, key.value)
    ensures r.Ok? ==> Get(r.value.0, key.value) == None
    ensures r.Ok? ==> forall k :: k != key.value ==> Get(r.value.0, k) == Get(c, k)
  {
    var k :- RequireNonNull(key, "");
    Ok((DagContext(c.entries - {k}), Get(c, k)))
  }

  /** `asMap`: a snapshot of the current contents. */
  function AsMap(c: DagContext): (m: map<string, Value>)
    ensures forall k :: Get(c, k) == (if k in m then Some(m[k]) else None)
  {
    c.entries
  }

  /** The key under which a node's result is stored. */
  function NodeResultKey(nodeName: string): string
  {
    NODE_RESULT_PREFIX + nodeName
  }

  /** `getNodeResult`: the result stored for the node, `None` when absent;
      a non-result value under that key makes the cast fail. */
  function GetNodeResult(c: DagContext, nodeName: string): (r: Result<Option<NodeResult>>)
    ensures Get(c, NodeResultKey(nodeName)).None? ==> r == Ok(None)
    ensures r.Ok? && r.value.Some? ==> Get(c, NodeResultKey(nodeName)) == Some(NodeResultValue(r.value.value))
    ensures r.Err? <==> Get(c, NodeResultKey(nodeName)).Some? && !Get(c, NodeResultKey(nodeName)).value.NodeResultValue?
  {
    match Get(c, NodeResultKey(nodeName))
    case None => Ok(None)
    case Some(NodeResultValue(nr)) => Ok(Some(nr))
    case Some(_) => Err(ClassCast)
  }

  /** `getContext`: the caller's object. */
  function GetContext(c: DagContext): Option<Value>
  {
    Get(c, USER_CONTEXT)
  }

  /** `putNodeResult`: rejects a null name or result, then stores the result
      under the node's reserved key. The result can be read back, the
      caller's object and every other node's result are unchanged. */
  function PutNodeResult(c: DagContext, nodeName: Option<string>, result: Option<NodeResult>): (r: Result<DagContext>)
    ensures r.Ok? <==> nodeName.Some? && result.Some?
    ensures r.Ok? ==> GetNodeResult(r.value, nodeName.value) == Ok(Some(result.value))
    ensures r.Ok? ==> GetContext(r.value) == GetContext(c)
    ensures r.Ok? ==> forall n :: n != nodeName.value ==> GetNodeResult(r.value, n) == GetNodeResult(c, n)
  {
    var n :- RequireNonNull(nodeName, "nodeName must not null");
    var nr :- RequireNonNull(result, "nodeResult must not null");
    NodeResultKeyNotUserContext(n);
    forall m | m != n
      ensures NodeResultKey(m) != NodeResultKey(n)
    {
      NodeResultKeyInjective(m, n);
    }
    var (c', _) := Put(c, Some(NodeResultKey(n)), Some(NodeResultValue(nr))).value;
    Ok(c')
  }

  /** No node-result key is the user-context key: the second characters differ. */
  lemma NodeResultKeyNotUserContext(nodeName: string)
    ensures NodeResultKey(nodeName) != USER_CONTEXT
  {
    assert NodeResultKey(nodeName)[1] == 'N';
    assert USER_CONTEXT[1] == 'U';
  }

  /** Distinct node names have distinct result keys. */
  lemma NodeResultKeyInjective(a: string, b: string)
    ensures NodeResultKey(a) == NodeResultKey(b) ==> a == b
  {
    if NodeResultKey(a) == NodeResultKey(b) {
      assert a == NodeResultKey(a)[|NODE_RESULT_PREFIX|..];
      assert b == NodeResultKey(b)[|NODE_RESULT_PREFIX|..];
    }
  }

  /** Storing then reading a node result gives it back, for every context. */
  lemma NodeResultRoundTrip(c: DagContext, nodeName: string, result: NodeResult)
    ensures PutNodeResult(c, Some(nodeName), Some(result)).Ok?
    ensures GetNodeResult(PutNodeResult(c, Some(nodeName), Some(result)).value, nodeName) == Ok(Some(result))
  {
  }

  /** Removing a key after putting it under a fresh key restores the
      context, and `get` then reads null there. */
  lemma PutThenRemove(c: DagContext, key: string, value: Value)
    requires Get(c, key).None?
    ensures Put(c, Some(key), Some(value)).Ok?
    ensures var c' := Put(c, Some(key), Some(value)).value.0;
            && Remove(c', Some(key)) == Ok((c, Some(value)))
            && Lookup(Remove(c', Some(key)).value.0, Some(key)) == Ok(None)
  {
    var c' := Put(c, Some(key), Some(value)).value.0;
    assert Remove(c', Some(key)).value.0.entries == c.entries;
  }
}
