/** `SingleThreadDagEngine`'s `DagExecutor`: one run executed on the
    caller's thread by plain recursion. A node is executed as soon as it is
    fired, its successors' counters are lowered, and each successor whose
    counter reached 0 is fired in list order, depth first. Its guards are
    weaker than the concurrent engine's: the run state is overwritten
    without a first-writer check, counters drop even after the run has
    ended, and any node result other than SUCCEEDED fails the run. */
module SingleThreadEngine {
  import opened Wrappers
  import opened States
  import opened Values
  import opened Contexts
  import opened Handlers
  import opened Nodes
  import opened Digraphs
  import opened DagGraphs

  const NEGATIVE_IN_DEGREE: string := "inDegree could not be less than 0"

  /** Which `executeNode` a run uses: the one of the source, which calls
      the handler without a null check, or the corrected one, which lets a
      node without a handler succeed with a null result as the concurrent
      engine's invoker does. */
  datatype Revision = AsWritten | NullHandlerSucceeds

  /** What a run cannot compute itself: the user code, the elapsed time
      read at the k-th timeout check, and the order of each node's
      successor list. */
  datatype Env = Env(code: UserCode, clock: nat -> int, order: string -> seq<string>)

  /** The executor's fields. A node's state is `None` when its result
      carried no state (its guard answered false). `checks` counts the
      timeout checks made so far, to index the clock. */
  datatype Run = Run(graph: DagGraph, limit: Option<int>, dag: DagState, throwable: Option<Throwable>,
                     nodes: map<string, Option<NodeState>>, counters: map<string, int>, ctx: DagContext,
                     checks: nat)

  /** The constructor followed by the first half of `start`: every node
      WAITING, the counters a copy of the in-degrees, the run RUNNING. */
  function Init(g: DagGraph, user: Option<Value>, limit: Option<int>): (s: Run)
    ensures s.dag == DagRunning && s.throwable.None? && s.checks == 0
    ensures s.nodes.Keys == g.nodeMap.Keys && forall v :: v in s.nodes ==> s.nodes[v] == Some(Waiting)
    ensures s.counters == g.inDegree && GetContext(s.ctx) == user
  {
    Run(g, limit, DagRunning, None, map v | v in g.nodeMap :: Some(Waiting), g.inDegree, NewContext(user), 0)
  }

  /** The nodes still WAITING. */
  function WaitingSet(nodes: map<string, Option<NodeState>>): (w: set<string>)
    ensures forall v :: v in w <==> v in nodes && nodes[v] == Some(Waiting)
  {
    set v | v in nodes && nodes[v] == Some(Waiting)
  }

  /** The node table and the state table name the same nodes. */
  predicate Wf(s: Run)
  {
    s.nodes.Keys == s.graph.nodeMap.Keys
  }

  /** `executeNode`. A guard that answers true and an action that returns
      give SUCCEEDED with the value; a guard that answers false leaves the
      state unset; an exception from either gives FAILED with it. As
      written, a node without a handler throws `NullPointerException`
      inside the `try` and so ends FAILED. */
  function ExecuteNode(node: DagNode, ctx: DagContext, code: UserCode, rev: Revision): (c: NodeResult)
    ensures c.nodeName == node.name
    ensures c.state != Some(Waiting) && c.state != Some(Running) && c.state != Some(NodeTimeout)
    ensures c.state == Some(Succeeded) <==>
              || (node.handler.None? && rev == NullHandlerSucceeds)
              || (node.handler.Some? && Evaluate(node.handler.value, node.name, ctx, code) == Ok(true)
                  && Execute(node.handler.value, node.name, ctx, code).Returned?)
    ensures c.state.None? <==> node.handler.Some? && Evaluate(node.handler.value, node.name, ctx, code) == Ok(false)
    ensures c.state == Some(NodeFailed) ==> c.throwable.Some?
    ensures node.handler.None? && rev == AsWritten ==> c.throwable == Some(NullPointer(""))
  {
    match node.handler
    case None =>
      (match rev
       case AsWritten => NodeResult(node.name, Some(NodeFailed), None, Some(NullPointer("")))
       case NullHandlerSucceeds => NodeResult(node.name, Some(Succeeded), None, None))
    case Some(h) =>
      match Evaluate(h, node.name, ctx, code)
      case Err(e) => NodeResult(node.name, Some(NodeFailed), None, Some(e))
      case Ok(pass) =>
        if !pass then NodeResult(node.name, None, None, None)
        else
          match Execute(h, node.name, ctx, code)
          case Returned(v) => NodeResult(node.name, Some(Succeeded), v, None)
          case Threw(e) => NodeResult(node.name, Some(NodeFailed), None, Some(e))
  }

  /** `checkTimeout`: with a positive timeout strictly below the elapsed
      time the run becomes TIMEOUT, whatever it was. */
  function CheckTimeout(s: Run, env: Env): (r: Run)
    ensures r.checks == s.checks + 1
    ensures GraphTimedOut(s.limit, env.clock(s.checks)) ==>
              r.dag == DagTimeout && r.throwable == Some(Timeout(s.graph.graphName))
    ensures !GraphTimedOut(s.limit, env.clock(s.checks)) ==> r.dag == s.dag && r.throwable == s.throwable
    ensures r.(checks := s.checks, dag := s.dag, throwable := s.throwable) == s
  {
    var s1 := s.(checks := s.checks + 1);
    if GraphTimedOut(s.limit, env.clock(s.checks)) then
      s1.(dag := DagTimeout, throwable := Some(Timeout(s.graph.graphName)))
    else s1
  }

  /** `decrementSuccessorInDegree`: every listed name's counter drops by
      one per occurrence; a name without a counter makes the unboxing
      throw `NullPointerException`. */
  function DecrementAll(counters: map<string, int>, succ: seq<string>): (r: Result<map<string, int>>)
    ensures r.Ok? <==> forall i :: 0 <= i < |succ| ==> succ[i] in counters
    ensures r.Err? ==> r.error.NullPointer?
    ensures r.Ok? ==> r.value.Keys == counters.Keys
    ensures r.Ok? ==> forall v :: v in counters ==> r.value[v] == counters[v] - multiset(succ)[v]
    decreases |succ|
  {
    if succ == [] then Ok(counters)
    else if succ[0] !in counters then Err(NullPointer(""))
    else
      var rest :- DecrementAll(counters[succ[0] := counters[succ[0]] - 1], succ[1..]);
      assert succ == [succ[0]] + succ[1..];
      assert forall i :: 1 <= i < |succ| ==> succ[i] == succ[1..][i - 1];
      Ok(rest)
  }

  /** From `s` to `r` the tables keep their nodes, no node becomes WAITING
      again, and a node that has left WAITING keeps its state. */
  predicate Follows(s: Run, r: Run)
  {
    && r.graph == s.graph && r.limit == s.limit
    && r.nodes.Keys == s.nodes.Keys
    && WaitingSet(r.nodes) <= WaitingSet(s.nodes)
    && (forall v :: v in s.nodes && s.nodes[v] != Some(Waiting) ==> r.nodes[v] == s.nodes[v])
  }

  /** A node with a handler whose result was FAILED or carried no state. */
  predicate Culprit(s: Run, v: string)
  {
    && v in s.nodes && v in s.graph.nodeMap
    && s.graph.nodeMap[v].handler.Some?
    && (s.nodes[v] == None || s.nodes[v] == Some(NodeFailed))
  }

  /** A FAILED run has a culprit. */
  ghost predicate Blamed(s: Run)
  {
    s.dag == Failed ==> exists v :: Culprit(s, v)
  }

  lemma Finished(nodes: map<string, Option<NodeState>>, n: string, st: Option<NodeState>)
    requires n in nodes && nodes[n] == Some(Waiting) && st != Some(Waiting)
    ensures |WaitingSet(nodes[n := st])| < |WaitingSet(nodes)|
  {
    assert WaitingSet(nodes[n := st]) == WaitingSet(nodes) - {n};
  }

  /** The state after `executeNode`: its throwable, the node's state and
      result recorded, and the run FAILED unless the node SUCCEEDED. */
  function Record(s: Run, n: string, c: NodeResult): (r: Run)
    requires n in s.nodes
    ensures r.graph == s.graph && r.limit == s.limit && r.counters == s.counters && r.checks == s.checks
    ensures r.nodes == s.nodes[n := c.state] && r.throwable == c.throwable
    ensures GetNodeResult(r.ctx, n) == Ok(Some(c))
    ensures c.state != Some(Succeeded) ==> r.dag == Failed
    ensures c.state == Some(Succeeded) ==> r.dag == s.dag
  {
    var ctx := PutNodeResult(s.ctx, Some(n), Some(c)).value;
    var s1 := s.(throwable := c.throwable, nodes := s.nodes[n := c.state], ctx := ctx);
    if c.state != Some(Succeeded) then s1.(dag := Failed) else s1
  }

  /** With the corrected `executeNode`, recording a result that fails a
      RUNNING run leaves the node to blame. */
  lemma RecordBlames(s: Run, n: string, code: UserCode, rev: Revision)
    requires n in s.nodes && n in s.graph.nodeMap && s.dag == DagRunning
    ensures var r := Record(s, n, ExecuteNode(s.graph.nodeMap[n], s.ctx, code, rev));
            rev == NullHandlerSucceeds && r.dag == Failed ==> Culprit(r, n)
  {
    var c := ExecuteNode(s.graph.nodeMap[n], s.ctx, code, rev);
    var r := Record(s, n, c);
    if rev == NullHandlerSucceeds && r.dag == Failed {
      assert c.state != Some(Succeeded);
      assert r.nodes[n] == c.state;
    }
  }

  /** `fireNode` for a WAITING node: the timeout check, then, while the run
      is RUNNING, the node is executed, recorded and its successors handled.
      A run that is not RUNNING after the check is left as the check left
      it, the node still WAITING. */
  function FireNode(s: Run, n: string, env: Env, rev: Revision): (r: Result<Run>)
    requires Wf(s) && n in s.nodes && s.nodes[n] == Some(Waiting)
    ensures r.Ok? ==> Wf(r.value) && Follows(s, r.value)
    ensures r.Ok? && rev == NullHandlerSucceeds && Blamed(s) ==> Blamed(r.value)
    ensures CheckTimeout(s, env).dag != DagRunning ==> r == Ok(CheckTimeout(s, env))
    ensures r.Ok? && CheckTimeout(s, env).dag == DagRunning ==>
              r.value.nodes[n] == ExecuteNode(s.graph.nodeMap[n], s.ctx, env.code, rev).state
    decreases |WaitingSet(s.nodes)|, 0, 0
  {
    var s1 := CheckTimeout(s, env);
    assert forall v :: Culprit(s, v) ==> Culprit(s1, v);
    if s1.dag != DagRunning then Ok(s1)
    else
      var c := ExecuteNode(s.graph.nodeMap[n], s1.ctx, env.code, rev);
      var s2 := Record(s1, n, c);
      assert s2.nodes[n] != Some(Waiting);
      Finished(s.nodes, n, c.state);
      RecordBlames(s1, n, env.code, rev);
      var r := FireNext(s2, n, env, rev);
      assert r.Ok? ==> r.value.nodes[n] == c.state;
      r
  }

  /** `fireNextNode`: the end node or a node with an empty successor list
      sets the run's state to SUCCESS, whatever it was, FAILED and TIMEOUT
      included; otherwise every successor's counter drops and, while the
      run is RUNNING, the successors are visited. */
  function FireNext(s: Run, n: string, env: Env, rev: Revision): (r: Result<Run>)
    requires Wf(s)
    ensures r.Ok? ==> Wf(r.value) && Follows(s, r.value)
    ensures r.Ok? && rev == NullHandlerSucceeds && Blamed(s) ==> Blamed(r.value)
    ensures n == END_NODE_NAME || env.order(n) == [] ==> r.Ok? && r.value.dag == Succeed && r.value.(dag := s.dag) == s
    ensures n != END_NODE_NAME && env.order(n) != [] ==>
              (r.Err? && r.error.NullPointer? <== exists i :: 0 <= i < |env.order(n)| && env.order(n)[i] !in s.counters)
    ensures n != END_NODE_NAME && env.order(n) != [] && s.dag != DagRunning && r.Ok? ==>
              r.value.nodes == s.nodes && r.value.dag == s.dag && r.value.throwable == s.throwable
    decreases |WaitingSet(s.nodes)|, 2, 0
  {
    var succ := env.order(n);
    if n == END_NODE_NAME || succ == [] then Ok(s.(dag := Succeed))
    else
      var counters :- DecrementAll(s.counters, succ);
      var s1 := s.(counters := counters);
      assert forall v :: Culprit(s, v) ==> Culprit(s1, v);
      if s1.dag != DagRunning then Ok(s1)
      else FireEach(s1, succ, 0, env, rev)
  }

  /** Position `i` of the successor list names a WAITING node. */
  predicate WaitingAt(s: Run, succ: seq<string>, i: nat)
  {
    i < |succ| && succ[i] in s.nodes && s.nodes[succ[i]] == Some(Waiting)
  }

  /** The loop of `checkAndFireSuccessorNodes` from position `i`: a WAITING
      successor with counter 0 is fired, one with a negative counter
      throws, one without a counter makes the unboxing throw. The run
      state is not checked again inside the loop. */
  function FireEach(s: Run, succ: seq<string>, i: nat, env: Env, rev: Revision): (r: Result<Run>)
    requires Wf(s) && i <= |succ|
    ensures r.Ok? ==> Wf(r.value) && Follows(s, r.value)
    ensures r.Ok? && rev == NullHandlerSucceeds && Blamed(s) ==> Blamed(r.value)
    ensures WaitingAt(s, succ, i) && succ[i] in s.counters && s.counters[succ[i]] < 0 ==>
              r == Err(DagEngine(NEGATIVE_IN_DEGREE))
    ensures WaitingAt(s, succ, i) && succ[i] !in s.counters ==> r == Err(NullPointer(""))
    decreases |WaitingSet(s.nodes)|, 1, |succ| - i
  {
    if i == |succ| then Ok(s)
    else
      var v := succ[i];
      if v !in s.nodes || s.nodes[v] != Some(Waiting) then FireEach(s, succ, i + 1, env, rev)
      else if v !in s.counters then Err(NullPointer(""))
      else if s.counters[v] == 0 then
        var s1 :- FireNode(s, v, env, rev);
        SubsetCardinality(WaitingSet(s1.nodes), WaitingSet(s.nodes));
        FireEach(s1, succ, i + 1, env, rev)
      else if s.counters[v] < 0 then Err(DagEngine(NEGATIVE_IN_DEGREE))
      else FireEach(s, succ, i + 1, env, rev)
  }

  /** `fire`: the start node is fired and the executor is returned as the
      result; an exception escaping the recursion escapes `fire`. */
  function Fire(g: DagGraph, user: Option<Value>, limit: Option<int>, env: Env, rev: Revision): (r: Result<DagResult>)
    requires START_NODE_NAME in g.nodeMap
    ensures r.Ok? ==> r.value.nodeStates.Keys == g.nodeMap.Keys
  {
    var s :- FireNode(Init(g, user, limit), START_NODE_NAME, env, rev);
    Ok(DagResult(s.dag, s.throwable, s.nodes))
  }

  // What a run ends with

  /** As written, a run over a graph whose start node has no handler (no
      init consumer was given) fails at the start node: the null handler's
      `NullPointerException` makes the start node FAILED, and with the run
      no longer RUNNING no other node is executed. */
  lemma AsWrittenStartFails(g: DagGraph, user: Option<Value>, limit: Option<int>, env: Env)
    requires START_NODE_NAME in g.nodeMap && g.nodeMap[START_NODE_NAME].handler.None?
    requires !GraphTimedOut(limit, env.clock(0))
    requires env.order(START_NODE_NAME) != []
    requires forall i :: 0 <= i < |env.order(START_NODE_NAME)| ==> env.order(START_NODE_NAME)[i] in g.inDegree
    ensures Fire(g, user, limit, env, AsWritten).Ok?
    ensures var r := Fire(g, user, limit, env, AsWritten).value;
            && r.state == Failed
            && r.throwable == Some(NullPointer(""))
            && r.nodeStates[START_NODE_NAME] == Some(NodeFailed)
            && forall v :: v in r.nodeStates && v != START_NODE_NAME ==> r.nodeStates[v] == Some(Waiting)
  {
    var s0 := Init(g, user, limit);
    var s1 := CheckTimeout(s0, env);
    var c := ExecuteNode(g.nodeMap[START_NODE_NAME], s1.ctx, env.code, AsWritten);
    assert c.state == Some(NodeFailed) && c.throwable == Some(NullPointer(""));
    var s2 := Record(s1, START_NODE_NAME, c);
    assert s1.dag == DagRunning && s2.dag == Failed;
    assert FireNode(s0, START_NODE_NAME, env, AsWritten) == FireNext(s2, START_NODE_NAME, env, AsWritten);
    var counters := DecrementAll(s2.counters, env.order(START_NODE_NAME));
    assert counters.Ok?;
    assert FireNext(s2, START_NODE_NAME, env, AsWritten) == Ok(s2.(counters := counters.value));
  }

  /** With the corrected `executeNode`, the start node without a handler
      succeeds whenever the run gets to execute it. */
  lemma CorrectedStartSucceeds(g: DagGraph, user: Option<Value>, limit: Option<int>, env: Env)
    requires START_NODE_NAME in g.nodeMap && g.nodeMap[START_NODE_NAME].handler.None?
    requires !GraphTimedOut(limit, env.clock(0))
    ensures Fire(g, user, limit, env, NullHandlerSucceeds).Ok? ==>
              Fire(g, user, limit, env, NullHandlerSucceeds).value.nodeStates[START_NODE_NAME] == Some(Succeeded)
  {
    var s0 := Init(g, user, limit);
    var s1 := CheckTimeout(s0, env);
    var c := ExecuteNode(g.nodeMap[START_NODE_NAME], s1.ctx, env.code, NullHandlerSucceeds);
    var s2 := Record(s1, START_NODE_NAME, c);
    assert FireNode(s0, START_NODE_NAME, env, NullHandlerSucceeds) == FireNext(s2, START_NODE_NAME, env, NullHandlerSucceeds);
  }

  /** With the corrected `executeNode`, a FAILED run always has a node
      with a handler to blame: one whose result was FAILED or whose guard
      answered false. */
  lemma CorrectedFailureHasCause(g: DagGraph, user: Option<Value>, limit: Option<int>, env: Env)
    requires START_NODE_NAME in g.nodeMap
    ensures var r := Fire(g, user, limit, env, NullHandlerSucceeds);
            r.Ok? && r.value.state == Failed ==>
              exists v :: && v in g.nodeMap && g.nodeMap[v].handler.Some? && v in r.value.nodeStates
                          && (r.value.nodeStates[v] == None || r.value.nodeStates[v] == Some(NodeFailed))
  {
    var s0 := Init(g, user, limit);
    var r := FireNode(s0, START_NODE_NAME, env, NullHandlerSucceeds);
    if r.Ok? && r.value.dag == Failed {
      assert Blamed(r.value);
      var v :| Culprit(r.value, v);
      assert r.value.graph == g;
    }
  }

  /** Any node result other than SUCCEEDED fails the run, whatever the
      types of the node's outgoing edges: the counters still drop, but no
      successor is fired and the run ends FAILED with the node's throwable. */
  lemma AnyFailureFailsRun(s: Run, n: string, env: Env, rev: Revision)
    requires Wf(s) && n in s.nodes && s.nodes[n] == Some(Waiting) && s.dag == DagRunning
    requires !GraphTimedOut(s.limit, env.clock(s.checks))
    requires ExecuteNode(s.graph.nodeMap[n], s.ctx, env.code, rev).state != Some(Succeeded)
    requires n != END_NODE_NAME && env.order(n) != []
    requires forall i :: 0 <= i < |env.order(n)| ==> env.order(n)[i] in s.counters
    ensures FireNode(s, n, env, rev).Ok?
    ensures var r := FireNode(s, n, env, rev).value;
            var c := ExecuteNode(s.graph.nodeMap[n], s.ctx, env.code, rev);
            && r.dag == Failed && r.throwable == c.throwable
            && r.nodes == s.nodes[n := c.state]
            && r.counters.Keys == s.counters.Keys
            && forall v :: v in s.counters ==> r.counters[v] == s.counters[v] - multiset(env.order(n))[v]
  {
    var s1 := CheckTimeout(s, env);
    var c := ExecuteNode(s.graph.nodeMap[n], s1.ctx, env.code, rev);
    var s2 := Record(s1, n, c);
    assert FireNode(s, n, env, rev) == FireNext(s2, n, env, rev);
    var counters := DecrementAll(s2.counters, env.order(n));
    assert FireNext(s2, n, env, rev) == Ok(s2.(counters := counters.value));
  }

  /** The loop's other cases: a successor that is not WAITING, or that is
      WAITING with a positive counter, is passed over. */
  lemma FireEachSkips(s: Run, succ: seq<string>, i: nat, env: Env, rev: Revision)
    requires Wf(s) && i < |succ|
    requires !WaitingAt(s, succ, i) || (succ[i] in s.counters && s.counters[succ[i]] > 0)
    ensures FireEach(s, succ, i, env, rev) == FireEach(s, succ, i + 1, env, rev)
  {
  }

  /** A WAITING successor at counter 0 is fired, and the loop goes on from
      the state its firing left, unless that firing threw. */
  lemma FireEachFires(s: Run, succ: seq<string>, i: nat, env: Env, rev: Revision)
    requires Wf(s) && WaitingAt(s, succ, i) && succ[i] in s.counters && s.counters[succ[i]] == 0
    ensures FireNode(s, succ[i], env, rev).Err? ==> FireEach(s, succ, i, env, rev) == FireNode(s, succ[i], env, rev)
    ensures FireNode(s, succ[i], env, rev).Ok? ==>
              FireEach(s, succ, i, env, rev) == FireEach(FireNode(s, succ[i], env, rev).value, succ, i + 1, env, rev)
  {
  }

  /** The end node sets SUCCESS without looking at its own result: an end
      node whose consumer fails or whose guard answers false is recorded
      as such, with its throwable, and the run still ends SUCCESS. */
  lemma EndFailureStillSucceeds(s: Run, env: Env, rev: Revision)
    requires Wf(s) && END_NODE_NAME in s.nodes && s.nodes[END_NODE_NAME] == Some(Waiting) && s.dag == DagRunning
    requires !GraphTimedOut(s.limit, env.clock(s.checks))
    requires ExecuteNode(s.graph.nodeMap[END_NODE_NAME], s.ctx, env.code, rev).state != Some(Succeeded)
    ensures FireNode(s, END_NODE_NAME, env, rev).Ok?
    ensures var r := FireNode(s, END_NODE_NAME, env, rev).value;
            var c := ExecuteNode(s.graph.nodeMap[END_NODE_NAME], s.ctx, env.code, rev);
            r.dag == Succeed && r.throwable == c.throwable && r.nodes == s.nodes[END_NODE_NAME := c.state]
  {
    var s1 := CheckTimeout(s, env);
    var c := ExecuteNode(s.graph.nodeMap[END_NODE_NAME], s1.ctx, env.code, rev);
    var s2 := Record(s1, END_NODE_NAME, c);
    assert s2.dag == Failed;
    assert FireNode(s, END_NODE_NAME, env, rev) == FireNext(s2, END_NODE_NAME, env, rev);
  }

  // The successor lists

  /** `succ` lists the successors of `n` in the graph, each once, as
      `getSuccessorNodes` does. */
  ghost predicate SuccessorList(g: DagGraph, n: string, succ: seq<string>)
  {
    && (forall i, j :: 0 <= i < j < |succ| ==> succ[i] != succ[j])
    && (forall w :: w in succ <==> w in SuccessorNames(g, n))
  }

  /** The environment's successor lists are the graph's. */
  ghost predicate ListsSuccessors(g: DagGraph, env: Env)
  {
    forall n :: n in g.nodeMap ==> SuccessorList(g, n, env.order(n))
  }

  /** In a list without repetitions every element occurs once. */
  lemma {:induction false} DistinctCount(succ: seq<string>, v: string)
    requires forall i, j :: 0 <= i < j < |succ| ==> succ[i] != succ[j]
    ensures multiset(succ)[v] == if v in succ then 1 else 0
  {
    if succ != [] {
      assert succ == [succ[0]] + succ[1..];
      assert forall i, j :: 0 <= i < j < |succ[1..]| ==> succ[1..][i] != succ[1..][j] by {
        forall i, j | 0 <= i < j < |succ[1..]| ensures succ[1..][i] != succ[1..][j] {
          assert succ[1..][i] == succ[i + 1] && succ[1..][j] == succ[j + 1];
        }
      }
      DistinctCount(succ[1..], v);
      assert succ[0] !in succ[1..] by {
        forall k | 0 <= k < |succ[1..]| ensures succ[1..][k] != succ[0] {
          assert succ[1..][k] == succ[k + 1];
        }
      }
      assert multiset(succ) == multiset{succ[0]} + multiset(succ[1..]);
    }
  }

  /** With the graph's successor lists and a counter for every node of a
      runnable graph, `decrementSuccessorInDegree` cannot throw, and it
      lowers by one exactly the counters of the node's successors. */
  lemma SuccessorsLowered(g: DagGraph, counters: map<string, int>, n: string, env: Env)
    requires Runnable(g) && ListsSuccessors(g, env) && n in g.nodeMap && counters.Keys == g.graph.nodes
    ensures DecrementAll(counters, env.order(n)).Ok?
    ensures forall v :: v in counters ==>
              DecrementAll(counters, env.order(n)).value[v] == counters[v] - (if (n, v) in g.graph.weights then 1 else 0)
  {
    var succ := env.order(n);
    assert SuccessorList(g, n, succ);
    forall i | 0 <= i < |succ| ensures succ[i] in counters {
      assert succ[i] in SuccessorNames(g, n);
      assert (n, succ[i]) in g.graph.weights;
    }
    forall v | v in counters
      ensures DecrementAll(counters, succ).value[v] == counters[v] - (if (n, v) in g.graph.weights then 1 else 0)
    {
      DistinctCount(succ, v);
    }
  }
}
