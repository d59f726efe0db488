/** One run of `ConcurrentDagEngine` (its inner `DagExecutor`) as a
    transition system. Every callback of the run is one atomic step; the
    environment chooses which enabled step happens next, what the user
    code answers and what the clock reads. Each fired node carries a task:
    the result record that its supplier, its timer and (once stored) the
    context share, how far the supplier and the timer got, what its future
    completed with, and whether the completion callback has run. */
module ConcurrentEngine {
  import opened Wrappers
  import opened DependencyTypes
  import opened States
  import opened Values
  import opened Contexts
  import opened Handlers
  import opened Nodes
  import opened Digraphs
  import opened DagGraphs
  import opened Invokers

  const NEGATIVE_IN_DEGREE: string := "inDegree could not be less than 0"
  const UNKNOWN_EXCEPTION: string := "unknown exception happened: "

  /** How far a node's supplier has got. */
  datatype Phase = Queued | Executing | Finished

  /** What a node's future completed with: nothing yet, null (the supplier
      found the run or the node in the wrong state), or the node's shared
      result record. */
  datatype Completion = Pending | WithNull | WithRecord

  /** How far a node's timer has got: not yet run, past its check but not
      yet written, or done. */
  datatype TimerPhase = Unfired | Passed | Spent

  /** One fired node: its `NodeResultImpl`, which the supplier, the timer
      and (once stored) the context all share; the supplier's phase; what
      its future completed with; the timer's phase; and whether the
      completion callback has run. */
  datatype Task = Task(record: NodeResult, phase: Phase, completion: Completion, timer: TimerPhase, delivered: bool)

  /** The state of one run. `fannedOut` is bookkeeping: the nodes whose
      callback reached the successor loop. */
  datatype Run = Run(graph: DagGraph, limit: Option<int>, executor: bool,
                     dag: DagState, throwable: Option<Throwable>, latchDown: bool, waiting: bool,
                     nodes: map<string, NodeState>, counters: map<string, int>, ctx: DagContext,
                     tasks: map<string, Task>, fannedOut: set<string>)

  /** The `DagExecutor` constructor: every node WAITING, every counter at
      the node's in-degree, a fresh context around the user object. */
  function Init(g: DagGraph, user: Option<Value>, limit: Option<int>, executor: bool): (s: Run)
    ensures s.dag == DagWaiting && s.tasks == map[] && s.fannedOut == {}
    ensures s.nodes.Keys == g.nodeMap.Keys && forall v :: v in s.nodes ==> s.nodes[v] == Waiting
    ensures s.counters == g.inDegree
    ensures GetContext(s.ctx) == user
  {
    Run(g, limit, executor, DagWaiting, None, false, true,
        map v | v in g.nodeMap :: Waiting, g.inDegree, NewContext(user), map[], {})
  }

  /** `dagDone`: only the first call while RUNNING records its state and
      throwable (the compare-and-set); every call releases the waiting
      caller. */
  function DagDone(s: Run, state: DagState, t: Option<Throwable>): (r: Run)
    ensures r.latchDown
    ensures s.dag == DagRunning ==> r.dag == state && r.throwable == t
    ensures s.dag != DagRunning ==> r.dag == s.dag && r.throwable == s.throwable
    ensures r.(dag := s.dag, throwable := s.throwable, latchDown := s.latchDown) == s
  {
    if s.dag == DagRunning then s.(dag := state, throwable := t, latchDown := true)
    else s.(latchDown := true)
  }

  /** A fresh `NodeResultImpl`: its state is still null. */
  function NewTask(v: string): Task
  {
    Task(NodeResult(v, None, None, None), Queued, Pending, Unfired, false)
  }

  /** `CompletableFuture.complete`: only the first completion counts. */
  function Complete(c: Completion, v: Completion): (r: Completion)
    requires v != Pending
    ensures r != Pending
    ensures c != Pending ==> r == c
    ensures c == Pending ==> r == v
  {
    if c != Pending then c else v
  }

  /** A write to a shared record is seen through the context too, once the
      completion callback has stored that record under its node's name. */
  function Synced(ctx: DagContext, rec: NodeResult): (r: DagContext)
    ensures Get(ctx, NodeResultKey(rec.nodeName)).Some? ==> GetNodeResult(r, rec.nodeName) == Ok(Some(rec))
    ensures Get(ctx, NodeResultKey(rec.nodeName)).None? ==> r == ctx
    ensures forall m :: m != rec.nodeName ==> GetNodeResult(r, m) == GetNodeResult(ctx, m)
  {
    if Get(ctx, NodeResultKey(rec.nodeName)).Some? then PutNodeResult(ctx, Some(rec.nodeName), Some(rec)).value else ctx
  }

  /** `start`: the state becomes RUNNING and the start node, alone, is fired. */
  function Begin(s: Run): (r: Run)
    ensures r.dag == DagRunning
    ensures r.tasks.Keys == s.tasks.Keys + {START_NODE_NAME} && r.tasks[START_NODE_NAME] == NewTask(START_NODE_NAME)
    ensures forall v :: v in s.tasks && v != START_NODE_NAME ==> r.tasks[v] == s.tasks[v]
    ensures r.(dag := s.dag, tasks := s.tasks) == s
  {
    s.(dag := DagRunning, tasks := s.tasks[START_NODE_NAME := NewTask(START_NODE_NAME)])
  }

  /** The first half of the supplier: it runs the node only while the run
      is RUNNING and the node WAITING, else it returns null; a running node
      and its record both become RUNNING. */
  function SupplyStart(s: Run, n: string): (r: Run)
    requires n in s.tasks && s.tasks[n].phase == Queued
    ensures r.(nodes := s.nodes, tasks := s.tasks) == s
    ensures r.tasks.Keys == s.tasks.Keys && forall v :: v in s.tasks && v != n ==> r.tasks[v] == s.tasks[v]
    ensures r.tasks[n].phase == Executing <==> s.dag == DagRunning && n in s.nodes && s.nodes[n] == Waiting
    ensures r.tasks[n].phase == Executing ==> r.nodes == s.nodes[n := Running] && r.tasks[n].record.state == Some(Running)
    ensures r.tasks[n].phase != Executing ==> r.tasks[n].phase == Finished && r.nodes == s.nodes
                                              && r.tasks[n].completion != Pending && r.tasks[n].record == s.tasks[n].record
  {
    var t := s.tasks[n];
    if s.dag != DagRunning || n !in s.nodes || s.nodes[n] != Waiting then
      s.(tasks := s.tasks[n := t.(phase := Finished, completion := Complete(t.completion, WithNull))])
    else
      s.(nodes := s.nodes[n := Running],
         tasks := s.tasks[n := t.(record := t.record.(state := Some(Running)), phase := Executing)])
  }

  /** `executeNode` after the invocation: a normal return records the
      result and SUCCEEDED, an exception records the throwable and FAILED. */
  function Executed(rec: NodeResult, r: InvokeResult): (out: NodeResult)
    ensures out.nodeName == rec.nodeName
    ensures r.Ok? ==> out.state == Some(Succeeded) && out.result == r.value && out.throwable == rec.throwable
    ensures r.Err? ==> out.state == Some(NodeFailed) && out.throwable == Some(r.error) && out.result == rec.result
  {
    match r
    case Ok(v) => rec.(result := v, state := Some(Succeeded))
    case Err(e) => rec.(throwable := Some(e), state := Some(NodeFailed))
  }

  /** The second half of the supplier: the invoker current at this moment
      runs the node against the current context and writes the outcome
      into the shared record, which the context sees if it already stores
      it (the node timed out and was recorded first); the future completes
      with the record unless the timer completed it before. */
  function SupplyEnd(s: Run, n: string, inv: Invoker, code: UserCode, fc: FilterCode): (r: Run)
    requires n in s.tasks && s.tasks[n].phase == Executing && n in s.graph.nodeMap
    ensures r.(ctx := s.ctx, tasks := s.tasks) == s
    ensures r.tasks.Keys == s.tasks.Keys && forall v :: v in s.tasks && v != n ==> r.tasks[v] == s.tasks[v]
    ensures var out := Invoke(inv, s.graph.nodeMap[n], s.ctx, code, fc);
            && r.tasks[n].record.state == Some(if out.Ok? then Succeeded else NodeFailed)
            && (out.Ok? ==> r.tasks[n].record.result == out.value)
            && (out.Err? ==> r.tasks[n].record.throwable == Some(out.error))
    ensures r.tasks[n].phase == Finished
    ensures r.tasks[n].completion == (if s.tasks[n].completion == Pending then WithRecord else s.tasks[n].completion)
    ensures var m := s.tasks[n].record.nodeName;
            && (Get(s.ctx, NodeResultKey(m)).Some? ==> GetNodeResult(r.ctx, m) == Ok(Some(r.tasks[n].record)))
            && (Get(s.ctx, NodeResultKey(m)).None? ==> r.ctx == s.ctx)
  {
    var t := s.tasks[n];
    var rec := Executed(t.record, Invoke(inv, s.graph.nodeMap[n], s.ctx, code, fc));
    s.(ctx := Synced(s.ctx, rec),
       tasks := s.tasks[n := t.(record := rec, phase := Finished, completion := Complete(t.completion, WithRecord))])
  }

  /** A node's timer is scheduled only when the node has a handler, the run
      has an executor and the node's timeout is positive. */
  predicate TimerArmed(s: Run, n: string)
  {
    && n in s.graph.nodeMap
    && s.graph.nodeMap[n].handler.Some?
    && s.executor
    && var t := Nodes.NodeTimeout(s.graph.nodeMap[n]);
       t.Ok? && t.value.Some? && t.value.value > 0
  }

  /** The scheduled timer's test: it goes on only if the future is not
      complete and the record is WAITING or RUNNING. */
  function TimerCheck(s: Run, n: string): (r: Run)
    requires n in s.tasks
    ensures r.(tasks := s.tasks) == s
    ensures n in r.tasks && r.tasks == s.tasks[n := s.tasks[n].(timer := r.tasks[n].timer)]
    ensures r.tasks[n].timer == Passed <==>
              s.tasks[n].completion == Pending && (s.tasks[n].record.state == Some(Waiting) || s.tasks[n].record.state == Some(Running))
    ensures r.tasks[n].timer != Passed ==> r.tasks[n].timer == Spent
  {
    var t := s.tasks[n];
    var passes := t.completion == Pending && (t.record.state == Some(Waiting) || t.record.state == Some(Running));
    s.(tasks := s.tasks[n := t.(timer := if passes then Passed else Spent)])
  }

  /** The timer's writes, some time after its test: the shared record
      becomes TIMEOUT with a timeout exception, whatever the supplier wrote
      meanwhile and whether or not the context already stores it; the
      future completes with the record unless it is complete already. */
  function TimerFires(s: Run, n: string): (r: Run)
    requires n in s.tasks && s.tasks[n].timer == Passed
    ensures r.(ctx := s.ctx, tasks := s.tasks) == s
    ensures r.tasks.Keys == s.tasks.Keys && forall v :: v in s.tasks && v != n ==> r.tasks[v] == s.tasks[v]
    ensures r.tasks[n].record == s.tasks[n].record.(state := Some(NodeTimeout), throwable := Some(Timeout(n)))
    ensures r.tasks[n].timer == Spent && r.tasks[n].phase == s.tasks[n].phase
    ensures r.tasks[n].completion == (if s.tasks[n].completion == Pending then WithRecord else s.tasks[n].completion)
    ensures var m := s.tasks[n].record.nodeName;
            && (Get(s.ctx, NodeResultKey(m)).Some? ==> GetNodeResult(r.ctx, m) == Ok(Some(r.tasks[n].record)))
            && (Get(s.ctx, NodeResultKey(m)).None? ==> r.ctx == s.ctx)
  {
    var t := s.tasks[n];
    var rec := t.record.(state := Some(NodeTimeout), throwable := Some(Timeout(n)));
    s.(ctx := Synced(s.ctx, rec),
       tasks := s.tasks[n := t.(record := rec, completion := Complete(t.completion, WithRecord), timer := Spent)])
  }

  /** `checkGraphExecuteTimeout`: a run past its positive timeout is ended
      TIMEOUT, if it is still RUNNING. */
  function CheckTimeout(s: Run, elapsed: int): (r: Run)
    ensures !GraphTimedOut(s.limit, elapsed) ==> r == s
    ensures GraphTimedOut(s.limit, elapsed) && s.dag == DagRunning ==>
              r.dag == DagTimeout && r.throwable == Some(Timeout(s.graph.graphName))
    ensures s.dag != DagRunning ==> r.dag == s.dag && r.throwable == s.throwable
    ensures r.(dag := s.dag, throwable := s.throwable, latchDown := s.latchDown) == s
  {
    if GraphTimedOut(s.limit, elapsed) then DagDone(s, DagTimeout, Some(Timeout(s.graph.graphName))) else s
  }

  /** The successors of `n` that the fan-out decrements: those still WAITING. */
  function WaitingAmong(s: Run, succ: set<string>): (w: set<string>)
    ensures forall v :: v in w <==> v in succ && v in s.nodes && s.nodes[v] == Waiting
  {
    set v | v in succ && v in s.nodes && s.nodes[v] == Waiting
  }

  /** The WAITING successors whose counter is at 1: decrementing brings
      them to 0, so they are fired. */
  function Ready(s: Run, w: set<string>): (ready: set<string>)
    ensures forall v :: v in ready <==> v in w && v in s.counters && s.counters[v] == 1
  {
    set v | v in w && v in s.counters && s.counters[v] == 1
  }

  /** Every counter of `w` lowered by one. */
  function Lowered(counters: map<string, int>, w: set<string>): (r: map<string, int>)
    ensures r.Keys == counters.Keys
    ensures forall v :: v in counters ==> r[v] == if v in w then counters[v] - 1 else counters[v]
  {
    map v | v in counters :: if v in w then counters[v] - 1 else counters[v]
  }

  /** A fresh task for every node of `ready`. */
  function Fired(tasks: map<string, Task>, ready: set<string>): (r: map<string, Task>)
    ensures r.Keys == tasks.Keys + ready
    ensures forall v :: v in ready ==> r[v] == NewTask(v)
    ensures forall v :: v in tasks && v !in ready ==> r[v] == tasks[v]
  {
    map v | v in tasks.Keys + ready :: if v in ready then NewTask(v) else tasks[v]
  }

  /** `decrementIndegreeAndFireSuccessorNodes`: each WAITING successor's
      counter drops by one; those reaching 0 are fired; one going below 0
      ends the run FAILED. */
  function Decrement(s: Run, succ: set<string>): (r: Run)
    ensures r.graph == s.graph && r.limit == s.limit && r.executor == s.executor && r.nodes == s.nodes && r.ctx == s.ctx
    ensures r.fannedOut == s.fannedOut && s.tasks.Keys <= r.tasks.Keys
  {
    if s.dag != DagRunning then s
    else
      var w := WaitingAmong(s, succ);
      if exists v :: v in w && v !in s.counters then DagDone(s, Failed, Some(DagEngine(UNKNOWN_EXCEPTION)))
      else
        var s' := s.(counters := Lowered(s.counters, w), tasks := Fired(s.tasks, Ready(s, w)));
        if exists v :: v in w && s.counters[v] < 1 then DagDone(s', Failed, Some(DagEngine(NEGATIVE_IN_DEGREE)))
        else s'
  }

  /** `fireNextNode`: a node that did not succeed and has a STRONG outgoing
      edge fails the run with its throwable; the end node or a node without
      successors completes it; otherwise the successors are decremented. */
  function FireNext(s: Run, n: string, c: NodeResult): (r: Run)
    ensures r.graph == s.graph && r.limit == s.limit && r.executor == s.executor && r.nodes == s.nodes && r.ctx == s.ctx
    ensures s.fannedOut <= r.fannedOut && s.tasks.Keys <= r.tasks.Keys
  {
    if s.dag != DagRunning then s
    else if c.state != Some(Succeeded) && HasStrongSuccessor(s.graph, n) then DagDone(s, Failed, c.throwable)
    else if n == END_NODE_NAME || SuccessorNames(s.graph, n) == {} then DagDone(s, Succeed, None)
    else Decrement(s.(fannedOut := s.fannedOut + {n}), SuccessorNames(s.graph, n))
  }

  /** `handleNodeExecuteResult`, the timeout check and `fireNextNode`: the
      result is stored under its node's name and the node takes its state;
      nothing else in the state table or the context changes. A null state
      cannot be stored in the state map: that exception ends the run FAILED
      through the `exceptionally` handler. */
  function Resolve(s: Run, n: string, c: NodeResult, elapsed: int): (r: Run)
    ensures r.graph == s.graph && r.limit == s.limit && r.executor == s.executor && s.fannedOut <= r.fannedOut && s.tasks.Keys <= r.tasks.Keys
    ensures r.ctx == PutNodeResult(s.ctx, Some(c.nodeName), Some(c)).value
    ensures GetNodeResult(r.ctx, c.nodeName) == Ok(Some(c))
    ensures c.state.Some? ==> r.nodes == s.nodes[n := c.state.value]
    ensures c.state.None? ==> r.nodes == s.nodes && r.dag == (if s.dag == DagRunning then Failed else s.dag)
  {
    var ctx := PutNodeResult(s.ctx, Some(c.nodeName), Some(c)).value;
    if c.state.None? then DagDone(s.(ctx := ctx), Failed, Some(DagEngine(UNKNOWN_EXCEPTION)))
    else
      var s1 := s.(ctx := ctx, nodes := s.nodes[n := c.state.value]);
      FireNext(CheckTimeout(s1, elapsed), n, c)
  }

  /** The completion callback of `fireNode`: ignored for a null result, a
      run that is no longer RUNNING or a node that is no longer RUNNING;
      otherwise it reads the shared record as it is now and resolves it. */
  function Deliver(s: Run, n: string, elapsed: int): (r: Run)
    requires n in s.tasks && s.tasks[n].completion != Pending
    ensures r.graph == s.graph && r.limit == s.limit && r.executor == s.executor && s.fannedOut <= r.fannedOut && s.tasks.Keys <= r.tasks.Keys
    ensures var ignored := s.tasks[n].completion == WithNull || s.dag != DagRunning || n !in s.nodes || s.nodes[n] != Running;
            && (ignored ==> r.nodes == s.nodes && r.ctx == s.ctx && r.dag == s.dag)
            && (!ignored ==> GetNodeResult(r.ctx, s.tasks[n].record.nodeName) == Ok(Some(s.tasks[n].record)))
  {
    var t := s.tasks[n];
    var s1 := s.(tasks := s.tasks[n := t.(delivered := true)]);
    if t.completion == WithNull || s1.dag != DagRunning || n !in s1.nodes || s1.nodes[n] != Running then s1
    else Resolve(s1, n, t.record, elapsed)
  }

  /** The events of a run. */
  datatype Step =
    | Start
    | SupplierStarts(n: string)
    | SupplierReturns(n: string, inv: Invoker)
    | TimerExpires(n: string)
    | TimerWrites(n: string)
    | Callback(n: string, elapsed: int)
    | AwaitTimesOut
    | AwaitInterrupted
    | AwaitReturns

  predicate Enabled(s: Run, e: Step)
  {
    match e
    case Start => s.dag == DagWaiting
    case SupplierStarts(n) => n in s.tasks && s.tasks[n].phase == Queued
    case SupplierReturns(n, _) =>
      n in s.tasks && s.tasks[n].phase == Executing && n in s.graph.nodeMap
    case TimerExpires(n) => n in s.tasks && s.tasks[n].timer == Unfired && TimerArmed(s, n)
    case TimerWrites(n) => n in s.tasks && s.tasks[n].timer == Passed
    case Callback(n, _) => n in s.tasks && s.tasks[n].completion != Pending && !s.tasks[n].delivered
    case AwaitTimesOut => s.dag != DagWaiting && s.waiting && !s.latchDown && s.limit.Some? && s.limit.value > 0
    case AwaitInterrupted => s.dag != DagWaiting && s.waiting
    case AwaitReturns => s.dag != DagWaiting && s.waiting && s.latchDown
  }

  /** One step of the run. The caller of `fire` waits on the latch: with a
      positive timeout the wait can expire (the run becomes TIMEOUT), and an
      interrupt makes it INTERRUPTED; either way only a RUNNING run changes.
      No step changes the graph or the run's settings, un-fires a node or
      takes a node out of the fanned-out set. */
  function Next(s: Run, e: Step, code: UserCode, fc: FilterCode): (r: Run)
    requires Enabled(s, e)
    ensures r.graph == s.graph && r.limit == s.limit && r.executor == s.executor
    ensures s.tasks.Keys <= r.tasks.Keys && s.fannedOut <= r.fannedOut
  {
    match e
    case Start => Begin(s)
    case SupplierStarts(n) => SupplyStart(s, n)
    case SupplierReturns(n, inv) => SupplyEnd(s, n, inv, code, fc)
    case TimerExpires(n) => TimerCheck(s, n)
    case TimerWrites(n) => TimerFires(s, n)
    case Callback(n, elapsed) => Deliver(s, n, elapsed)
    case AwaitTimesOut => DagDone(s.(waiting := false), DagTimeout, Some(Timeout(s.graph.graphName)))
    case AwaitInterrupted => DagDone(s.(waiting := false), DagInterrupted, Some(Interrupted))
    case AwaitReturns => s.(waiting := false)
  }

  /** What `fire` hands back. */
  function View(s: Run): (r: DagResult)
    ensures r.state == s.dag && r.throwable == s.throwable
    ensures r.nodeStates.Keys == s.nodes.Keys
  {
    DagResult(s.dag, s.throwable, map v | v in s.nodes :: Some(s.nodes[v]))
  }

  // The invariant of a run

  /** The run's tables cover the graph's nodes. */
  predicate Shape(s: Run)
  {
    && s.nodes.Keys == s.graph.graph.nodes
    && s.counters.Keys == s.graph.graph.nodes
    && s.tasks.Keys <= s.graph.graph.nodes
    && s.fannedOut <= s.graph.graph.nodes
  }

  /** Before `start` nothing has been fired. */
  predicate Fresh(s: Run)
  {
    s.dag == DagWaiting ==> s.tasks == map[] && s.fannedOut == {}
  }

  /** The latch is released exactly when the run is done. */
  predicate Latch(s: Run)
  {
    s.latchDown <==> IsDoneState(s.dag)
  }

  /** A node is fired only after every predecessor fanned out. */
  predicate FiredAfterPredecessors(s: Run)
  {
    forall v :: v in s.tasks ==> Pred(s.graph.graph, v) <= s.fannedOut
  }

  /** A node leaves WAITING only once it has been fired. */
  predicate StartedOnlyWhenFired(s: Run)
  {
    forall v :: v in s.nodes && s.nodes[v] != Waiting ==> v in s.tasks
  }

  /** A node fans out only when it has finished, and only when it
      succeeded or has no STRONG outgoing edge. */
  predicate FannedOutWhenAllowed(s: Run)
  {
    forall v :: v in s.fannedOut ==>
      v in s.nodes && IsTerminalNode(s.nodes[v]) && (s.nodes[v] == Succeeded || !HasStrongSuccessor(s.graph, v))
  }

  /** A WAITING node's counter is the number of its predecessors that have
      not fanned out yet. */
  predicate Counted(s: Run)
  {
    forall v :: v in s.nodes && s.nodes[v] == Waiting ==>
      v in s.counters && s.counters[v] == |Pred(s.graph.graph, v) - s.fannedOut|
  }

  /** A completed result carries its node's name and a final state. */
  predicate CompletedOk(v: string, c: NodeResult)
  {
    c.nodeName == v && c.state.Some? && IsTerminalNode(c.state.value)
  }

  predicate TaskOk(s: Run, v: string)
    requires v in s.tasks
  {
    var t := s.tasks[v];
    && t.record.nodeName == v
    && (t.phase == Queued ==> && t.record.state.None? && t.completion == Pending && t.timer != Passed
                              && v in s.nodes && s.nodes[v] == Waiting)
    && (t.completion == WithRecord ==> CompletedOk(v, t.record))
  }

  predicate TasksOk(s: Run)
  {
    forall v :: v in s.tasks ==> TaskOk(s, v)
  }

  /** The context holds a node's result exactly when the node has
      finished, and what it holds is the node's shared record as it is
      now, with a final state. That state need not be the one the node
      finished with: the supplier and the timer may still write to the
      record after the callback stored it. */
  predicate Recorded(s: Run)
  {
    forall v :: v in s.nodes ==>
      var r := GetNodeResult(s.ctx, v);
      && r.Ok?
      && (r.value.Some? <==> IsTerminalNode(s.nodes[v]))
      && (r.value.Some? ==> v in s.tasks && r.value.value == s.tasks[v].record && CompletedOk(v, r.value.value))
  }

  predicate Inv(s: Run)
  {
    && Runnable(s.graph)
    && Shape(s)
    && Fresh(s)
    && Latch(s)
    && FiredAfterPredecessors(s)
    && StartedOnlyWhenFired(s)
    && FannedOutWhenAllowed(s)
    && Counted(s)
    && TasksOk(s)
    && Recorded(s)
  }

  lemma InitInv(g: DagGraph, user: Option<Value>, limit: Option<int>, executor: bool)
    requires Runnable(g)
    ensures Inv(Init(g, user, limit, executor))
  {
    var s := Init(g, user, limit, executor);
    forall v | v in s.nodes
      ensures GetNodeResult(s.ctx, v) == Ok(None)
    {
      NodeResultKeyNotUserContext(v);
    }
    forall v | v in s.nodes
      ensures s.counters[v] == |Pred(g.graph, v) - s.fannedOut|
    {
      assert Pred(g.graph, v) - {} == Pred(g.graph, v);
    }
  }

  // Set facts behind the counters

  lemma RemoveOne(P: set<string>, F: set<string>, n: string)
    requires n in P && n !in F
    ensures |P - (F + {n})| == |P - F| - 1
  {
    assert P - (F + {n}) == (P - F) - {n};
  }

  lemma KeepOthers(P: set<string>, F: set<string>, n: string)
    requires n !in P
    ensures P - (F + {n}) == P - F
  {
  }

  lemma OnlyOneLeft(P: set<string>, F: set<string>, n: string)
    requires n in P && n !in F && |P - F| == 1
    ensures P <= F + {n}
  {
    forall x | x in P
      ensures x in F + {n}
    {
      if x !in F && x != n {
        assert {x, n} <= P - F;
        assert |{x, n}| == 2;
        SubsetCardinality({x, n}, P - F);
      }
    }
  }

  // Frame lemmas: one part of the invariant at a time, for a state that
  // leaves the fields that part reads alone, or changes one task only.

  lemma SameTasks(s: Run, r: Run)
    requires TasksOk(s) && r.nodes == s.nodes && r.tasks == s.tasks
    ensures TasksOk(r)
  {
    forall v | v in r.tasks
      ensures TaskOk(r, v)
    {
      assert TaskOk(s, v);
    }
  }

  lemma SameCounts(s: Run, r: Run)
    requires Counted(s) && FannedOutWhenAllowed(s)
    requires r.graph == s.graph && r.nodes == s.nodes && r.counters == s.counters && r.fannedOut == s.fannedOut
    ensures Counted(r) && FannedOutWhenAllowed(r)
  {
  }

  lemma SameRecorded(s: Run, r: Run)
    requires Recorded(s) && r.ctx == s.ctx && r.nodes == s.nodes
    requires forall v :: v in s.tasks ==> v in r.tasks && r.tasks[v].record == s.tasks[v].record
    ensures Recorded(r)
  {
  }

  lemma TaskRecorded(s: Run, r: Run, n: string)
    requires Recorded(s) && r.ctx == s.ctx && r.nodes == s.nodes && n in s.tasks
    requires n in r.tasks && r.tasks == s.tasks[n := r.tasks[n]] && r.tasks[n].record == s.tasks[n].record
    ensures Recorded(r)
  {
  }

  lemma SameFired(s: Run, r: Run)
    requires FiredAfterPredecessors(s) && r.graph == s.graph && r.tasks == s.tasks && r.fannedOut == s.fannedOut
    ensures FiredAfterPredecessors(r)
  {
  }

  lemma SameStarted(s: Run, r: Run)
    requires StartedOnlyWhenFired(s) && r.nodes == s.nodes && r.tasks == s.tasks
    ensures StartedOnlyWhenFired(r)
  {
  }

  lemma SameShape(s: Run, r: Run)
    requires Shape(s) && r.graph == s.graph && r.nodes == s.nodes && r.counters == s.counters
    requires r.tasks == s.tasks && r.fannedOut == s.fannedOut
    ensures Shape(r)
  {
  }

  /** A state that differs from an invariant one only in its graph-level
      fields, and is done with the latch released, is invariant. */
  lemma Settled(s: Run, r: Run)
    requires Inv(s) && r.latchDown && IsDoneState(r.dag)
    requires r.graph == s.graph && r.nodes == s.nodes && r.tasks == s.tasks && r.ctx == s.ctx
    requires r.counters == s.counters && r.fannedOut == s.fannedOut
    ensures Inv(r)
  {
    SameTasks(s, r);
    SameCounts(s, r);
    SameRecorded(s, r);
    SameFired(s, r);
    SameStarted(s, r);
    SameShape(s, r);
  }

  lemma DagDoneInv(s: Run, state: DagState, t: Option<Throwable>)
    requires Inv(s) && s.dag != DagWaiting && IsDoneState(state)
    ensures Inv(DagDone(s, state, t))
  {
    if s.dag == DagRunning {
      Settled(s, s.(dag := state, throwable := t, latchDown := true));
    } else {
      Settled(s, s.(latchDown := true));
    }
  }

  lemma TaskShape(s: Run, r: Run, n: string)
    requires Shape(s) && n in s.tasks
    requires r.graph == s.graph && r.nodes.Keys == s.nodes.Keys && r.counters == s.counters && r.fannedOut == s.fannedOut
    requires n in r.tasks && r.tasks == s.tasks[n := r.tasks[n]]
    ensures Shape(r)
  {
  }

  lemma TaskFired(s: Run, r: Run, n: string)
    requires FiredAfterPredecessors(s) && n in s.tasks
    requires r.graph == s.graph && r.fannedOut == s.fannedOut
    requires n in r.tasks && r.tasks == s.tasks[n := r.tasks[n]]
    ensures FiredAfterPredecessors(r)
  {
  }

  lemma TaskStarted(s: Run, r: Run, n: string)
    requires StartedOnlyWhenFired(s) && n in s.tasks
    requires r.nodes.Keys == s.nodes.Keys
    requires forall v :: v in s.nodes && v != n ==> r.nodes[v] == s.nodes[v]
    requires n in r.tasks && r.tasks == s.tasks[n := r.tasks[n]]
    ensures StartedOnlyWhenFired(r)
  {
  }

  lemma TaskFresh(s: Run, r: Run, n: string)
    requires Fresh(s) && Latch(s) && n in s.tasks
    requires r.dag == s.dag && r.latchDown == s.latchDown && r.fannedOut == s.fannedOut
    ensures Fresh(r) && Latch(r)
  {
  }

  /** Tasks other than `n` keep their facts when only `n`'s task and state change. */
  lemma OtherTasksOk(s: Run, r: Run, n: string)
    requires TasksOk(s)
    requires n in r.tasks && r.tasks == s.tasks[n := r.tasks[n]]
    requires forall v :: v in s.nodes && v != n ==> v in r.nodes && r.nodes[v] == s.nodes[v]
    requires TaskOk(r, n)
    ensures TasksOk(r)
  {
    forall v | v in r.tasks && v != n
      ensures TaskOk(r, v)
    {
      assert TaskOk(s, v);
    }
  }

  /** A step that changes only `n`'s task keeps the invariant once that
      task's own facts hold. */
  lemma TaskStep(s: Run, r: Run, n: string)
    requires Inv(s) && n in s.tasks
    requires r.graph == s.graph && r.counters == s.counters && r.ctx == s.ctx && r.fannedOut == s.fannedOut
    requires r.dag == s.dag && r.latchDown == s.latchDown && r.nodes == s.nodes
    requires n in r.tasks && r.tasks == s.tasks[n := r.tasks[n]] && r.tasks[n].record == s.tasks[n].record
    requires TaskOk(r, n)
    ensures Inv(r)
  {
    TaskShape(s, r, n);
    TaskFired(s, r, n);
    TaskStarted(s, r, n);
    TaskFresh(s, r, n);
    SameCounts(s, r);
    TaskRecorded(s, r, n);
    OtherTasksOk(s, r, n);
  }

  lemma StartRecorded(s: Run, r: Run, n: string)
    requires Recorded(s) && n in s.nodes && s.nodes[n] == Waiting
    requires r.ctx == s.ctx && r.nodes == s.nodes[n := Running]
    requires n in s.tasks && n in r.tasks && r.tasks == s.tasks[n := r.tasks[n]]
    ensures Recorded(r)
  {
  }

  lemma StartCounts(s: Run, r: Run, n: string)
    requires Counted(s) && FannedOutWhenAllowed(s)
    requires n in s.nodes && s.nodes[n] == Waiting
    requires r.graph == s.graph && r.counters == s.counters && r.fannedOut == s.fannedOut
    requires r.nodes == s.nodes[n := Running]
    ensures Counted(r) && FannedOutWhenAllowed(r)
  {
  }

  lemma StartTasks(s: Run, r: Run, n: string)
    requires Shape(s) && Fresh(s) && Latch(s) && FiredAfterPredecessors(s) && StartedOnlyWhenFired(s) && TasksOk(s)
    requires n in s.tasks && n in s.nodes
    requires r.graph == s.graph && r.counters == s.counters && r.fannedOut == s.fannedOut
    requires r.dag == s.dag && r.latchDown == s.latchDown && r.nodes == s.nodes[n := Running]
    requires n in r.tasks && r.tasks == s.tasks[n := r.tasks[n]]
    requires TaskOk(r, n)
    ensures Shape(r) && Fresh(r) && Latch(r) && FiredAfterPredecessors(r) && StartedOnlyWhenFired(r) && TasksOk(r)
  {
    TaskShape(s, r, n);
    TaskFired(s, r, n);
    TaskStarted(s, r, n);
    TaskFresh(s, r, n);
    OtherTasksOk(s, r, n);
  }

  /** The same, when `n` also moves from WAITING to RUNNING. */
  lemma StartStep(s: Run, r: Run, n: string)
    requires Inv(s) && n in s.tasks && n in s.nodes && s.nodes[n] == Waiting
    requires r.graph == s.graph && r.counters == s.counters && r.ctx == s.ctx && r.fannedOut == s.fannedOut
    requires r.dag == s.dag && r.latchDown == s.latchDown && r.nodes == s.nodes[n := Running]
    requires n in r.tasks && r.tasks == s.tasks[n := r.tasks[n]]
    requires TaskOk(r, n)
    ensures Inv(r)
  {
    StartTasks(s, r, n);
    StartCounts(s, r, n);
    StartRecorded(s, r, n);
  }

  // Each step keeps the invariant

  lemma AllWaiting(s: Run)
    requires Fresh(s) && StartedOnlyWhenFired(s) && s.dag == DagWaiting
    ensures forall v :: v in s.nodes ==> s.nodes[v] == Waiting
  {
  }

  lemma BeginTasks(s: Run)
    requires Runnable(s.graph) && Shape(s) && Latch(s) && s.dag == DagWaiting && s.tasks == map[]
    requires forall v :: v in s.nodes ==> s.nodes[v] == Waiting
    ensures var r := Begin(s);
            Shape(r) && Fresh(r) && Latch(r) && FiredAfterPredecessors(r) && StartedOnlyWhenFired(r) && TasksOk(r)
  {
    var r := Begin(s);
    assert r.tasks == map[START_NODE_NAME := NewTask(START_NODE_NAME)];
    assert TaskOk(r, START_NODE_NAME);
  }

  lemma BeginInv(s: Run)
    requires Inv(s) && s.dag == DagWaiting
    ensures Inv(Begin(s))
  {
    AllWaiting(s);
    BeginTasks(s);
    SameCounts(s, Begin(s));
    SameRecorded(s, Begin(s));
  }

  lemma SupplyStartInv(s: Run, n: string)
    requires Inv(s) && n in s.tasks && s.tasks[n].phase == Queued
    ensures Inv(SupplyStart(s, n))
  {
    var t := s.tasks[n];
    assert TaskOk(s, n);
    if s.dag != DagRunning || n !in s.nodes || s.nodes[n] != Waiting {
      var r := s.(tasks := s.tasks[n := t.(phase := Finished, completion := WithNull)]);
      assert TaskOk(r, n);
      TaskStep(s, r, n);
    } else {
      var r := s.(nodes := s.nodes[n := Running],
                  tasks := s.tasks[n := t.(record := t.record.(state := Some(Running)), phase := Executing)]);
      assert TaskOk(r, n);
      StartStep(s, r, n);
    }
  }

  /** Writing a final state into `n`'s shared record keeps `Recorded`:
      the context sees the write exactly when it already stores the record. */
  lemma SyncRecorded(s: Run, r: Run, n: string)
    requires Recorded(s) && n in s.tasks && r.nodes == s.nodes
    requires n in r.tasks && r.tasks == s.tasks[n := r.tasks[n]]
    requires CompletedOk(n, r.tasks[n].record) && r.ctx == Synced(s.ctx, r.tasks[n].record)
    ensures Recorded(r)
  {
    var rec := r.tasks[n].record;
    forall v | v in r.nodes
      ensures GetNodeResult(r.ctx, v).Ok?
      ensures GetNodeResult(r.ctx, v).value.Some? <==> IsTerminalNode(r.nodes[v])
      ensures GetNodeResult(r.ctx, v).value.Some? ==>
                v in r.tasks && GetNodeResult(r.ctx, v).value.value == r.tasks[v].record
                && CompletedOk(v, GetNodeResult(r.ctx, v).value.value)
    {
      if v != n {
        assert GetNodeResult(r.ctx, v) == GetNodeResult(s.ctx, v);
      } else if Get(s.ctx, NodeResultKey(n)).Some? {
        assert GetNodeResult(s.ctx, n).value.Some?;
        assert GetNodeResult(r.ctx, n) == Ok(Some(rec));
      } else {
        assert r.ctx == s.ctx;
      }
    }
  }

  /** A step that writes a final state into `n`'s shared record, and
      changes nothing else but `n`'s task, keeps the invariant. */
  lemma RecordStep(s: Run, r: Run, n: string)
    requires Inv(s) && n in s.tasks
    requires r.graph == s.graph && r.counters == s.counters && r.fannedOut == s.fannedOut
    requires r.dag == s.dag && r.latchDown == s.latchDown && r.nodes == s.nodes
    requires n in r.tasks && r.tasks == s.tasks[n := r.tasks[n]]
    requires TaskOk(r, n) && CompletedOk(n, r.tasks[n].record) && r.ctx == Synced(s.ctx, r.tasks[n].record)
    ensures Inv(r)
  {
    TaskFrame(s, r, n);
    OtherTasksOk(s, r, n);
    SyncRecorded(s, r, n);
  }

  /** The parts of the invariant that do not look at tasks' records keep
      when only `n`'s task changes. */
  lemma TaskFrame(s: Run, r: Run, n: string)
    requires Inv(s) && n in s.tasks
    requires r.graph == s.graph && r.counters == s.counters && r.fannedOut == s.fannedOut
    requires r.dag == s.dag && r.latchDown == s.latchDown && r.nodes == s.nodes
    requires n in r.tasks && r.tasks == s.tasks[n := r.tasks[n]]
    ensures Runnable(r.graph) && Shape(r) && Fresh(r) && Latch(r) && FiredAfterPredecessors(r)
    ensures StartedOnlyWhenFired(r) && FannedOutWhenAllowed(r) && Counted(r)
  {
    TaskShape(s, r, n);
    TaskFired(s, r, n);
    TaskStarted(s, r, n);
    TaskFresh(s, r, n);
    SameCounts(s, r);
  }

  lemma SupplyEndInv(s: Run, n: string, inv: Invoker, code: UserCode, fc: FilterCode)
    requires Inv(s) && n in s.tasks && s.tasks[n].phase == Executing && n in s.graph.nodeMap
    ensures Inv(SupplyEnd(s, n, inv, code, fc))
  {
    var out := Invoke(inv, s.graph.nodeMap[n], s.ctx, code, fc);
    ExecutedInv(s, n, out);
  }

  /** Writing any invocation outcome into an executing node's record keeps
      the invariant. */
  lemma ExecutedInv(s: Run, n: string, out: InvokeResult)
    requires Inv(s) && n in s.tasks && s.tasks[n].phase == Executing
    ensures var t := s.tasks[n];
            var rec := Executed(t.record, out);
            Inv(s.(ctx := Synced(s.ctx, rec),
                   tasks := s.tasks[n := t.(record := rec, phase := Finished, completion := Complete(t.completion, WithRecord))]))
  {
    var t := s.tasks[n];
    var rec := Executed(t.record, out);
    var r := s.(ctx := Synced(s.ctx, rec),
                tasks := s.tasks[n := t.(record := rec, phase := Finished, completion := Complete(t.completion, WithRecord))]);
    assert TaskOk(s, n);
    assert TaskOk(r, n);
    RecordStep(s, r, n);
  }

  lemma TimerCheckInv(s: Run, n: string)
    requires Inv(s) && n in s.tasks
    ensures Inv(TimerCheck(s, n))
  {
    var t := s.tasks[n];
    var passes := t.completion == Pending && (t.record.state == Some(Waiting) || t.record.state == Some(Running));
    var r := s.(tasks := s.tasks[n := t.(timer := if passes then Passed else Spent)]);
    assert Inv(r) by {
      assert TaskOk(s, n);
      assert TaskOk(r, n);
      TaskStep(s, r, n);
    }
    assert TimerCheck(s, n) == r;
  }

  lemma TimerInv(s: Run, n: string)
    requires Inv(s) && n in s.tasks && s.tasks[n].timer == Passed
    ensures Inv(TimerFires(s, n))
  {
    var t := s.tasks[n];
    var rec := t.record.(state := Some(NodeTimeout), throwable := Some(Timeout(n)));
    var r := s.(ctx := Synced(s.ctx, rec),
                tasks := s.tasks[n := t.(record := rec, completion := Complete(t.completion, WithRecord), timer := Spent)]);
    assert Inv(r) by {
      assert TaskOk(s, n);
      assert TaskOk(r, n);
      RecordStep(s, r, n);
    }
    assert TimerFires(s, n) == r;
  }

  // The completion callback keeps the invariant

  lemma FinishTasks(s: Run, r: Run, n: string)
    requires Shape(s) && Fresh(s) && Latch(s) && FiredAfterPredecessors(s) && StartedOnlyWhenFired(s) && TasksOk(s)
    requires n in s.nodes && s.nodes[n] == Running
    requires r.graph == s.graph && r.counters == s.counters && r.fannedOut == s.fannedOut && r.tasks == s.tasks
    requires r.dag == s.dag && r.latchDown == s.latchDown
    requires n in r.nodes && r.nodes == s.nodes[n := r.nodes[n]] && IsTerminalNode(r.nodes[n])
    ensures Shape(r) && Fresh(r) && Latch(r) && FiredAfterPredecessors(r) && StartedOnlyWhenFired(r) && TasksOk(r)
  {
    assert TaskOk(s, n);
    forall v | v in r.tasks
      ensures TaskOk(r, v)
    {
      assert TaskOk(s, v);
    }
  }

  lemma FinishCounts(s: Run, r: Run, n: string)
    requires Counted(s) && FannedOutWhenAllowed(s)
    requires n in s.nodes && s.nodes[n] == Running
    requires r.graph == s.graph && r.counters == s.counters && r.fannedOut == s.fannedOut
    requires n in r.nodes && r.nodes == s.nodes[n := r.nodes[n]] && IsTerminalNode(r.nodes[n])
    ensures Counted(r) && FannedOutWhenAllowed(r)
  {
  }

  lemma FinishRecorded(s: Run, r: Run, n: string, c: NodeResult)
    requires Recorded(s) && n in s.nodes && CompletedOk(n, c) && n in s.tasks && c == s.tasks[n].record
    requires PutNodeResult(s.ctx, Some(n), Some(c)).Ok?
    requires r.ctx == PutNodeResult(s.ctx, Some(n), Some(c)).value
    requires r.nodes == s.nodes[n := c.state.value] && r.tasks == s.tasks
    ensures Recorded(r)
  {
    forall v | v in r.nodes
      ensures GetNodeResult(r.ctx, v).Ok?
      ensures GetNodeResult(r.ctx, v).value.Some? <==> IsTerminalNode(r.nodes[v])
      ensures GetNodeResult(r.ctx, v).value.Some? ==>
                v in r.tasks && GetNodeResult(r.ctx, v).value.value == r.tasks[v].record
                && CompletedOk(v, GetNodeResult(r.ctx, v).value.value)
    {
      if v != n {
        assert GetNodeResult(r.ctx, v) == GetNodeResult(s.ctx, v);
      }
    }
  }

  /** Storing a RUNNING node's final result and state keeps the invariant. */
  lemma FinishInv(s: Run, r: Run, n: string, c: NodeResult)
    requires Inv(s) && n in s.nodes && s.nodes[n] == Running && CompletedOk(n, c)
    requires n in s.tasks && c == s.tasks[n].record
    requires r == s.(ctx := PutNodeResult(s.ctx, Some(n), Some(c)).value, nodes := s.nodes[n := c.state.value])
    ensures Inv(r)
  {
    FinishTasks(s, r, n);
    FinishCounts(s, r, n);
    FinishRecorded(s, r, n, c);
  }

  /** With the invariant, no counter of a WAITING successor is missing or
      below 1, so neither failure branch of the decrement is taken. */
  lemma DecrementNormal(s: Run, succ: set<string>)
    requires s.dag == DagRunning
    requires forall v :: v in WaitingAmong(s, succ) ==> v in s.counters && s.counters[v] >= 1
    ensures Decrement(s, succ)
         == s.(counters := Lowered(s.counters, WaitingAmong(s, succ)), tasks := Fired(s.tasks, Ready(s, WaitingAmong(s, succ))))
  {
  }

  lemma PositiveCounters(s: Run, n: string)
    requires Shape(s) && Counted(s) && n !in s.fannedOut
    ensures forall v :: v in WaitingAmong(s, SuccessorNames(s.graph, n)) ==> v in s.counters && s.counters[v] >= 1
  {
    forall v | v in WaitingAmong(s, SuccessorNames(s.graph, n))
      ensures v in s.counters && s.counters[v] >= 1
    {
      assert n in Pred(s.graph.graph, v) - s.fannedOut;
      SubsetCardinality({n}, Pred(s.graph.graph, v) - s.fannedOut);
    }
  }

  lemma FanOutFired(s: Run, r: Run, n: string)
    requires FiredAfterPredecessors(s) && Counted(s) && n !in s.fannedOut
    requires r.graph == s.graph && r.fannedOut == s.fannedOut + {n}
    requires r.tasks == Fired(s.tasks, Ready(s, WaitingAmong(s, SuccessorNames(s.graph, n))))
    ensures FiredAfterPredecessors(r)
  {
    var w := WaitingAmong(s, SuccessorNames(s.graph, n));
    forall v | v in r.tasks
      ensures Pred(r.graph.graph, v) <= r.fannedOut
    {
      if v in Ready(s, w) {
        OnlyOneLeft(Pred(s.graph.graph, v), s.fannedOut, n);
      }
    }
  }

  lemma FanOutCounted(s: Run, r: Run, n: string)
    requires Shape(s) && Counted(s) && n !in s.fannedOut
    requires r.graph == s.graph && r.nodes == s.nodes && r.fannedOut == s.fannedOut + {n}
    requires r.counters == Lowered(s.counters, WaitingAmong(s, SuccessorNames(s.graph, n)))
    ensures Counted(r)
  {
    var w := WaitingAmong(s, SuccessorNames(s.graph, n));
    forall v | v in r.nodes && r.nodes[v] == Waiting
      ensures v in r.counters && r.counters[v] == |Pred(r.graph.graph, v) - r.fannedOut|
    {
      var P := Pred(s.graph.graph, v);
      assert n in P <==> v in SuccessorNames(s.graph, n);
      if v in w {
        RemoveOne(P, s.fannedOut, n);
      } else {
        KeepOthers(P, s.fannedOut, n);
      }
    }
  }

  lemma FanOutTasks(s: Run, r: Run, n: string)
    requires Shape(s) && TasksOk(s) && StartedOnlyWhenFired(s)
    requires r.graph == s.graph && r.nodes == s.nodes
    requires r.tasks == Fired(s.tasks, Ready(s, WaitingAmong(s, SuccessorNames(s.graph, n))))
    ensures TasksOk(r) && StartedOnlyWhenFired(r) && r.tasks.Keys <= r.graph.graph.nodes
  {
    var ready := Ready(s, WaitingAmong(s, SuccessorNames(s.graph, n)));
    forall v | v in r.tasks
      ensures TaskOk(r, v)
    {
      if v !in ready {
        assert TaskOk(s, v);
      }
    }
  }

  /** The state the fan-out from `n` reaches when no counter is missing or
      too low. */
  function FanOut(s: Run, n: string): Run
  {
    var w := WaitingAmong(s, SuccessorNames(s.graph, n));
    s.(fannedOut := s.fannedOut + {n}, counters := Lowered(s.counters, w), tasks := Fired(s.tasks, Ready(s, w)))
  }

  lemma FanOutNormal(s: Run, n: string)
    requires Shape(s) && Counted(s) && s.dag == DagRunning && n !in s.fannedOut
    ensures Decrement(s.(fannedOut := s.fannedOut + {n}), SuccessorNames(s.graph, n)) == FanOut(s, n)
  {
    var succ := SuccessorNames(s.graph, n);
    var s4 := s.(fannedOut := s.fannedOut + {n});
    assert WaitingAmong(s4, succ) == WaitingAmong(s, succ);
    PositiveCounters(s, n);
    DecrementNormal(s4, succ);
  }

  lemma FanOutRest(s: Run, n: string)
    requires Shape(s) && Latch(s) && FannedOutWhenAllowed(s) && Recorded(s) && s.dag == DagRunning
    requires n in s.nodes && IsTerminalNode(s.nodes[n])
    requires s.nodes[n] == Succeeded || !HasStrongSuccessor(s.graph, n)
    requires FanOut(s, n).tasks.Keys <= s.graph.graph.nodes
    ensures var r := FanOut(s, n);
            Shape(r) && Fresh(r) && Latch(r) && FannedOutWhenAllowed(r) && Recorded(r)
  {
  }

  /** Fanning out from a finished node that may fan out keeps the invariant. */
  lemma FanOutInv(s: Run, n: string)
    requires Inv(s) && s.dag == DagRunning && n in s.nodes && n !in s.fannedOut && IsTerminalNode(s.nodes[n])
    requires s.nodes[n] == Succeeded || !HasStrongSuccessor(s.graph, n)
    ensures Inv(Decrement(s.(fannedOut := s.fannedOut + {n}), SuccessorNames(s.graph, n)))
  {
    FanOutNormal(s, n);
    FanOutFired(s, FanOut(s, n), n);
    FanOutCounted(s, FanOut(s, n), n);
    FanOutTasks(s, FanOut(s, n), n);
    FanOutRest(s, n);
  }

  /** `fireNextNode` from a node whose final state is stored keeps the invariant. */
  lemma FireNextInv(s: Run, n: string, c: NodeResult)
    requires Inv(s) && n in s.nodes && n !in s.fannedOut && c.state == Some(s.nodes[n]) && IsTerminalNode(s.nodes[n])
    ensures Inv(FireNext(s, n, c))
  {
    if s.dag != DagRunning {
    } else if c.state != Some(Succeeded) && HasStrongSuccessor(s.graph, n) {
      DagDoneInv(s, Failed, c.throwable);
    } else if n == END_NODE_NAME || SuccessorNames(s.graph, n) == {} {
      DagDoneInv(s, Succeed, None);
    } else {
      FanOutInv(s, n);
    }
  }

  lemma ResolveInv(s: Run, n: string, c: NodeResult, elapsed: int)
    requires Inv(s) && s.dag == DagRunning && n in s.nodes && s.nodes[n] == Running && CompletedOk(n, c)
    requires n in s.tasks && c == s.tasks[n].record
    ensures Inv(Resolve(s, n, c, elapsed))
  {
    var s2 := s.(ctx := PutNodeResult(s.ctx, Some(n), Some(c)).value, nodes := s.nodes[n := c.state.value]);
    FinishInv(s, s2, n, c);
    if GraphTimedOut(s.limit, elapsed) {
      DagDoneInv(s2, DagTimeout, Some(Timeout(s.graph.graphName)));
    } else {
      assert CheckTimeout(s2, elapsed) == s2;
      FireNextInv(s2, n, c);
    }
  }

  lemma DeliverInv(s: Run, n: string, elapsed: int)
    requires Inv(s) && n in s.tasks && s.tasks[n].completion != Pending
    ensures Inv(Deliver(s, n, elapsed))
  {
    var t := s.tasks[n];
    var s1 := s.(tasks := s.tasks[n := t.(delivered := true)]);
    assert Inv(s1) by {
      assert TaskOk(s, n);
      assert TaskOk(s1, n);
      TaskStep(s, s1, n);
    }
    if t.completion == WithRecord && s1.dag == DagRunning && n in s1.nodes && s1.nodes[n] == Running {
      ResolveInv(s1, n, t.record, elapsed);
      assert Deliver(s, n, elapsed) == Resolve(s1, n, t.record, elapsed);
    } else {
      assert Deliver(s, n, elapsed) == s1;
    }
  }

  lemma StopWaiting(s: Run)
    requires Inv(s)
    ensures Inv(s.(waiting := false))
  {
    var r := s.(waiting := false);
    SameTasks(s, r);
    SameCounts(s, r);
    SameRecorded(s, r);
    SameFired(s, r);
    SameStarted(s, r);
    SameShape(s, r);
  }

  lemma AwaitInv(s: Run, e: Step, code: UserCode, fc: FilterCode)
    requires Inv(s) && Enabled(s, e) && (e.AwaitTimesOut? || e.AwaitInterrupted? || e.AwaitReturns?)
    ensures Inv(Next(s, e, code, fc))
  {
    StopWaiting(s);
    if e.AwaitTimesOut? {
      DagDoneInv(s.(waiting := false), DagTimeout, Some(Timeout(s.graph.graphName)));
    } else if e.AwaitInterrupted? {
      DagDoneInv(s.(waiting := false), DagInterrupted, Some(Interrupted));
    }
  }

  /** Every step of the run keeps the invariant. */
  lemma NextInv(s: Run, e: Step, code: UserCode, fc: FilterCode)
    requires Inv(s) && Enabled(s, e)
    ensures Inv(Next(s, e, code, fc))
  {
    match e
    case Start => BeginInv(s);
    case SupplierStarts(n) => SupplyStartInv(s, n);
    case SupplierReturns(n, inv) => SupplyEndInv(s, n, inv, code, fc);
    case TimerExpires(n) => TimerCheckInv(s, n);
    case TimerWrites(n) => TimerInv(s, n);
    case Callback(n, elapsed) => DeliverInv(s, n, elapsed);
    case _ => AwaitInv(s, e, code, fc);
  }
}
