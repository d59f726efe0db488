/** What the invariant of `ConcurrentEngine` buys: the guarantees a caller
    of `ConcurrentDagEngine.fire` relies on, for every schedule the
    environment can choose. */
module EngineProperties {
  import opened Wrappers
  import opened DependencyTypes
  import opened States
  import opened Values
  import opened Contexts
  import opened Handlers
  import opened Digraphs
  import opened DagGraphs
  import opened Invokers
  import opened ConcurrentEngine

  /** A node leaves WAITING only after each of its predecessors has
      finished, and a predecessor joined to it by a STRONG edge has
      succeeded. */
  lemma StartedAfterPredecessors(s: Run, u: string, v: string)
    requires Inv(s) && v in s.nodes && s.nodes[v] != Waiting && (u, v) in s.graph.graph.weights
    ensures u in s.nodes && IsTerminalNode(s.nodes[u])
    ensures s.graph.graph.weights[(u, v)] == Strong.Code() ==> s.nodes[u] == Succeeded
  {
    assert v in s.tasks;
    assert u in Pred(s.graph.graph, v);
    assert u in s.fannedOut;
    if s.graph.graph.weights[(u, v)] == Strong.Code() {
      assert HasStrongSuccessor(s.graph, u);
    }
  }

  /** Once the run is done, no step changes its state or throwable, and
      the latch stays released: the first `dagDone` wins. */
  lemma DoneIsFinal(s: Run, e: Step, code: UserCode, fc: FilterCode)
    requires Latch(s) && Enabled(s, e) && IsDoneState(s.dag)
    ensures Next(s, e, code, fc).dag == s.dag
    ensures Next(s, e, code, fc).throwable == s.throwable
    ensures Next(s, e, code, fc).latchDown
  {
    match e
    case Callback(n, elapsed) =>
      var t := s.tasks[n];
      var s1 := s.(tasks := s.tasks[n := t.(delivered := true)]);
      assert Deliver(s, n, elapsed) == s1;
    case _ =>
  }

  /** From `s` to `r` no finished node changes its state, a stored result
      stays stored, and no RUNNING node goes back to WAITING. */
  predicate Progressed(s: Run, r: Run)
  {
    forall v :: v in s.nodes ==>
      && v in r.nodes
      && (IsTerminalNode(s.nodes[v]) ==> r.nodes[v] == s.nodes[v])
      && (Get(s.ctx, NodeResultKey(v)).Some? ==> Get(r.ctx, NodeResultKey(v)).Some?)
      && (s.nodes[v] == Running ==> r.nodes[v] != Waiting)
  }

  lemma DeliverProgress(s: Run, n: string, elapsed: int)
    requires n in s.tasks && TaskOk(s, n) && s.tasks[n].completion != Pending
    ensures Progressed(s, Deliver(s, n, elapsed))
  {
    var t := s.tasks[n];
    var s1 := s.(tasks := s.tasks[n := t.(delivered := true)]);
    if t.completion == WithRecord && s.dag == DagRunning && n in s.nodes && s.nodes[n] == Running {
      var r := Deliver(s, n, elapsed);
      assert r == Resolve(s1, n, t.record, elapsed);
      forall v | v in s.nodes && Get(s.ctx, NodeResultKey(v)).Some?
        ensures Get(r.ctx, NodeResultKey(v)).Some?
      {
        if v != n {
          NodeResultKeyInjective(v, n);
        }
      }
    }
  }

  /** A step that writes into a shared record keeps every stored result stored. */
  lemma SyncedKeepsStored(ctx: DagContext, rec: NodeResult, v: string)
    requires Get(ctx, NodeResultKey(v)).Some?
    ensures Get(Synced(ctx, rec), NodeResultKey(v)).Some?
  {
    if Get(ctx, NodeResultKey(rec.nodeName)).Some? && v != rec.nodeName {
      NodeResultKeyInjective(v, rec.nodeName);
    }
  }

  lemma OtherProgress(s: Run, e: Step, code: UserCode, fc: FilterCode)
    requires Enabled(s, e) && !e.Callback?
    ensures Progressed(s, Next(s, e, code, fc))
  {
    var r := Next(s, e, code, fc);
    forall v | v in s.nodes && Get(s.ctx, NodeResultKey(v)).Some?
      ensures Get(r.ctx, NodeResultKey(v)).Some?
    {
      match e
      case SupplierReturns(n, inv) =>
        var t := s.tasks[n];
        SyncedKeepsStored(s.ctx, Executed(t.record, Invoke(inv, s.graph.nodeMap[n], s.ctx, code, fc)), v);
      case TimerWrites(n) =>
        var t := s.tasks[n];
        SyncedKeepsStored(s.ctx, t.record.(state := Some(NodeTimeout), throwable := Some(Timeout(n))), v);
      case _ =>
    }
  }

  /** Node states only move forward: WAITING to RUNNING to a final state,
      and a final state is never overwritten; a stored result stays
      stored. */
  lemma StepProgress(s: Run, e: Step, code: UserCode, fc: FilterCode)
    requires Inv(s) && Enabled(s, e)
    ensures Progressed(s, Next(s, e, code, fc))
  {
    if e.Callback? {
      assert TaskOk(s, e.n);
      DeliverProgress(s, e.n, e.elapsed);
    } else {
      OtherProgress(s, e, code, fc);
    }
  }

  /** The result the context stores for a finished node is the node's
      shared record: a supplier that returns after its node timed out and
      was recorded rewrites the stored result to SUCCEEDED or FAILED, while
      the node's own state stays as it was. */
  lemma LateSupplierRewritesStoredResult(s: Run, n: string, inv: Invoker, code: UserCode, fc: FilterCode)
    requires Inv(s) && Enabled(s, SupplierReturns(n, inv)) && n in s.nodes && IsTerminalNode(s.nodes[n])
    ensures var r := Next(s, SupplierReturns(n, inv), code, fc);
            && r.nodes[n] == s.nodes[n]
            && GetNodeResult(r.ctx, n) == Ok(Some(r.tasks[n].record))
            && (r.tasks[n].record.state == Some(Succeeded) || r.tasks[n].record.state == Some(NodeFailed))
  {
    assert TaskOk(s, n);
    assert GetNodeResult(s.ctx, n).value.Some?;
  }

  /** Likewise, a timer that passed its test before its node finished
      writes TIMEOUT into the stored result, whatever state the node
      finished with. */
  lemma LateTimerRewritesStoredResult(s: Run, n: string)
    requires Inv(s) && Enabled(s, TimerWrites(n)) && n in s.nodes && IsTerminalNode(s.nodes[n])
    ensures forall code: UserCode, fc: FilterCode :: var r := Next(s, TimerWrites(n), code, fc);
            && r.nodes[n] == s.nodes[n]
            && GetNodeResult(r.ctx, n) == Ok(Some(r.tasks[n].record))
            && r.tasks[n].record.state == Some(NodeTimeout)
  {
    assert TaskOk(s, n);
    assert GetNodeResult(s.ctx, n).value.Some?;
  }

  /** A successor that the fan-out fires had never been fired before: its
      one remaining predecessor was the node fanning out. */
  lemma ReadyIsNew(s: Run, n: string, v: string)
    requires FiredAfterPredecessors(s) && n !in s.fannedOut
    requires v in WaitingAmong(s, SuccessorNames(s.graph, n))
    ensures v !in s.tasks
  {
    assert n in Pred(s.graph.graph, v);
  }

  /** What fanning out from `n` did: `n` joined the fanned-out set, every
      WAITING successor's counter dropped by one, exactly those at 1 were
      fired, and nothing else changed. */
  ghost predicate FannedOutFrom(s: Run, r: Run, n: string)
  {
    var w := WaitingAmong(s, SuccessorNames(s.graph, n));
    && r.nodes == s.nodes && r.ctx == s.ctx && r.fannedOut == s.fannedOut + {n}
    && r.counters.Keys == s.counters.Keys
    && (forall v :: v in s.counters ==> r.counters[v] == if v in w then s.counters[v] - 1 else s.counters[v])
    && (forall v :: v in s.tasks ==> v in r.tasks && r.tasks[v] == s.tasks[v])
    && (forall v :: v in r.tasks && v !in s.tasks <==> v in w && v in s.counters && s.counters[v] == 1)
    && (forall v :: v in r.tasks && v !in s.tasks ==> r.tasks[v] == NewTask(v))
  }

  lemma FanOutOutcome(s: Run, n: string)
    requires Inv(s) && s.dag == DagRunning && n in s.nodes && n !in s.fannedOut
    ensures var r := Decrement(s.(fannedOut := s.fannedOut + {n}), SuccessorNames(s.graph, n));
            r.dag == DagRunning && r.throwable == s.throwable && FannedOutFrom(s, r, n)
  {
    FanOutNormal(s, n);
    var w := WaitingAmong(s, SuccessorNames(s.graph, n));
    forall v | v in w
      ensures v !in s.tasks
    {
      ReadyIsNew(s, n, v);
    }
  }

  /** `fireNextNode` from a finished node: the run fails, with the node's
      throwable, exactly when the node did not succeed and has a STRONG
      outgoing edge; otherwise it succeeds exactly when the node is the
      end node or has no successors; otherwise it keeps RUNNING and fans
      out, never reaching the negative-counter failure. */
  lemma FireNextOutcome(s: Run, n: string, c: NodeResult)
    requires Inv(s) && s.dag == DagRunning && n in s.nodes && n !in s.fannedOut
    ensures var r := FireNext(s, n, c);
            && (r.dag == Failed <==> c.state != Some(Succeeded) && HasStrongSuccessor(s.graph, n))
            && (r.dag == Failed ==> r.throwable == c.throwable)
            && (r.dag == Succeed <==> !(r.dag == Failed) && (n == END_NODE_NAME || SuccessorNames(s.graph, n) == {}))
            && (r.dag == Succeed ==> r.throwable == None)
            && (r.dag != Failed && r.dag != Succeed ==> r.dag == DagRunning && FannedOutFrom(s, r, n))
  {
    if c.state != Some(Succeeded) && HasStrongSuccessor(s.graph, n) {
    } else if n == END_NODE_NAME || SuccessorNames(s.graph, n) == {} {
    } else {
      FanOutOutcome(s, n);
    }
  }
}
