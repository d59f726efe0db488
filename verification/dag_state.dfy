/** The two state machines of a run: the graph-level `DagState` and the
    per-node `NodeState`, with the terminal-state test of the graph states. */
module States {
  import opened Wrappers

  /** Graph-level state of one run. */
  datatype DagState = DagWaiting | DagRunning | Succeed | Failed | DagTimeout | DagInterrupted

  /** Per-node state of one run. */
  datatype NodeState = Waiting | Running | Succeeded | NodeFailed | NodeTimeout

  /** `DagState.isDoneState`: the run has reached one of its four outcomes. */
  predicate IsDoneState(s: DagState): (r: bool)
    ensures r <==> s != DagWaiting && s != DagRunning
  {
    s == Succeed || s == Failed || s == DagTimeout || s == DagInterrupted
  }

  /** A node state from which neither engine moves the node again. */
  predicate IsTerminalNode(s: NodeState): (r: bool)
    ensures r <==> s != Waiting && s != Running
  {
    s == Succeeded || s == NodeFailed || s == NodeTimeout
  }

  /** The view of a run that `fire` hands back (`DagResult`): the graph
      state, the recorded throwable and the per-node states (a node state
      may be `null` in the single-thread engine). */
  datatype DagResult = DagResult(state: DagState, throwable: Option<Throwable>,
                                 nodeStates: map<string, Option<NodeState>>) {

    /** `DagResult.isDone`: the state is one of the done states. */
    predicate IsDone(): (r: bool)
      ensures r <==> state != DagWaiting && state != DagRunning
    {
      IsDoneState(state)
    }
  }
}
