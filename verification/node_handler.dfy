/** `DefaultNodeHandler` and its builder: a named unit of work made of an
    optional guard, an action and an optional timeout. Guards and actions
    are user code; the model names them and takes their behaviour from a
    `UserCode` value, so nothing foreign is called. */
module Handlers {
  import opened Wrappers
  import opened Values
  import opened Contexts

  /** A guard. `NodeCondition` sees the node (a `BiPredicate`), while
      `ContextCondition` sees only the context (a `Predicate` the builder
      wraps); `And` is `BiPredicate.and`. `Delegate` tests with another
      handler's `evaluate`, and `NullTest` is the builder's wrapper around a
      null `Predicate`, which throws `NullPointerException` when tested. */
  datatype Guard =
    | NodeCondition(id: string)
    | ContextCondition(id: string)
    | And(left: Guard, right: Guard)
    | Delegate(handler: Handler)
    | NullTest

  /** An action: a `BiFunction`, a context-only `Function`, or a context
      `Consumer` that returns null (the builder's init/end actions). */
  datatype Action =
    | NodeAction(id: string)
    | ContextAction(id: string)
    | ContextConsumer(id: string)

  /** What a call into user code does: return a (possibly null) value or throw. */
  datatype Outcome = Returned(value: Option<Value>) | Threw(error: Throwable)

  /** The behaviour of the user code the guards and actions name. A test
      either answers or throws; node-aware code receives the node's name. */
  datatype UserCode = UserCode(
    test: (string, string, DagContext) -> Result<bool>,
    testContext: (string, DagContext) -> Result<bool>,
    apply: (string, string, DagContext) -> Outcome,
    applyContext: (string, DagContext) -> Outcome,
    accept: (string, DagContext) -> Option<Throwable>)

  /** Evaluation of a guard. `And` short-circuits: the right side is not
      evaluated when the left side is false or throws. */
  function EvalGuard(g: Guard, nodeName: string, ctx: DagContext, code: UserCode): Result<bool>
    decreases g
  {
    match g
    case NodeCondition(id) => code.test(id, nodeName, ctx)
    case ContextCondition(id) => code.testContext(id, ctx)
    case And(l, r) =>
      var a :- EvalGuard(l, nodeName, ctx, code);
      if a then EvalGuard(r, nodeName, ctx, code) else Ok(false)
    case Delegate(h) => Evaluate(h, nodeName, ctx, code)
    case NullTest => Err(NullPointer(""))
  }

  /** The conditions of a guard, left to right. */
  function Atoms(g: Guard): (r: seq<Guard>)
    ensures |r| >= 1
    ensures forall i :: 0 <= i < |r| ==> !r[i].And?
  {
    match g
    case And(l, r) => Atoms(l) + Atoms(r)
    case _ => [g]
  }

  /** Reference semantics of a conjunction: evaluate the conditions left
      to right, stop at the first one that is false or throws. */
  function EvalAll(atoms: seq<Guard>, nodeName: string, ctx: DagContext, code: UserCode): Result<bool>
  {
    if atoms == [] then Ok(true)
    else
      var a :- EvalGuard(atoms[0], nodeName, ctx, code);
      if a then EvalAll(atoms[1..], nodeName, ctx, code) else Ok(false)
  }

  /** Evaluating the conditions of two sequences one after the other. */
  lemma {:induction false} EvalAllAppend(xs: seq<Guard>, ys: seq<Guard>, nodeName: string, ctx: DagContext, code: UserCode)
    ensures EvalAll(xs + ys, nodeName, ctx, code) ==
      (match EvalAll(xs, nodeName, ctx, code)
       case Err(e) => Err(e)
       case Ok(a) => if a then EvalAll(ys, nodeName, ctx, code) else Ok(false))
  {
    if xs == [] {
      assert xs + ys == ys;
    } else {
      assert (xs + ys)[0] == xs[0];
      assert (xs + ys)[1..] == xs[1..] + ys;
      EvalAllAppend(xs[1..], ys, nodeName, ctx, code);
    }
  }

  /** However `And` nodes are nested, a guard evaluates as the short-circuit
      conjunction of its conditions from left to right. */
  lemma {:induction false} GuardIsConjunction(g: Guard, nodeName: string, ctx: DagContext, code: UserCode)
    ensures EvalGuard(g, nodeName, ctx, code) == EvalAll(Atoms(g), nodeName, ctx, code)
  {
    match g
    case And(l, r) =>
      GuardIsConjunction(l, nodeName, ctx, code);
      GuardIsConjunction(r, nodeName, ctx, code);
      EvalAllAppend(Atoms(l), Atoms(r), nodeName, ctx, code);
    case _ =>
      assert Atoms(g)[1..] == [];
  }

  /** A guard made only of context conditions answers the same for every node. */
  lemma {:induction false} ContextGuardIgnoresNode(g: Guard, n1: string, n2: string, ctx: DagContext, code: UserCode)
    requires forall i :: 0 <= i < |Atoms(g)| ==> Atoms(g)[i].ContextCondition?
    ensures EvalGuard(g, n1, ctx, code) == EvalGuard(g, n2, ctx, code)
  {
    match g
    case And(l, r) =>
      assert forall i :: 0 <= i < |Atoms(l)| ==> Atoms(l)[i] == Atoms(g)[i];
      assert forall i :: 0 <= i < |Atoms(r)| ==> Atoms(r)[i] == Atoms(g)[|Atoms(l)| + i];
      ContextGuardIgnoresNode(l, n1, n2, ctx, code);
      ContextGuardIgnoresNode(r, n1, n2, ctx, code);
    case ContextCondition(_) =>
    case _ =>
      LeafIsOwnAtom(g);
      assert false;
  }

  /** A guard that is a single condition is its own only condition. */
  lemma LeafIsOwnAtom(g: Guard)
    requires !g.And?
    ensures Atoms(g)[0] == g
  {
  }

  /** Running an action. A context-only action ignores the node; a consumer
      returns null unless it throws. */
  function RunAction(a: Action, nodeName: string, ctx: DagContext, code: UserCode): (r: Outcome)
    ensures a.ContextConsumer? ==> (r.Returned? ==> r.value.None?)
    ensures a.ContextAction? ==> r == code.applyContext(a.id, ctx)
  {
    match a
    case NodeAction(id) => code.apply(id, nodeName, ctx)
    case ContextAction(id) => code.applyContext(id, ctx)
    case ContextConsumer(id) =>
      match code.accept(id, ctx)
      case None => Returned(None)
      case Some(e) => Threw(e)
  }

  /** The context-only overloads ignore the node they are handed. */
  lemma ContextActionIgnoresNode(a: Action, n1: string, n2: string, ctx: DagContext, code: UserCode)
    requires !a.NodeAction?
    ensures RunAction(a, n1, ctx, code) == RunAction(a, n2, ctx, code)
  {
  }

  /** A built `DefaultNodeHandler`. */
  datatype Handler = Handler(name: string, when: Option<Guard>, action: Option<Action>, timeout: Option<int>)

  /** The constructor rejects a null name and keeps every other argument as given. */
  function NewHandler(name: Option<string>, when: Option<Guard>, action: Option<Action>, timeout: Option<int>): (r: Result<Handler>)
    ensures r.Ok? <==> name.Some?
    ensures r.Err? ==> r.error.NullPointer?
    ensures r.Ok? ==> r.value.name == name.value && r.value.when == when
                      && r.value.action == action && r.value.timeout == timeout
  {
    var n :- RequireNonNull(name, "NodeHandler name can not be null");
    Ok(Handler(n, when, action, timeout))
  }

  /** `evaluate`: true when no guard is set, otherwise the guard's answer
      (the short-circuit conjunction of its conditions). */
  function Evaluate(h: Handler, nodeName: string, ctx: DagContext, code: UserCode): (r: Result<bool>)
    ensures h.when.None? ==> r == Ok(true)
    decreases h
  {
    match h.when
    case None => Ok(true)
    case Some(g) => EvalGuard(g, nodeName, ctx, code)
  }

  /** A handler with a guard answers as the short-circuit conjunction of
      the guard's conditions. */
  lemma EvaluateIsConjunction(h: Handler, nodeName: string, ctx: DagContext, code: UserCode)
    requires h.when.Some?
    ensures Evaluate(h, nodeName, ctx, code) == EvalAll(Atoms(h.when.value), nodeName, ctx, code)
  {
    GuardIsConjunction(h.when.value, nodeName, ctx, code);
  }

  /** `execute`: the action's outcome, its exception passed on; a handler
      built without an action throws `NullPointerException`. */
  function Execute(h: Handler, nodeName: string, ctx: DagContext, code: UserCode): (r: Outcome)
    ensures h.action.None? ==> r.Threw? && r.error.NullPointer?
    ensures h.action.Some? ==> r == RunAction(h.action.value, nodeName, ctx, code)
  {
    match h.action
    case None => Threw(NullPointer(""))
    case Some(a) => RunAction(a, nodeName, ctx, code)
  }

  /** `DefaultNodeHandler.Builder`. */
  datatype HandlerBuilder = HandlerBuilder(name: Option<string>, when: Option<Guard>,
                                           action: Option<Action>, timeout: Option<int>)

  const EmptyHandlerBuilder := HandlerBuilder(None, None, None, None)

  /** `Builder.when`: the first guard is kept as is, later ones are joined
      to the existing guard with `and`. */
  function When(b: HandlerBuilder, g: Guard): (r: HandlerBuilder)
    ensures r.when.Some?
    ensures Atoms(r.when.value) == (if b.when.None? then [] else Atoms(b.when.value)) + Atoms(g)
    ensures r.name == b.name && r.action == b.action && r.timeout == b.timeout
  {
    match b.when
    case None => b.(when := Some(g))
    case Some(w) => b.(when := Some(And(w, g)))
  }

  /** `Builder.when` with a guard that may be null. A null guard on a
      builder without one leaves it without one; on a builder that has
      one, `and` rejects it with a messageless NPE. */
  function WhenNullable(b: HandlerBuilder, g: Option<Guard>): (r: Result<HandlerBuilder>)
    ensures r.Err? <==> g.None? && b.when.Some?
    ensures r.Err? ==> r.error == NullPointer("")
    ensures g.None? && b.when.None? ==> r == Ok(b)
    ensures g.Some? ==> r.Ok? && r.value.when.Some?
                        && Atoms(r.value.when.value) == (if b.when.None? then [] else Atoms(b.when.value)) + Atoms(g.value)
    ensures r.Ok? ==> r.value.name == b.name && r.value.action == b.action && r.value.timeout == b.timeout
  {
    match g
    case Some(x) => Ok(When(b, x))
    case None => if b.when.None? then Ok(b) else Err(NullPointer(""))
  }

  /** `when` applied to each guard of a list in turn: a guard is set as
      soon as the list is not empty, and nothing else changes. */
  function WhenAll(b: HandlerBuilder, gs: seq<Guard>): (r: HandlerBuilder)
    ensures gs != [] ==> r.when.Some?
    ensures gs == [] ==> r.when == b.when
    ensures r.name == b.name && r.action == b.action && r.timeout == b.timeout
    decreases |gs|
  {
    if gs == [] then b else WhenAll(When(b, gs[0]), gs[1..])
  }

  /** All conditions of a list of guards, in order. */
  function AtomsOfAll(gs: seq<Guard>): seq<Guard>
  {
    if gs == [] then [] else Atoms(gs[0]) + AtomsOfAll(gs[1..])
  }

  /** Repeated `when` calls on a builder without a guard produce a guard
      that is the conjunction of all the given conditions, in call order. */
  lemma {:induction false} WhenAllConjunction(b: HandlerBuilder, gs: seq<Guard>)
    requires gs != []
    ensures WhenAll(b, gs).when.Some?
    ensures Atoms(WhenAll(b, gs).when.value) == (if b.when.None? then [] else Atoms(b.when.value)) + AtomsOfAll(gs)
    decreases |gs|
  {
    var b' := When(b, gs[0]);
    if |gs| == 1 {
      assert gs[1..] == [];
      assert AtomsOfAll(gs) == Atoms(gs[0]) + [];
    } else {
      WhenAllConjunction(b', gs[1..]);
      assert (if b.when.None? then [] else Atoms(b.when.value)) + AtomsOfAll(gs)
          == ((if b.when.None? then [] else Atoms(b.when.value)) + Atoms(gs[0])) + AtomsOfAll(gs[1..]);
    }
  }

  /** `Builder.when(Predicate)`: the context-only overload. */
  function WhenContext(b: HandlerBuilder, id: string): (r: HandlerBuilder)
    ensures r.when.Some? && Atoms(r.when.value)[|Atoms(r.when.value)| - 1] == ContextCondition(id)
  {
    When(b, ContextCondition(id))
  }

  /** `Builder.action`: the last action set wins. */
  function WithAction(b: HandlerBuilder, a: Action): (r: HandlerBuilder)
    ensures r.action == Some(a) && r.name == b.name && r.when == b.when && r.timeout == b.timeout
  {
    b.(action := Some(a))
  }

  /** `Builder.build`. */
  function Build(b: HandlerBuilder): (r: Result<Handler>)
    ensures r.Ok? <==> b.name.Some?
    ensures r.Ok? ==> r.value == Handler(b.name.value, b.when, b.action, b.timeout)
  {
    NewHandler(b.name, b.when, b.action, b.timeout)
  }

  /** A handler built with a guard per `when` call and an action evaluates
      to the conjunction of those guards and executes that action. */
  lemma BuiltHandlerSemantics(name: string, gs: seq<Guard>, a: Action, nodeName: string, ctx: DagContext, code: UserCode)
    requires gs != []
    ensures Build(WithAction(WhenAll(EmptyHandlerBuilder.(name := Some(name)), gs), a)).Ok?
    ensures var h := Build(WithAction(WhenAll(EmptyHandlerBuilder.(name := Some(name)), gs), a)).value;
            Evaluate(h, nodeName, ctx, code) == EvalAll(AtomsOfAll(gs), nodeName, ctx, code)
            && Execute(h, nodeName, ctx, code) == RunAction(a, nodeName, ctx, code)
  {
    WhenAllConjunction(EmptyHandlerBuilder.(name := Some(name)), gs);
    EvaluateIsConjunction(Build(WithAction(WhenAll(EmptyHandlerBuilder.(name := Some(name)), gs), a)).value, nodeName, ctx, code);
    assert [] + AtomsOfAll(gs) == AtomsOfAll(gs);
  }
}
