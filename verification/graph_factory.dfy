/** `AbstractGraphFactory`: a registry of handlers by name, and the
    translation of a graph definition into a `DagGraph`. Each node
    definition becomes a node whose handler is built afresh: it is named
    after the registered handler it refers to (or `anonymous_handler`), it
    is guarded by that handler's `evaluate` joined with the definition's
    conditions, and its dependencies are all STRONG.

    The expression language behind conditions is the subclass's
    `createCondition`, a parameter here that maps a condition's text to a
    predicate or to null. The action `createAction` builds is a parameter
    too. */
module GraphFactories {
  import opened Wrappers
  import opened DependencyTypes
  import opened Handlers
  import opened Nodes
  import opened DagGraphs
  import opened GraphBuilders
  import opened DefinitionValidation

  const ANONYMOUS_HANDLER: string := "anonymous_handler"

  /** The factory's `handlerMap`. */
  type Registry = map<string, Handler>

  /** Every handler is filed under its own name, as `registerHandler` files them. */
  predicate Keyed(reg: Registry)
  {
    forall k :: k in reg ==> reg[k].name == k
  }

  /** `getHandler`: rejects a null name; an unknown name gives null. */
  function GetHandler(reg: Registry, name: Option<string>): (r: Result<Option<Handler>>)
    ensures name.None? ==> r == Err(NullPointer("handler name cannot be null"))
    ensures name.Some? ==> r.Ok? && (r.value.Some? <==> name.value in reg)
    ensures name.Some? && name.value in reg ==> r.value.value == reg[name.value]
  {
    var n :- RequireNonNull(name, "handler name cannot be null");
    if n in reg then Ok(Some(reg[n])) else Ok(None)
  }

  /** The registry after `registerHandler`, and the exception it threw. */
  datatype Registration = Registration(registry: Registry, thrown: Option<Throwable>)

  /** `registerHandler`: rejects a null handler and a name already taken,
      leaving the registry as it was; otherwise adds the handler under its
      name and changes nothing else. */
  function RegisterHandler(reg: Registry, h: Option<Handler>): (r: Registration)
    ensures h.None? ==> r.thrown == Some(NullPointer("handler cannot be null"))
    ensures h.Some? && h.value.name in reg ==>
              r.thrown == Some(DagEngine("handler " + h.value.name + " already exists"))
    ensures r.thrown.None? <==> h.Some? && h.value.name !in reg
    ensures r.thrown.Some? ==> r.registry == reg
    ensures r.thrown.None? ==> && r.registry.Keys == reg.Keys + {h.value.name}
                               && r.registry[h.value.name] == h.value
                               && forall k :: k in reg ==> r.registry[k] == reg[k]
  {
    match h
    case None => Registration(reg, Some(NullPointer("handler cannot be null")))
    case Some(x) =>
      if x.name in reg then Registration(reg, Some(DagEngine("handler " + x.name + " already exists")))
      else Registration(reg[x.name := x], None)
  }

  /** Registration keeps every handler filed under its own name. */
  lemma RegisterKeepsKeyed(reg: Registry, h: Option<Handler>)
    requires Keyed(reg)
    ensures Keyed(RegisterHandler(reg, h).registry)
  {
  }

  /** After a successful registration the name resolves to the handler,
      and every other name resolves as before. */
  lemma RegisterThenGet(reg: Registry, h: Handler, other: string)
    requires h.name !in reg && other != h.name
    ensures GetHandler(RegisterHandler(reg, Some(h)).registry, Some(h.name)) == Ok(Some(h))
    ensures GetHandler(RegisterHandler(reg, Some(h)).registry, Some(other)) == GetHandler(reg, Some(other))
  {
  }

  /** The first handler registered under a name stays: a second one with
      the same name is refused and the registry keeps the first. */
  lemma FirstRegistrationWins(reg: Registry, h1: Handler, h2: Handler)
    requires h1.name !in reg && h2.name == h1.name
    ensures var r := RegisterHandler(RegisterHandler(reg, Some(h1)).registry, Some(h2));
            && r.thrown.Some? && r.thrown.value.DagEngine?
            && GetHandler(r.registry, Some(h2.name)) == Ok(Some(h1))
  {
  }

  // The guard of a created handler

  /** The conditions of a possibly null predicate. */
  function OptAtoms(p: Option<Guard>): seq<Guard>
  {
    if p.None? then [] else Atoms(p.value)
  }

  /** The non-null predicates of a list, in order. */
  function Present(ps: seq<Option<Guard>>): (r: seq<Guard>)
    ensures |r| <= |ps|
  {
    if ps == [] then []
    else (if ps[0].Some? then [ps[0].value] else []) + Present(ps[1..])
  }

  /** The predicates `createCondition` makes of a definition's conditions. */
  function Conditions(conds: seq<string>, createCondition: string -> Option<Guard>): (ps: seq<Option<Guard>>)
    ensures |ps| == |conds| && forall i :: 0 <= i < |conds| ==> ps[i] == createCondition(conds[i])
  {
    seq(|conds|, i requires 0 <= i < |conds| => createCondition(conds[i]))
  }

  /** Java's `reduce` never meets a null predicate after a non-null one:
      the null ones all come first, and there are none when the seed is
      non-null. */
  predicate NullsLead(acc: Option<Guard>, ps: seq<Option<Guard>>)
  {
    && (acc.Some? ==> forall i :: 0 <= i < |ps| ==> ps[i].Some?)
    && (forall j, i :: 0 <= j < i < |ps| && ps[j].Some? ==> ps[i].Some?)
  }

  /** The `reduce` of `createWhen`, a left fold with `a != null ? a.and(b)
      : b`. `Predicate.and` rejects a null argument, so a null predicate
      after a non-null one throws `NullPointerException`. The result is
      null exactly when the seed and every predicate are null; otherwise
      its conditions are the seed's followed by those of the non-null
      predicates, in order. */
  function FoldAnd(acc: Option<Guard>, ps: seq<Option<Guard>>): (r: Result<Option<Guard>>)
    ensures r.Ok? <==> NullsLead(acc, ps)
    ensures r.Err? ==> r.error == NullPointer("")
    ensures r == Ok(None) <==> acc.None? && forall i :: 0 <= i < |ps| ==> ps[i].None?
    ensures r.Ok? && r.value.Some? ==> Atoms(r.value.value) == OptAtoms(acc) + AtomsOfAll(Present(ps))
    decreases |ps|
  {
    if ps == [] then Ok(acc)
    else
      NullsLeadStep(acc, ps);
      AtomsStep(acc, ps);
      if acc.None? then FoldAnd(ps[0], ps[1..])
      else if ps[0].None? then Err(NullPointer(""))
      else FoldAnd(Some(And(acc.value, ps[0].value)), ps[1..])
  }

  /** Whether the fold of a list can throw follows from that of its tail. */
  lemma NullsLeadStep(acc: Option<Guard>, ps: seq<Option<Guard>>)
    requires ps != []
    ensures acc.None? ==> (NullsLead(acc, ps) <==> NullsLead(ps[0], ps[1..]))
    ensures acc.Some? && ps[0].None? ==> !NullsLead(acc, ps)
    ensures acc.Some? && ps[0].Some? ==> (NullsLead(acc, ps) <==> NullsLead(Some(And(acc.value, ps[0].value)), ps[1..]))
    ensures (forall i :: 0 <= i < |ps| ==> ps[i].None?) <==> ps[0].None? && forall i :: 0 <= i < |ps[1..]| ==> ps[1..][i].None?
  {
    var rest := ps[1..];
    assert forall k :: 0 <= k < |rest| ==> rest[k] == ps[k + 1];
    if acc.None? && NullsLead(ps[0], rest) {
      forall j, i | 0 <= j < i < |ps| && ps[j].Some?
        ensures ps[i].Some?
      {
        if j > 0 {
          assert rest[j - 1].Some?;
        }
        assert rest[i - 1] == ps[i];
      }
    }
  }

  /** The conditions the fold of a list collects follow from those of its tail. */
  lemma AtomsStep(acc: Option<Guard>, ps: seq<Option<Guard>>)
    requires ps != []
    ensures OptAtoms(acc) + AtomsOfAll(Present(ps))
            == (if acc.None? then OptAtoms(ps[0]) + AtomsOfAll(Present(ps[1..]))
                else if ps[0].None? then OptAtoms(acc) + AtomsOfAll(Present(ps[1..]))
                else Atoms(And(acc.value, ps[0].value)) + AtomsOfAll(Present(ps[1..])))
  {
    var tail := AtomsOfAll(Present(ps[1..]));
    AtomsOfPresent(ps);
    if acc.None? {
      EmptyPrefix(AtomsOfAll(Present(ps)));
    } else if ps[0].None? {
      EmptyPrefix(tail);
    } else {
      AtomsOfAndFirst(acc.value, ps[0].value, tail);
    }
  }

  /** Nothing before a list leaves it unchanged. */
  lemma EmptyPrefix(s: seq<Guard>)
    ensures [] + s == s
  {
  }

  /** Conjoining two predicates and then the rest collects the same
      conditions as taking them one after the other. */
  lemma AtomsOfAndFirst(a: Guard, b: Guard, tail: seq<Guard>)
    ensures Atoms(a) + (Atoms(b) + tail) == Atoms(And(a, b)) + tail
  {
    var x, y := Atoms(a), Atoms(b);
    assert Atoms(And(a, b)) == x + y;
    assert x + (y + tail) == (x + y) + tail;
  }

  /** The conditions of the non-null predicates: those of the first entry
      (none when it is null), then those of the rest. */
  lemma AtomsOfPresent(ps: seq<Option<Guard>>)
    requires ps != []
    ensures AtomsOfAll(Present(ps)) == OptAtoms(ps[0]) + AtomsOfAll(Present(ps[1..]))
  {
    var rest := Present(ps[1..]);
    if ps[0].Some? {
      var xs := [ps[0].value] + rest;
      assert Present(ps) == xs;
      assert xs[0] == ps[0].value && xs[1..] == rest;
    } else {
      assert Present(ps) == [] + rest;
      assert [] + rest == rest;
    }
  }

  /** The seed of the fold: the registered handler's `evaluate`, or null. */
  function Seed(original: Option<Handler>): (p: Option<Guard>)
    ensures p.Some? <==> original.Some?
  {
    if original.None? then None else Some(Delegate(original.value))
  }

  /** `createWhen`: without conditions the seed itself; otherwise the fold
      of the conditions' predicates onto the seed. */
  function CreateWhen(original: Option<Handler>, conds: Option<seq<string>>,
                      createCondition: string -> Option<Guard>): (r: Result<Option<Guard>>)
    ensures EmptyList(conds) ==> r == Ok(Seed(original))
    ensures !EmptyList(conds) ==> r == FoldAnd(Seed(original), Conditions(conds.value, createCondition))
  {
    if EmptyList(conds) then Ok(Seed(original))
    else FoldAnd(Seed(original), Conditions(conds.value, createCondition))
  }

  /** The conditions `createWhen` joins: the registered handler's test
      first, then the non-null conditions in the order written. */
  function WhenAtoms(original: Option<Handler>, conds: Option<seq<string>>,
                     createCondition: string -> Option<Guard>): seq<Guard>
  {
    (if original.None? then [] else [Delegate(original.value)])
      + (if EmptyList(conds) then [] else AtomsOfAll(Present(Conditions(conds.value, createCondition))))
  }

  /** A predicate `createWhen` returns tests the registered handler's guard
      and then each non-null condition, stopping at the first that is false
      or throws. */
  lemma WhenIsConjunction(original: Option<Handler>, conds: Option<seq<string>>,
                          createCondition: string -> Option<Guard>, nodeName: string, ctx: Contexts.DagContext,
                          code: UserCode)
    requires CreateWhen(original, conds, createCondition).Ok?
    requires CreateWhen(original, conds, createCondition).value.Some?
    ensures EvalGuard(CreateWhen(original, conds, createCondition).value.value, nodeName, ctx, code)
            == EvalAll(WhenAtoms(original, conds, createCondition), nodeName, ctx, code)
  {
    var g := CreateWhen(original, conds, createCondition).value.value;
    GuardIsConjunction(g, nodeName, ctx, code);
    if EmptyList(conds) {
      assert Atoms(g) == [Delegate(original.value)];
      assert WhenAtoms(original, conds, createCondition) == [Delegate(original.value)] + [];
    }
  }

  /** `createWhen` fails exactly when a condition's predicate is null and
      comes after the registered handler or after a non-null condition. */
  lemma WhenFailsOnLateNull(original: Option<Handler>, conds: seq<string>,
                            createCondition: string -> Option<Guard>, i: nat)
    requires i < |conds| && createCondition(conds[i]).None?
    requires original.Some? || exists j :: 0 <= j < i && createCondition(conds[j]).Some?
    ensures CreateWhen(original, Some(conds), createCondition) == Err(NullPointer(""))
  {
    var ps := Conditions(conds, createCondition);
    if original.None? {
      var j :| 0 <= j < i && createCondition(conds[j]).Some?;
      assert ps[j].Some? && ps[i].None?;
    }
    assert !NullsLead(Seed(original), ps);
  }

  // Created nodes

  /** How the created handler receives its guard. As written, the
      builder's `when(Predicate)` is called even with a null predicate and
      wraps it in a test that throws; the corrected wiring leaves the
      handler without a guard then, so that it always passes. */
  datatype Wiring = WrapAlways | SkipNullPredicate

  /** The builder's `when` applied to the predicate `createWhen` made. */
  function WireWhen(b: HandlerBuilder, p: Option<Guard>, wiring: Wiring): (r: HandlerBuilder)
    ensures r.name == b.name && r.action == b.action && r.timeout == b.timeout
    ensures wiring == WrapAlways ==>
              r.when.Some? && Atoms(r.when.value) == (if b.when.None? then [] else Atoms(b.when.value)) + Atoms(p.GetOr(NullTest))
    ensures wiring == SkipNullPredicate && p.None? ==> r == b
    ensures wiring == SkipNullPredicate && p.Some? ==>
              r.when.Some? && Atoms(r.when.value) == (if b.when.None? then [] else Atoms(b.when.value)) + Atoms(p.value)
  {
    match wiring
    case WrapAlways => When(b, p.GetOr(NullTest))
    case SkipNullPredicate => if p.None? then b else When(b, p.value)
  }

  /** The handler a definition names, if it names one: an unregistered name
      throws `DagEngineException`. */
  function ResolveHandler(reg: Registry, d: NodeDefinition): (r: Result<Option<Handler>>)
    ensures EmptyText(d.handler) ==> r == Ok(None)
    ensures !EmptyText(d.handler) && d.handler.value !in reg ==>
              r == Err(DagEngine("Handler not found: " + d.handler.value))
    ensures !EmptyText(d.handler) && d.handler.value in reg ==> r == Ok(Some(reg[d.handler.value]))
  {
    if EmptyText(d.handler) then Ok(None)
    else
      match GetHandler(reg, d.handler)
      case Err(e) => Err(e)
      case Ok(h) => if h.None? then Err(DagEngine("Handler not found: " + d.handler.value)) else Ok(h)
  }

  /** `createDagNode`: resolve the named handler, build a handler named
      after it (or `anonymous_handler`) with the definition's timeout, the
      guard of `createWhen` and the given action, and build a node with the
      definition's name and timeout, STRONG dependencies on every name of
      `dependsOn`, and that handler. */
  function CreateDagNode(reg: Registry, d: NodeDefinition, createCondition: string -> Option<Guard>,
                         action: Action, wiring: Wiring): (r: Result<DagNode>)
    ensures !EmptyText(d.handler) && d.handler.value !in reg ==>
              r == Err(DagEngine("Handler not found: " + d.handler.value))
    ensures r.Ok? <==> && (EmptyText(d.handler) || d.handler.value in reg)
                       && CreateWhen(ResolveHandler(reg, d).value, d.conditions, createCondition).Ok?
                       && d.dependsOn.Some? && d.nodeName.Some?
    ensures r.Ok? ==> && r.value.name == d.nodeName.value && r.value.timeout == d.timeout
                      && r.value.deps.Keys == (set i | 0 <= i < |d.dependsOn.value| :: d.dependsOn.value[i])
                      && (forall k :: k in r.value.deps ==> r.value.deps[k] == Strong)
    ensures r.Ok? ==> && r.value.handler.Some?
                      && r.value.handler.value.name
                         == (if EmptyText(d.handler) then ANONYMOUS_HANDLER else reg[d.handler.value].name)
                      && r.value.handler.value.timeout == d.timeout
                      && r.value.handler.value.action == Some(action)
  {
    var original :- ResolveHandler(reg, d);
    var handlerName := if original.Some? then original.value.name else ANONYMOUS_HANDLER;
    var guard :- CreateWhen(original, d.conditions, createCondition);
    var hb := WireWhen(EmptyHandlerBuilder.(name := Some(handlerName), timeout := d.timeout), guard, wiring);
    match Handlers.Build(WithAction(hb, action))
    case Err(e) => Err(e)
    case Ok(handler) =>
      var deps :- RequireNonNull(d.dependsOn, "");
      BuildNode(DependOn(EmptyNodeBuilder.(name := d.nodeName), deps).(timeout := d.timeout, handler := Some(handler)))
  }

  /** With a registry filled by `registerHandler`, a created handler carries
      the name the definition refers to. */
  lemma CreatedHandlerName(reg: Registry, d: NodeDefinition, createCondition: string -> Option<Guard>,
                           action: Action, wiring: Wiring)
    requires Keyed(reg) && !EmptyText(d.handler)
    ensures var r := CreateDagNode(reg, d, createCondition, action, wiring);
            r.Ok? ==> r.value.handler.value.name == d.handler.value
  {
  }

  /** A created handler answers as the registered handler's guard joined
      with the non-null conditions, and passes when there is neither; with
      the corrected wiring this holds for every definition. */
  lemma CreatedGuard(reg: Registry, d: NodeDefinition, createCondition: string -> Option<Guard>,
                     action: Action, nodeName: string, ctx: Contexts.DagContext, code: UserCode)
    requires CreateDagNode(reg, d, createCondition, action, SkipNullPredicate).Ok?
    ensures var h := CreateDagNode(reg, d, createCondition, action, SkipNullPredicate).value.handler.value;
            Evaluate(h, nodeName, ctx, code)
            == EvalAll(WhenAtoms(ResolveHandler(reg, d).value, d.conditions, createCondition), nodeName, ctx, code)
  {
    var original := ResolveHandler(reg, d).value;
    var p := CreateWhen(original, d.conditions, createCondition).value;
    var h := CreateDagNode(reg, d, createCondition, action, SkipNullPredicate).value.handler.value;
    if p.Some? {
      WhenIsConjunction(original, d.conditions, createCondition, nodeName, ctx, code);
      assert h.when == Some(p.value);
    } else {
      assert h.when.None?;
      if original.Some? {
        assert false;
      }
      if !EmptyList(d.conditions) {
        var ps := Conditions(d.conditions.value, createCondition);
        NoneLeftPresent(ps);
      }
      assert WhenAtoms(original, d.conditions, createCondition) == [];
    }
  }

  /** Only null predicates leave nothing behind. */
  lemma {:induction false} NoneLeftPresent(ps: seq<Option<Guard>>)
    requires forall i :: 0 <= i < |ps| ==> ps[i].None?
    ensures Present(ps) == [] && AtomsOfAll(Present(ps)) == []
    decreases |ps|
  {
    if ps != [] {
      NoneLeftPresent(ps[1..]);
    }
  }

  /** As written, a definition that gives actions but neither a handler nor
      a condition (which the validator accepts) yields a handler whose
      guard throws `NullPointerException` whenever it is tested. */
  lemma ActionsOnlyGuardThrows(reg: Registry, d: NodeDefinition, createCondition: string -> Option<Guard>,
                               action: Action, nodeName: string, ctx: Contexts.DagContext, code: UserCode)
    requires EmptyText(d.handler) && EmptyList(d.conditions)
    requires d.dependsOn.Some? && d.nodeName.Some?
    ensures CreateDagNode(reg, d, createCondition, action, WrapAlways).Ok?
    ensures var h := CreateDagNode(reg, d, createCondition, action, WrapAlways).value.handler.value;
            Evaluate(h, nodeName, ctx, code) == Err(NullPointer(""))
  {
    var h := CreateDagNode(reg, d, createCondition, action, WrapAlways).value.handler.value;
    assert h.when == Some(NullTest);
  }

  /** With the corrected wiring, the same definition yields a handler whose
      guard always passes. */
  lemma ActionsOnlyGuardPasses(reg: Registry, d: NodeDefinition, createCondition: string -> Option<Guard>,
                               action: Action, nodeName: string, ctx: Contexts.DagContext, code: UserCode)
    requires EmptyText(d.handler) && EmptyList(d.conditions)
    requires d.dependsOn.Some? && d.nodeName.Some?
    ensures CreateDagNode(reg, d, createCondition, action, SkipNullPredicate).Ok?
    ensures var h := CreateDagNode(reg, d, createCondition, action, SkipNullPredicate).value.handler.value;
            Evaluate(h, nodeName, ctx, code) == Ok(true)
  {
    var h := CreateDagNode(reg, d, createCondition, action, SkipNullPredicate).value.handler.value;
    assert h.when.None?;
  }

  // Created graphs

  /** What a concrete factory supplies besides its registry: its
      `createCondition`, the action `createAction` makes of a definition,
      and the guard wiring. */
  datatype Factory = Factory(registry: Registry, createCondition: string -> Option<Guard>,
                             createAction: NodeDefinition -> Action, wiring: Wiring)

  /** `createDagNode` as the factory calls it. */
  function MakeNode(f: Factory, d: NodeDefinition): Result<DagNode>
  {
    CreateDagNode(f.registry, d, f.createCondition, f.createAction(d), f.wiring)
  }

  /** The table holds, under the definition's name, the node made of it. */
  predicate Holds(f: Factory, m: map<string, DagNode>, d: NodeDefinition)
  {
    && d.nodeName.Some? && MakeNode(f, d).Ok?
    && d.nodeName.value in m && m[d.nodeName.value] == MakeNode(f, d).value
  }

  /** The names of a list of definitions. */
  predicate Named(defs: seq<NodeDefinition>)
  {
    forall i :: 0 <= i < |defs| ==> defs[i].nodeName.Some?
  }

  /** The names of a list of named definitions. */
  function DefinitionNames(defs: seq<NodeDefinition>): set<string>
    requires Named(defs)
  {
    set i | 0 <= i < |defs| :: defs[i].nodeName.value
  }

  lemma DefinitionNamesCons(defs: seq<NodeDefinition>)
    requires defs != [] && Named(defs)
    ensures Named(defs[1..])
    ensures DefinitionNames(defs) == {defs[0].nodeName.value} + DefinitionNames(defs[1..])
  {
    assert forall i :: 1 <= i < |defs| ==> defs[i] == defs[1..][i - 1];
    forall x | x in DefinitionNames(defs) && x != defs[0].nodeName.value
      ensures x in DefinitionNames(defs[1..])
    {
      var i :| 0 <= i < |defs| && defs[i].nodeName.value == x;
      assert defs[1..][i - 1].nodeName.value == x;
    }
  }

  /** What adding a list of definitions to builder `b` leaves in `r`:
      every definition was named, the names were new and pairwise
      distinct, they were added to the node table and the rest of the
      builder is as it was. */
  predicate Placed(b: GraphBuilder, defs: seq<NodeDefinition>, r: GraphBuilder)
  {
    && Named(defs)
    && r.(nodeMap := b.nodeMap) == b
    && r.nodeMap.Keys == b.nodeMap.Keys + DefinitionNames(defs)
    && (forall k :: k in b.nodeMap ==> r.nodeMap[k] == b.nodeMap[k])
    && (forall i :: 0 <= i < |defs| ==> defs[i].nodeName.value !in b.nodeMap)
    && (forall i, j :: 0 <= i < j < |defs| ==> defs[i].nodeName.value != defs[j].nodeName.value)
  }

  /** Each definition's name holds the node made of it. */
  predicate AllHold(f: Factory, m: map<string, DagNode>, defs: seq<NodeDefinition>)
  {
    forall i :: 0 <= i < |defs| ==> Holds(f, m, defs[i])
  }

  /** One more definition in front of a list already placed. */
  lemma PlacedCons(b: GraphBuilder, node: DagNode, defs: seq<NodeDefinition>, r: GraphBuilder)
    requires defs != [] && defs[0].nodeName == Some(node.name) && node.name !in b.nodeMap
    requires Placed(b.(nodeMap := b.nodeMap[node.name := node]), defs[1..], r)
    ensures Placed(b, defs, r)
  {
    var b1 := b.(nodeMap := b.nodeMap[node.name := node]);
    assert Named(defs) by {
      assert forall i :: 1 <= i < |defs| ==> defs[i] == defs[1..][i - 1];
    }
    DefinitionNamesCons(defs);
    DistinctCons(b1.nodeMap.Keys, defs);
  }

  lemma MadeNodeName(f: Factory, d: NodeDefinition, node: DagNode)
    requires MakeNode(f, d) == Ok(node)
    ensures d.nodeName.Some? && d.nodeName.value == node.name
  {
  }

  lemma HoldsHead(f: Factory, m: map<string, DagNode>, d: NodeDefinition, node: DagNode)
    requires MakeNode(f, d) == Ok(node) && d.nodeName == Some(node.name)
    requires node.name in m && m[node.name] == node
    ensures Holds(f, m, d)
  {
  }

  lemma HoldsCons(f: Factory, m: map<string, DagNode>, defs: seq<NodeDefinition>)
    requires defs != [] && Holds(f, m, defs[0]) && AllHold(f, m, defs[1..])
    ensures AllHold(f, m, defs)
  {
    forall i | 0 < i < |defs|
      ensures Holds(f, m, defs[i])
    {
      assert defs[1..][i - 1] == defs[i];
    }
  }

  lemma DistinctCons(taken: set<string>, defs: seq<NodeDefinition>)
    requires defs != [] && Named(defs) && defs[0].nodeName.value in taken
    requires forall i :: 0 <= i < |defs[1..]| ==> defs[1..][i].nodeName.value !in taken
    requires forall i, j :: 0 <= i < j < |defs[1..]| ==> defs[1..][i].nodeName.value != defs[1..][j].nodeName.value
    ensures forall i, j :: 0 <= i < j < |defs| ==> defs[i].nodeName.value != defs[j].nodeName.value
  {
    forall i, j | 0 <= i < j < |defs|
      ensures defs[i].nodeName.value != defs[j].nodeName.value
    {
      assert defs[1..][j - 1] == defs[j];
      if i > 0 {
        assert defs[1..][i - 1] == defs[i];
      }
    }
  }

  /** The loop of `createDagGraph`: each definition in turn is made into a
      node and added to the builder; the first exception escapes. */
  function AddDefinitions(f: Factory, b: GraphBuilder, defs: seq<NodeDefinition>): (r: Result<GraphBuilder>)
    ensures r.Ok? ==> Placed(b, defs, r.value) && AllHold(f, r.value.nodeMap, defs)
    decreases |defs|
  {
    if defs == [] then Ok(b)
    else
      var node :- MakeNode(f, defs[0]);
      var b1 :- AddNode(b, Some(node));
      var r :- AddDefinitions(f, b1, defs[1..]);
      MadeNodeName(f, defs[0], node);
      HoldsHead(f, r.nodeMap, defs[0], node);
      HoldsCons(f, r.nodeMap, defs);
      PlacedCons(b, node, defs, r);
      Ok(r)
  }

  /** A graph `build` made of the builder the definitions were added to
      has the definition's name and timeout, the definitions' nodes and
      the two sentinels; the sentinels do not displace a node made of a
      definition with another name. */
  lemma BuiltFromDefinitions(f: Factory, gd: GraphDefinition, b: GraphBuilder, g: DagGraph)
    requires gd.nodes.Some?
    requires Placed(WithTimeout(WithGraphName(EmptyGraphBuilder, gd.graphName), gd.timeout), gd.nodes.value, b)
    requires AllHold(f, b.nodeMap, gd.nodes.value)
    requires g.nodeMap == FinalNodeMap(b) && g.timeout == b.timeout && Some(g.graphName) == b.graphName
    ensures && Some(g.graphName) == gd.graphName && g.timeout == gd.timeout
            && Named(gd.nodes.value)
            && g.nodeMap.Keys == DefinitionNames(gd.nodes.value) + {START_NODE_NAME, END_NODE_NAME}
    ensures forall i :: 0 <= i < |gd.nodes.value| ==>
              var v := gd.nodes.value[i].nodeName.value;
              v != START_NODE_NAME && v != END_NODE_NAME ==> Holds(f, g.nodeMap, gd.nodes.value[i])
  {
    BuiltHeader(gd, b, g);
    BuiltNodesHold(f, gd.nodes.value, b, g);
  }

  /** The built graph's name, timeout and node names. */
  lemma BuiltHeader(gd: GraphDefinition, b: GraphBuilder, g: DagGraph)
    requires gd.nodes.Some?
    requires Placed(WithTimeout(WithGraphName(EmptyGraphBuilder, gd.graphName), gd.timeout), gd.nodes.value, b)
    requires g.nodeMap == FinalNodeMap(b) && g.timeout == b.timeout && Some(g.graphName) == b.graphName
    ensures && Some(g.graphName) == gd.graphName && g.timeout == gd.timeout
            && Named(gd.nodes.value)
            && g.nodeMap.Keys == DefinitionNames(gd.nodes.value) + {START_NODE_NAME, END_NODE_NAME}
  {
    var b0 := WithTimeout(WithGraphName(EmptyGraphBuilder, gd.graphName), gd.timeout);
    assert b.graphName == b0.graphName && b.timeout == b0.timeout;
    assert b.nodeMap.Keys == DefinitionNames(gd.nodes.value);
    assert FinalNodeMap(b).Keys == b.nodeMap.Keys + {START_NODE_NAME, END_NODE_NAME};
  }

  /** The sentinels leave every other definition's node in place. */
  lemma BuiltNodesHold(f: Factory, defs: seq<NodeDefinition>, b: GraphBuilder, g: DagGraph)
    requires Named(defs) && AllHold(f, b.nodeMap, defs) && g.nodeMap == FinalNodeMap(b)
    ensures forall i :: 0 <= i < |defs| ==>
              var v := defs[i].nodeName.value;
              v != START_NODE_NAME && v != END_NODE_NAME ==> Holds(f, g.nodeMap, defs[i])
  {
    forall i | 0 <= i < |defs| && defs[i].nodeName.value != START_NODE_NAME && defs[i].nodeName.value != END_NODE_NAME
      ensures Holds(f, g.nodeMap, defs[i])
    {
      assert Holds(f, b.nodeMap, defs[i]);
      assert g.nodeMap[defs[i].nodeName.value] == b.nodeMap[defs[i].nodeName.value];
    }
  }

  /** `createDagGraph`: a builder with the definition's name and timeout,
      every node definition added in turn (a null list throws
      `NullPointerException`), then `build`. */
  function CreateDagGraph(f: Factory, gd: GraphDefinition): (r: Result<DagGraph>)
    ensures gd.nodes.None? ==> r.Err? && r.error.NullPointer?
    ensures r.Ok? ==> && Some(r.value.graphName) == gd.graphName && r.value.timeout == gd.timeout
                      && Named(gd.nodes.value)
                      && r.value.nodeMap.Keys == DefinitionNames(gd.nodes.value) + {START_NODE_NAME, END_NODE_NAME}
    ensures r.Ok? ==> forall i :: 0 <= i < |gd.nodes.value| ==>
                        var v := gd.nodes.value[i].nodeName.value;
                        v != START_NODE_NAME && v != END_NODE_NAME ==> Holds(f, r.value.nodeMap, gd.nodes.value[i])
  {
    var defs :- RequireNonNull(gd.nodes, "");
    var b :- AddDefinitions(f, WithTimeout(WithGraphName(EmptyGraphBuilder, gd.graphName), gd.timeout), defs);
    var g :- GraphBuilders.Build(b);
    BuiltFromDefinitions(f, gd, b, g);
    Ok(g)
  }
}
