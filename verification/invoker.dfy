/** Node invocation in the concurrent engine: the raw invoker that runs a
    node's handler, the filters that wrap it, and the chain
    `registerFilter` rebuilds after each registration. Filters are user
    code; the model names them and takes their behaviour from a
    `FilterCode` value. */
module Invokers {
  import opened Wrappers
  import opened Values
  import opened Contexts
  import opened Handlers
  import opened Nodes

  /** What an invoker returns: a (possibly null) value, or the exception it throws. */
  type InvokeResult = Result<Option<Value>>

  /** `RawDagNodeInvoker.invoke`: without a handler, or when the guard is
      false, the result is null and nothing runs; a guard or action
      exception propagates. */
  function RawInvoke(node: DagNode, ctx: DagContext, code: UserCode): (r: InvokeResult)
    ensures node.handler.None? ==> r == Ok(None)
    ensures node.handler.Some? ==>
              var guard := Evaluate(node.handler.value, node.name, ctx, code);
              && (guard.Err? ==> r == Err(guard.error))
              && (guard == Ok(false) ==> r == Ok(None))
    ensures r.Ok? && r.value.Some? ==>
              && node.handler.Some?
              && Evaluate(node.handler.value, node.name, ctx, code) == Ok(true)
              && Execute(node.handler.value, node.name, ctx, code) == Returned(r.value)
  {
    match node.handler
    case None => Ok(None)
    case Some(h) =>
      var pass :- Evaluate(h, node.name, ctx, code);
      if !pass then Ok(None)
      else
        match Execute(h, node.name, ctx, code)
        case Returned(v) => Ok(v)
        case Threw(e) => Err(e)
  }

  /** A registered filter: its order and a name for its behaviour. */
  datatype Filter = Filter(order: int, id: string)

  /** The behaviour of the filters: given the node, the context and what
      the wrapped invoker returns, what the filter returns. A filter that
      does not call the wrapped invoker ignores that argument. */
  datatype FilterCode = FilterCode(around: (string, string, DagContext, InvokeResult) -> InvokeResult)

  /** An invoker: the raw one, or a filter wrapped around another invoker
      (`DagNodeFilterInvoker`). */
  datatype Invoker = Raw | Wrapped(inner: Invoker, filter: Filter)

  /** `invoke` on an invoker. */
  function Invoke(inv: Invoker, node: DagNode, ctx: DagContext, code: UserCode, fc: FilterCode): InvokeResult
  {
    match inv
    case Raw => RawInvoke(node, ctx, code)
    case Wrapped(inner, f) => fc.around(f.id, node.name, ctx, Invoke(inner, node, ctx, code, fc))
  }

  /** The filters of an invoker, outermost first. */
  function Layers(inv: Invoker): seq<Filter>
  {
    match inv
    case Raw => []
    case Wrapped(inner, f) => [f] + Layers(inner)
  }

  predicate SortedByOrder(fs: seq<Filter>)
  {
    forall i, j :: 0 <= i < j < |fs| ==> fs[i].order <= fs[j].order
  }

  /** Places `f` after every filter of `fs` whose order is not greater
      than its own, scanning from the end: one step of a stable sort. */
  function Insert(fs: seq<Filter>, f: Filter): (r: seq<Filter>)
    ensures multiset(r) == multiset(fs) + multiset{f}
    decreases |fs|
  {
    if fs == [] || fs[|fs| - 1].order <= f.order then fs + [f]
    else
      assert fs == fs[..|fs| - 1] + [fs[|fs| - 1]];
      Insert(fs[..|fs| - 1], f) + [fs[|fs| - 1]]
  }

  /** Inserting into a sorted list keeps it sorted. */
  lemma {:induction false} InsertSorted(fs: seq<Filter>, f: Filter)
    requires SortedByOrder(fs)
    ensures SortedByOrder(Insert(fs, f))
    decreases |fs|
  {
    if fs == [] || fs[|fs| - 1].order <= f.order {
    } else {
      var init := fs[..|fs| - 1];
      var last := fs[|fs| - 1];
      var ins := Insert(init, f);
      InsertSorted(init, f);
      forall i | 0 <= i < |ins|
        ensures ins[i].order <= last.order
      {
        assert ins[i] in multiset(ins);
        if ins[i] != f {
          assert ins[i] in multiset(init);
          var j :| 0 <= j < |init| && init[j] == ins[i];
          assert fs[j] == init[j];
        }
      }
      assert Insert(fs, f) == ins + [last];
    }
  }

  /** The stable sort `List.sort` performs: insertion of each filter in
      turn. */
  function Sort(fs: seq<Filter>): (r: seq<Filter>)
    ensures SortedByOrder(r)
    ensures multiset(r) == multiset(fs)
    decreases |fs|
  {
    if fs == [] then []
    else
      assert fs == fs[..|fs| - 1] + [fs[|fs| - 1]];
      InsertSorted(Sort(fs[..|fs| - 1]), fs[|fs| - 1]);
      Insert(Sort(fs[..|fs| - 1]), fs[|fs| - 1])
  }

  /** The filters of one order, in list order. */
  function OfOrder(fs: seq<Filter>, k: int): seq<Filter>
  {
    if fs == [] then []
    else OfOrder(fs[..|fs| - 1], k) + (if fs[|fs| - 1].order == k then [fs[|fs| - 1]] else [])
  }

  lemma {:induction false} OfOrderAppend(xs: seq<Filter>, ys: seq<Filter>, k: int)
    ensures OfOrder(xs + ys, k) == OfOrder(xs, k) + OfOrder(ys, k)
    decreases |ys|
  {
    if ys == [] {
      assert xs + ys == xs;
    } else {
      var init := ys[..|ys| - 1];
      assert (xs + ys)[..|xs + ys| - 1] == xs + init;
      OfOrderAppend(xs, init, k);
    }
  }

  /** Inserting keeps the filters of every order in their relative order,
      the inserted one last among its order. */
  lemma OfOrderSingle(f: Filter, k: int)
    ensures OfOrder([f], k) == if f.order == k then [f] else []
  {
    assert [f][..0] == [];
  }

  lemma {:induction false} InsertStable(fs: seq<Filter>, f: Filter, k: int)
    ensures OfOrder(Insert(fs, f), k) == OfOrder(fs, k) + (if f.order == k then [f] else [])
    decreases |fs|
  {
    if fs == [] || fs[|fs| - 1].order <= f.order {
      assert Insert(fs, f) == fs + [f];
      OfOrderSingle(f, k);
      OfOrderAppend(fs, [f], k);
    } else {
      var init := fs[..|fs| - 1];
      InsertStable(init, f, k);
      InsertStableStep(fs, f, k);
    }
  }

  lemma InsertStableStep(fs: seq<Filter>, f: Filter, k: int)
    requires fs != [] && fs[|fs| - 1].order > f.order
    requires OfOrder(Insert(fs[..|fs| - 1], f), k) == OfOrder(fs[..|fs| - 1], k) + (if f.order == k then [f] else [])
    ensures OfOrder(Insert(fs, f), k) == OfOrder(fs, k) + (if f.order == k then [f] else [])
  {
    var init := fs[..|fs| - 1];
    var last := fs[|fs| - 1];
    var ins := Insert(init, f);
    var a, fk, lk := OfOrder(init, k), (if f.order == k then [f] else []), OfOrder([last], k);
    OfOrderSingle(last, k);
    assert OfOrder(fs, k) == a + lk;
    assert Insert(fs, f) == ins + [last];
    OfOrderAppend(ins, [last], k);
    assert OfOrder(Insert(fs, f), k) == a + fk + lk;
    SwapEmpty(a, fk, lk);
  }

  lemma SwapEmpty<T>(a: seq<T>, x: seq<T>, y: seq<T>)
    requires x == [] || y == []
    ensures a + x + y == a + y + x
  {
    if x == [] {
      assert a + x == a;
      assert a + y + x == a + y;
    } else {
      assert a + y == a;
      assert a + x + y == a + x;
    }
  }

  /** The sort is stable: filters of equal order keep their registration
      order. Together with sortedness and the permutation property this
      determines the sorted list. */
  lemma {:induction false} SortStable(fs: seq<Filter>, k: int)
    ensures OfOrder(Sort(fs), k) == OfOrder(fs, k)
    decreases |fs|
  {
    if fs != [] {
      var init := fs[..|fs| - 1];
      SortStable(init, k);
      InsertStable(Sort(init), fs[|fs| - 1], k);
    }
  }

  /** Sorting a sorted list changes nothing. */
  lemma {:induction false} SortSorted(fs: seq<Filter>)
    requires SortedByOrder(fs)
    ensures Sort(fs) == fs
    decreases |fs|
  {
    if fs != [] {
      var init := fs[..|fs| - 1];
      SortSorted(init);
      assert Sort(fs) == Insert(init, fs[|fs| - 1]);
    }
  }

  /** The loop of `registerFilter`: each filter of the list, in list order,
      is wrapped around the invoker built so far. */
  function Chain(fs: seq<Filter>): (r: Invoker)
    decreases |fs|
  {
    if fs == [] then Raw else Wrapped(Chain(fs[..|fs| - 1]), fs[|fs| - 1])
  }

  function Reverse(fs: seq<Filter>): (r: seq<Filter>)
    ensures |r| == |fs|
    ensures forall i :: 0 <= i < |fs| ==> r[i] == fs[|fs| - 1 - i]
    decreases |fs|
  {
    if fs == [] then [] else [fs[|fs| - 1]] + Reverse(fs[..|fs| - 1])
  }

  /** The chain's filters, outermost first, are the list reversed: the
      last filter wraps everything else. */
  lemma {:induction false} ChainLayers(fs: seq<Filter>)
    ensures Layers(Chain(fs)) == Reverse(fs)
    decreases |fs|
  {
    if fs != [] {
      ChainLayers(fs[..|fs| - 1]);
    }
  }

  /** The engine's filter state: the registered filters, sorted, and the
      invoker built from them. */
  datatype FilterRegistry = FilterRegistry(filters: seq<Filter>, invoker: Invoker)

  const NoFilters := FilterRegistry([], Raw)

  /** `registerFilter`: add, sort by order, rebuild the chain from the raw
      invoker. */
  function RegisterFilter(reg: FilterRegistry, f: Filter): (r: FilterRegistry)
    ensures SortedByOrder(r.filters)
    ensures multiset(r.filters) == multiset(reg.filters) + multiset{f}
    ensures forall k :: OfOrder(r.filters, k) == OfOrder(reg.filters, k) + (if f.order == k then [f] else [])
    ensures Layers(r.invoker) == Reverse(r.filters)
    ensures var ls := Layers(r.invoker);
            forall i, j :: 0 <= i < j < |ls| ==> ls[i].order >= ls[j].order
  {
    var fs := Sort(reg.filters + [f]);
    SortAppendedOrders(reg.filters, f);
    ChainLayers(fs);
    FilterRegistry(fs, Chain(fs))
  }

  /** Sorting a list with one filter appended keeps, within each order,
      the listed filters first and the new one last. */
  lemma SortAppendedOrders(fs: seq<Filter>, f: Filter)
    ensures forall k :: OfOrder(Sort(fs + [f]), k) == OfOrder(fs, k) + (if f.order == k then [f] else [])
  {
    forall k
      ensures OfOrder(Sort(fs + [f]), k) == OfOrder(fs, k) + (if f.order == k then [f] else [])
    {
      SortStable(fs + [f], k);
      OfOrderAppend(fs, [f], k);
      OfOrderSingle(f, k);
    }
  }

  /** Registration keeps the registry well formed: sorted filters and the
      chain built from them. On a sorted list the sort only inserts the new
      filter. */
  lemma RegisterKeepsSorted(reg: FilterRegistry, f: Filter)
    requires SortedByOrder(reg.filters)
    ensures RegisterFilter(reg, f).filters == Insert(reg.filters, f)
  {
    SortSorted(reg.filters);
    assert reg.filters + [f] == (reg.filters + [f])[..|reg.filters|] + [f];
  }

  /** A filter that returns what the wrapped invoker returns. */
  ghost predicate PassThrough(fc: FilterCode, id: string)
  {
    forall n, c, r :: fc.around(id, n, c, r) == r
  }

  /** A chain of pass-through filters behaves as the raw invoker. */
  lemma {:induction false} PassThroughChain(fs: seq<Filter>, node: DagNode, ctx: DagContext, code: UserCode, fc: FilterCode)
    requires forall i :: 0 <= i < |fs| ==> PassThrough(fc, fs[i].id)
    ensures Invoke(Chain(fs), node, ctx, code, fc) == RawInvoke(node, ctx, code)
    decreases |fs|
  {
    if fs != [] {
      PassThroughChain(fs[..|fs| - 1], node, ctx, code, fc);
      assert PassThrough(fc, fs[|fs| - 1].id);
    }
  }
}
