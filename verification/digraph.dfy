/** Directed graphs with integer edge values, as the graph builder keeps
    them: a node set and a map from (source, target) to the edge's value.
    The module gives successor, predecessor and in-degree sets, the
    acyclicity check, a search for the successor-less nodes reachable from
    a node, and the proofs that relate them to paths and cycles. */
module Digraphs {

  datatype Graph = Graph(nodes: set<string>, weights: map<(string, string), int>)

  /** Every edge joins two nodes of the graph. */
  predicate WellFormed(g: Graph)
  {
    forall e :: e in g.weights ==> e.0 in g.nodes && e.1 in g.nodes
  }

  /** `successors(v)`. */
  function Succ(g: Graph, v: string): (r: set<string>)
    ensures forall w :: w in r <==> (v, w) in g.weights
  {
    var r := set e | e in g.weights && e.0 == v :: e.1;
    assert forall w :: (v, w) in g.weights ==> w in r by {
      forall w | (v, w) in g.weights
        ensures w in r
      {
        var e := (v, w);
        assert e in g.weights && e.0 == v;
      }
    }
    r
  }

  /** `predecessors(v)`. */
  function Pred(g: Graph, v: string): (r: set<string>)
    ensures forall u :: u in r <==> (u, v) in g.weights
  {
    var r := set e | e in g.weights && e.1 == v :: e.0;
    assert forall u :: (u, v) in g.weights ==> u in r by {
      forall u | (u, v) in g.weights
        ensures u in r
      {
        var e := (u, v);
        assert e in g.weights && e.1 == v;
      }
    }
    r
  }

  /** `inDegree(v)`: the number of distinct predecessors. */
  function InDegree(g: Graph, v: string): nat
  {
    |Pred(g, v)|
  }

  /** The nodes of `R` without a predecessor in `R`. */
  function Sources(g: Graph, R: set<string>): (r: set<string>)
    ensures r <= R
  {
    set v | v in R && forall u :: u in R ==> (u, v) !in g.weights
  }

  /** The nodes of `R` without a successor in `R`. */
  function Sinks(g: Graph, R: set<string>): (r: set<string>)
    ensures r <= R
  {
    set v | v in R && forall w :: w in R ==> (v, w) !in g.weights
  }

  /** Removing a non-empty subset makes a finite set smaller. */
  lemma RemoveNonEmpty(R: set<string>, S: set<string>)
    requires S <= R && S != {}
    ensures |R - S| < |R|
  {
    var x :| x in S;
    assert R - S <= R - {x};
    assert |R - S| <= |R - {x}|;
  }

  /** Acyclicity check restricted to `R`: repeatedly remove all nodes
      without a predecessor; the check passes when nothing is left, and
      fails when a non-empty remainder has no such node. */
  function Peel(g: Graph, R: set<string>): bool
    decreases |R|
  {
    if R == {} then true
    else
      var S := Sources(g, R);
      if S == {} then false
      else
        RemoveNonEmpty(R, S);
        Peel(g, R - S)
  }

  /** The acyclicity check on the whole graph (the negation of `Graphs.hasCycle`). */
  predicate Acyclic(g: Graph)
  {
    Peel(g, g.nodes)
  }

  /** The round of `Peel` in which `v` is removed. */
  function Layer(g: Graph, R: set<string>, v: string): nat
    requires Peel(g, R) && v in R
    decreases |R|
  {
    var S := Sources(g, R);
    RemoveNonEmpty(R, S);
    if v in S then 0 else 1 + Layer(g, R - S, v)
  }

  /** An edge inside `R` goes from an earlier round to a later one. */
  lemma {:induction false} EdgeRaisesLayer(g: Graph, R: set<string>, u: string, v: string)
    requires Peel(g, R) && u in R && v in R && (u, v) in g.weights
    ensures Layer(g, R, u) < Layer(g, R, v)
    decreases |R|
  {
    var S := Sources(g, R);
    RemoveNonEmpty(R, S);
    assert v !in S;
    if u !in S {
      EdgeRaisesLayer(g, R - S, u, v);
    }
  }

  /** A walk along edges. */
  ghost predicate IsPath(g: Graph, p: seq<string>)
  {
    |p| >= 1 && forall i :: 0 <= i < |p| - 1 ==> (p[i], p[i + 1]) in g.weights
  }

  /** A walk of at least one edge that returns to where it started. */
  ghost predicate IsCycle(g: Graph, p: seq<string>)
  {
    |p| >= 2 && IsPath(g, p) && p[0] == p[|p| - 1]
  }

  ghost predicate HasCycle(g: Graph)
  {
    exists p :: IsCycle(g, p)
  }

  /** Along a walk inside `R` the round grows by at least one per edge. */
  lemma {:induction false} PathRaisesLayer(g: Graph, R: set<string>, p: seq<string>)
    requires Peel(g, R) && IsPath(g, p)
    requires forall i :: 0 <= i < |p| ==> p[i] in R
    ensures Layer(g, R, p[0]) + |p| - 1 <= Layer(g, R, p[|p| - 1])
    decreases |p|
  {
    if |p| > 1 {
      var q := p[..|p| - 1];
      assert IsPath(g, q) by {
        assert forall i :: 0 <= i < |q| ==> q[i] == p[i];
      }
      PathRaisesLayer(g, R, q);
      EdgeRaisesLayer(g, R, p[|p| - 2], p[|p| - 1]);
    }
  }

  /** A graph that passes the check has no cycle. */
  lemma AcyclicHasNoCycle(g: Graph)
    requires WellFormed(g) && Acyclic(g)
    ensures !HasCycle(g)
  {
    if HasCycle(g) {
      var p :| IsCycle(g, p);
      forall i | 0 <= i < |p|
        ensures p[i] in g.nodes
      {
        if i < |p| - 1 {
          assert (p[i], p[i + 1]) in g.weights;
        } else {
          assert (p[i - 1], p[i]) in g.weights;
        }
      }
      PathRaisesLayer(g, g.nodes, p);
    }
  }

  /** A sequence without repetitions has as many distinct elements as entries. */
  lemma {:induction false} DistinctCardinality(w: seq<string>)
    requires forall i, j :: 0 <= i < j < |w| ==> w[i] != w[j]
    ensures |set i | 0 <= i < |w| :: w[i]| == |w|
  {
    if w != [] {
      var w' := w[1..];
      assert forall i :: 0 <= i < |w'| ==> w'[i] == w[i + 1];
      DistinctCardinality(w');
      var s := set i | 0 <= i < |w| :: w[i];
      var s' := set i | 0 <= i < |w'| :: w'[i];
      assert w[0] !in s' by {
        forall i | 0 <= i < |w'|
          ensures w'[i] != w[0]
        {
          assert w'[i] == w[i + 1];
        }
      }
      assert s == s' + {w[0]} by {
        forall x | x in s
          ensures x in s' + {w[0]}
        {
          var i :| 0 <= i < |w| && w[i] == x;
          if i > 0 {
            assert w'[i - 1] == x;
          }
        }
        forall x | x in s'
          ensures x in s
        {
          var i :| 0 <= i < |w'| && w'[i] == x;
          assert w[i + 1] == x;
        }
      }
    }
  }

  /** A walk longer than the set it stays in repeats a node. */
  lemma Pigeonhole(w: seq<string>, R: set<string>)
    requires forall i :: 0 <= i < |w| ==> w[i] in R
    requires |w| > |R|
    ensures exists i, j :: 0 <= i < j < |w| && w[i] == w[j]
  {
    if forall i, j :: 0 <= i < j < |w| ==> w[i] != w[j] {
      DistinctCardinality(w);
      var s := set i | 0 <= i < |w| :: w[i];
      assert s <= R;
      SubsetCardinality(s, R);
      assert false;
    }
  }

  /** A subset is no larger than its superset. */
  lemma SubsetCardinality(a: set<string>, b: set<string>)
    requires a <= b
    ensures |a| <= |b|
  {
    assert b == a + (b - a);
  }

  /** Some predecessor of `v` inside `R`, when every node of `R` has one. */
  ghost function SomePred(g: Graph, R: set<string>, v: string): (u: string)
    requires v in R && Sources(g, R) == {}
    ensures u in R && (u, v) in g.weights
  {
    assert v !in Sources(g, R);
    var u :| u in R && (u, v) in g.weights;
    u
  }

  /** Some successor of `v` inside `R`, when every node of `R` has one. */
  ghost function SomeSucc(g: Graph, R: set<string>, v: string): (w: string)
    requires v in R && Sinks(g, R) == {}
    ensures w in R && (v, w) in g.weights
  {
    assert v !in Sinks(g, R);
    var w :| w in R && (v, w) in g.weights;
    w
  }

  /** A walk of `k` edges through `R` that ends in `v`, built backwards. */
  ghost function BackWalk(g: Graph, R: set<string>, v: string, k: nat): seq<string>
    requires v in R && Sources(g, R) == {}
    decreases k
  {
    if k == 0 then [v] else BackWalk(g, R, SomePred(g, R, v), k - 1) + [v]
  }

  lemma {:induction false} BackWalkIsPath(g: Graph, R: set<string>, v: string, k: nat)
    requires v in R && Sources(g, R) == {}
    ensures var w := BackWalk(g, R, v, k);
            |w| == k + 1 && w[k] == v && IsPath(g, w) && forall i :: 0 <= i < |w| ==> w[i] in R
    decreases k
  {
    if k > 0 {
      var u := SomePred(g, R, v);
      BackWalkIsPath(g, R, u, k - 1);
      var w' := BackWalk(g, R, u, k - 1);
      var w := w' + [v];
      assert forall i :: 0 <= i < k ==> w[i] == w'[i];
      assert forall i :: 0 <= i < |w| - 1 ==> (w[i], w[i + 1]) in g.weights by {
        forall i | 0 <= i < |w| - 1
          ensures (w[i], w[i + 1]) in g.weights
        {
          if i < k - 1 {
            assert (w'[i], w'[i + 1]) in g.weights;
          }
        }
      }
    }
  }

  /** A walk of `k` edges through `R` that starts in `v`. */
  ghost function ForwardWalk(g: Graph, R: set<string>, v: string, k: nat): seq<string>
    requires v in R && Sinks(g, R) == {}
    decreases k
  {
    if k == 0 then [v] else [v] + ForwardWalk(g, R, SomeSucc(g, R, v), k - 1)
  }

  lemma {:induction false} ForwardWalkIsPath(g: Graph, R: set<string>, v: string, k: nat)
    requires v in R && Sinks(g, R) == {}
    ensures var w := ForwardWalk(g, R, v, k);
            |w| == k + 1 && w[0] == v && IsPath(g, w) && forall i :: 0 <= i < |w| ==> w[i] in R
    decreases k
  {
    if k > 0 {
      var u := SomeSucc(g, R, v);
      ForwardWalkIsPath(g, R, u, k - 1);
      var w' := ForwardWalk(g, R, u, k - 1);
      var w := [v] + w';
      assert forall i :: 1 <= i < |w| ==> w[i] == w'[i - 1];
      assert forall i :: 0 <= i < |w| - 1 ==> (w[i], w[i + 1]) in g.weights by {
        forall i | 0 <= i < |w| - 1
          ensures (w[i], w[i + 1]) in g.weights
        {
          if i > 0 {
            assert (w'[i - 1], w'[i]) in g.weights;
          }
        }
      }
    }
  }

  /** A walk that repeats a node contains a cycle. */
  lemma RepeatGivesCycle(g: Graph, w: seq<string>, i: nat, j: nat)
    requires IsPath(g, w) && i < j < |w| && w[i] == w[j]
    ensures IsCycle(g, w[i..j + 1])
  {
    var p := w[i..j + 1];
    assert forall k :: 0 <= k < |p| ==> p[k] == w[i + k];
    forall k | 0 <= k < |p| - 1
      ensures (p[k], p[k + 1]) in g.weights
    {
      assert (w[i + k], w[i + k + 1]) in g.weights;
    }
  }

  /** A non-empty set in which every node has a predecessor holds a cycle. */
  lemma NoSourceGivesCycle(g: Graph, R: set<string>)
    requires R != {} && Sources(g, R) == {}
    ensures exists p :: IsCycle(g, p) && forall i :: 0 <= i < |p| ==> p[i] in R
  {
    var v :| v in R;
    var w := BackWalk(g, R, v, |R|);
    BackWalkIsPath(g, R, v, |R|);
    Pigeonhole(w, R);
    var i, j :| 0 <= i < j < |w| && w[i] == w[j];
    RepeatGivesCycle(g, w, i, j);
    var p := w[i..j + 1];
    assert forall k :: 0 <= k < |p| ==> p[k] in R by {
      forall k | 0 <= k < |p|
        ensures p[k] in R
      {
        assert p[k] == w[i + k];
      }
    }
  }

  /** A non-empty set in which every node has a successor holds a cycle. */
  lemma NoSinkGivesCycle(g: Graph, R: set<string>)
    requires R != {} && Sinks(g, R) == {}
    ensures exists p :: IsCycle(g, p) && forall i :: 0 <= i < |p| ==> p[i] in R
  {
    var v :| v in R;
    var w := ForwardWalk(g, R, v, |R|);
    ForwardWalkIsPath(g, R, v, |R|);
    Pigeonhole(w, R);
    var i, j :| 0 <= i < j < |w| && w[i] == w[j];
    RepeatGivesCycle(g, w, i, j);
    var p := w[i..j + 1];
    assert forall k :: 0 <= k < |p| ==> p[k] in R by {
      forall k | 0 <= k < |p|
        ensures p[k] in R
      {
        assert p[k] == w[i + k];
      }
    }
  }

  /** A failing check has a witness: a cycle among the nodes checked. */
  lemma {:induction false} FailedPeelHasCycle(g: Graph, R: set<string>)
    requires !Peel(g, R)
    ensures HasCycle(g)
    decreases |R|
  {
    var S := Sources(g, R);
    if S == {} {
      NoSourceGivesCycle(g, R);
    } else {
      RemoveNonEmpty(R, S);
      FailedPeelHasCycle(g, R - S);
    }
  }

  /** The check is exact: it passes if and only if the graph has no cycle. */
  lemma AcyclicIffNoCycle(g: Graph)
    requires WellFormed(g)
    ensures Acyclic(g) <==> !HasCycle(g)
  {
    if Acyclic(g) {
      AcyclicHasNoCycle(g);
    } else {
      FailedPeelHasCycle(g, g.nodes);
    }
  }

  /** A non-empty graph without a cycle has a node without predecessors
      and a node without successors. */
  lemma AcyclicHasSourceAndSink(g: Graph)
    requires WellFormed(g) && Acyclic(g) && g.nodes != {}
    ensures Sources(g, g.nodes) != {}
    ensures Sinks(g, g.nodes) != {}
  {
    if Sinks(g, g.nodes) == {} {
      NoSinkGivesCycle(g, g.nodes);
      AcyclicHasNoCycle(g);
    }
  }

  /** `b` can be reached from `a` by following edges (possibly none). */
  ghost predicate Reachable(g: Graph, a: string, b: string)
  {
    exists p :: IsPath(g, p) && p[0] == a && p[|p| - 1] == b
  }

  /** A walk to `u` followed by the edge `(u, v)` is a walk to `v`. */
  lemma ReachableStep(g: Graph, a: string, u: string, v: string)
    requires Reachable(g, a, u) && (u, v) in g.weights
    ensures Reachable(g, a, v)
  {
    var p :| IsPath(g, p) && p[0] == a && p[|p| - 1] == u;
    var q := p + [v];
    assert forall i :: 0 <= i < |p| ==> q[i] == p[i];
    assert IsPath(g, q);
  }

  /** The nodes one edge away from `frontier`. */
  function Step(g: Graph, frontier: set<string>): (r: set<string>)
    ensures forall v, w :: v in frontier && (v, w) in g.weights ==> w in r
    ensures forall w :: w in r ==> exists v :: v in frontier && (v, w) in g.weights
    ensures WellFormed(g) ==> r <= g.nodes
  {
    var r := set e | e in g.weights && e.0 in frontier :: e.1;
    assert forall v, w :: v in frontier && (v, w) in g.weights ==> w in r by {
      forall v, w | v in frontier && (v, w) in g.weights
        ensures w in r
      {
        var e := (v, w);
        assert e in g.weights && e.0 in frontier;
      }
    }
    r
  }

  /** Every visited node outside the frontier has all its successors visited. */
  ghost predicate ClosedOutside(g: Graph, visited: set<string>, frontier: set<string>)
  {
    forall v, w :: v in visited && v !in frontier && (v, w) in g.weights ==> w in visited
  }

  /** Exploration from `root`: visit the successors of the frontier that
      were not visited yet, and collect every visited node without
      successors. Returns the visited set and the collected nodes. */
  function Search(g: Graph, root: string, frontier: set<string>, visited: set<string>,
                  found: set<string>): (r: (set<string>, set<string>))
    requires WellFormed(g) && frontier <= visited <= g.nodes
    requires ClosedOutside(g, visited, frontier)
    requires forall v :: v in found <==> v in visited && v !in frontier && Succ(g, v) == {}
    requires forall v :: v in visited ==> Reachable(g, root, v)
    ensures visited <= r.0 <= g.nodes
    ensures ClosedOutside(g, r.0, {})
    ensures forall v :: v in r.0 ==> Reachable(g, root, v)
    ensures forall v :: v in r.1 <==> v in r.0 && Succ(g, v) == {}
    decreases |g.nodes - visited|, |frontier|
  {
    if frontier == {} then (visited, found)
    else
      var next := Step(g, frontier) - visited;
      var leaves := set v | v in frontier && Succ(g, v) == {};
      SearchStep(g, root, frontier, visited, found, next, leaves);
      GrowingVisitedShrinksRest(g.nodes, visited, next);
      Search(g, root, next, visited + next, found + leaves)
  }

  /** One round of the search keeps its requirements: the new frontier is
      reachable, the visited set stays closed outside it, and the collected
      nodes are the visited ones without successors outside it. */
  lemma SearchStep(g: Graph, root: string, frontier: set<string>, visited: set<string>, found: set<string>,
                   next: set<string>, leaves: set<string>)
    requires WellFormed(g) && frontier <= visited <= g.nodes
    requires ClosedOutside(g, visited, frontier)
    requires forall v :: v in found <==> v in visited && v !in frontier && Succ(g, v) == {}
    requires forall v :: v in visited ==> Reachable(g, root, v)
    requires next == Step(g, frontier) - visited
    requires leaves == set v | v in frontier && Succ(g, v) == {}
    ensures next <= visited + next <= g.nodes && next * visited == {}
    ensures ClosedOutside(g, visited + next, next)
    ensures forall v :: v in found + leaves <==> v in visited + next && v !in next && Succ(g, v) == {}
    ensures forall v :: v in visited + next ==> Reachable(g, root, v)
  {
    forall v | v in next
      ensures Reachable(g, root, v)
    {
      var u :| u in frontier && (u, v) in g.weights;
      ReachableStep(g, root, u, v);
    }
  }

  lemma GrowingVisitedShrinksRest(nodes: set<string>, visited: set<string>, next: set<string>)
    requires next <= nodes && next * visited == {}
    ensures next != {} ==> |nodes - (visited + next)| < |nodes - visited|
  {
    if next != {} {
      assert next <= nodes - visited by {
        forall x | x in next
          ensures x in nodes - visited
        {
          assert x !in next * visited;
        }
      }
      RemoveNonEmpty(nodes - visited, next);
      assert nodes - (visited + next) == (nodes - visited) - next by {
        forall x
          ensures x in nodes - (visited + next) <==> x in (nodes - visited) - next
        {
        }
      }
    }
  }

  /** A successor-closed set that holds `a` holds everything reachable from `a`. */
  lemma {:induction false} ClosedHoldsReachable(g: Graph, C: set<string>, p: seq<string>)
    requires ClosedOutside(g, C, {}) && IsPath(g, p) && p[0] in C
    ensures p[|p| - 1] in C
    decreases |p|
  {
    if |p| > 1 {
      var q := p[..|p| - 1];
      assert forall i :: 0 <= i < |q| ==> q[i] == p[i];
      assert IsPath(g, q);
      ClosedHoldsReachable(g, C, q);
      assert (p[|p| - 2], p[|p| - 1]) in g.weights;
    }
  }

  /** `findLeafNodes`: the successor-less nodes reachable from `root`. The
      depth-first traversal of the source visits the same nodes as this
      exploration, so it collects the same set. */
  function FindLeaves(g: Graph, root: string): (r: set<string>)
    requires WellFormed(g) && root in g.nodes
    ensures forall v :: v in r <==> Reachable(g, root, v) && Succ(g, v) == {}
  {
    assert IsPath(g, [root]);
    var res := Search(g, root, {root}, {root}, {});
    forall v | Reachable(g, root, v)
      ensures v in res.0
    {
      var p :| IsPath(g, p) && p[0] == root && p[|p| - 1] == v;
      ClosedHoldsReachable(g, res.0, p);
    }
    res.1
  }
}
