/**
 Stable topological sorting: repeatedly take the earliest-declared ready task.
 It fails exactly on cyclic graphs, and its order is the lexicographically least one.
 */
module TopoSort {
  import opened Wrappers
  import opened Graphs
  import opened Sequences

  /** Not taken yet, and every dependency is. */
  ghost predicate Ready(g: Graph, v: nat, done: set<nat>)
    requires EdgesInRange(g)
  {
    v < Size(g) && v !in done && forall u: nat :: Edge(g, u, v) ==> u in done
  }

  /** Every element is the smallest task that was ready when it was taken. */
  ghost predicate Greedy(g: Graph, o: seq<nat>)
    requires EdgesInRange(g)
  {
    forall i :: 0 <= i < |o| ==>
      Ready(g, o[i], Elements(o[..i])) &&
      forall v: nat :: v < o[i] ==> !Ready(g, v, Elements(o[..i]))
  }

  lemma ReadyIffNothingPending(g: Graph, v: nat, done: set<nat>)
    requires EdgesInRange(g) && v < Size(g) && v !in done
    ensures Ready(g, v, done) <==> Pending(g, v, done, 0, |g.edgeFrom|) == 0
  {
    PendingZero(g, v, done, 0, |g.edgeFrom|);
    if Ready(g, v, done) {
      forall e | 0 <= e < |g.edgeFrom| && g.edgeTo[e] == v ensures g.edgeFrom[e] in done {
        assert Edge(g, g.edgeFrom[e], v);
      }
    }
  }

  /** Taking elements greedily yields distinct tasks, each after its dependencies. */
  lemma GreedyRespectsEdges(g: Graph, o: seq<nat>)
    requires EdgesInRange(g) && Greedy(g, o)
    ensures Distinct(o) && Below(o, Size(g))
    ensures forall i, j :: 0 <= i < |o| && 0 <= j < |o| && Edge(g, o[i], o[j]) ==> i < j
  {
    forall i, j | 0 <= i < j < |o| ensures o[i] != o[j] {
      assert o[..j][i] == o[i];
      assert o[i] in Elements(o[..j]);
    }
    forall i, j | 0 <= i < |o| && 0 <= j < |o| && Edge(g, o[i], o[j]) ensures i < j {
      assert o[i] in Elements(o[..j]);
      var k :| 0 <= k < j && o[..j][k] == o[i];
      assert o[k] == o[i];
    }
  }

  // ----- the greedy order is the least -----

  lemma {:induction false} FirstDifference(a: seq<nat>, b: seq<nat>) returns (i: nat)
    requires |a| == |b| && a != b
    ensures i < |a| && a[..i] == b[..i] && a[i] != b[i]
    decreases |a|
  {
    if a[0] != b[0] {
      i := 0;
    } else {
      assert a == [a[0]] + a[1..] && b == [b[0]] + b[1..];
      i := FirstDifference(a[1..], b[1..]);
      assert a[..i + 1] == [a[0]] + a[1..][..i] && b[..i + 1] == [b[0]] + b[1..][..i];
      i := i + 1;
    }
  }

  /** In a topological order, every element is ready when its turn comes. */
  lemma TopologicalReady(g: Graph, o: seq<nat>, i: nat)
    requires EdgesInRange(g) && IsTopological(g, o) && i < |o|
    ensures Ready(g, o[i], Elements(o[..i]))
  {
    assert o[i] !in o[..i];
    forall u: nat | Edge(g, u, o[i]) ensures u in o[..i] {
      Pigeonhole(o, Size(g));
      assert u < Size(g) && u in o;
      var k :| 0 <= k < |o| && o[k] == u;
      assert k < i && o[..i][k] == u;
    }
  }

  lemma GreedyIsLeast(g: Graph, o: seq<nat>, other: seq<nat>)
    requires EdgesInRange(g) && Greedy(g, o) && |o| == Size(g) && IsTopological(g, other)
    ensures LexLeq(o, other)
  {
    if o != other {
      var i := FirstDifference(o, other);
      TopologicalReady(g, other, i);
      assert Ready(g, other[i], Elements(o[..i]));
      assert o[i] < other[i];
      assert DiffersAt(o, other, i);
    }
  }

  // ----- cycles -----

  /** The position of a task in an order. */
  lemma Position(g: Graph, o: seq<nat>, v: nat) returns (i: nat)
    requires EdgesInRange(g) && IsTopological(g, o) && v < Size(g)
    ensures i < |o| && o[i] == v
  {
    Pigeonhole(o, Size(g));
    assert v in o;
    i :| 0 <= i < |o| && o[i] == v;
  }

  /** Along a walk, positions in a topological order increase. */
  lemma {:induction false} WalkAscends(g: Graph, o: seq<nat>, p: seq<nat>, i: nat, j: nat)
    requires EdgesInRange(g) && IsTopological(g, o) && IsWalk(g, p)
    requires i < |o| && j < |o| && o[i] == p[0] && o[j] == p[|p| - 1]
    ensures i + |p| <= j + 1
    decreases |p|
  {
    if |p| == 1 {
      assert o[i] == o[j];
    } else {
      var k := Position(g, o, p[1]);
      assert Edge(g, p[0], p[1]);
      var rest := p[1..];
      forall n | 0 <= n < |rest| - 1 ensures Edge(g, rest[n], rest[n + 1]) {
        assert Edge(g, p[n + 1], p[n + 2]);
      }
      WalkAscends(g, o, rest, k, j);
    }
  }

  lemma CyclicHasNoOrder(g: Graph, o: seq<nat>)
    requires EdgesInRange(g) && Cyclic(g)
    ensures !IsTopological(g, o)
  {
    if IsTopological(g, o) {
      var p :| IsCycle(g, p);
      var i := Position(g, o, p[0]);
      WalkAscends(g, o, p, i, i);
    }
  }

  ghost predicate HasPredecessorIn(g: Graph, rest: set<nat>, w: nat)
    requires EdgesInRange(g)
  {
    exists u :: u in rest && Edge(g, u, w)
  }

  /** When every task of a set has a predecessor in the set, walks of any length inside
      the set end at any of its tasks. */
  lemma {:induction false} BackwardWalk(g: Graph, rest: set<nat>, v: nat, k: nat) returns (p: seq<nat>)
    requires EdgesInRange(g) && v in rest && rest <= Upto(Size(g))
    requires forall w {:trigger HasPredecessorIn(g, rest, w)} :: w in rest ==> HasPredecessorIn(g, rest, w)
    ensures IsWalk(g, p) && |p| == k + 1 && forall i :: 0 <= i < |p| ==> p[i] in rest
    decreases k
  {
    if k == 0 {
      p := [v];
    } else {
      var q := BackwardWalk(g, rest, v, k - 1);
      assert HasPredecessorIn(g, rest, q[0]);
      var u :| u in rest && Edge(g, u, q[0]);
      p := [u] + q;
      forall i | 0 <= i < |p| - 1 ensures Edge(g, p[i], p[i + 1]) {
        if i > 0 { assert Edge(g, q[i - 1], q[i]); }
      }
    }
  }

  /** A walk longer than the number of tasks runs through a cycle. */
  lemma LongWalkHasCycle(g: Graph, p: seq<nat>)
    requires EdgesInRange(g) && IsWalk(g, p) && |p| > Size(g)
    ensures Cyclic(g)
  {
    assert !Distinct(p) by { if Distinct(p) { Pigeonhole(p, Size(g)); } }
    var i, j :| 0 <= i < j < |p| && p[i] == p[j];
    var c := p[i..j + 1];
    forall k | 0 <= k < |c| - 1 ensures Edge(g, c[k], c[k + 1]) {
      assert Edge(g, p[i + k], p[i + k + 1]);
    }
    assert IsCycle(g, c);
  }

  /** If some tasks are left and none of them is ready, they contain a cycle. */
  lemma StuckMeansCycle(g: Graph, o: seq<nat>)
    requires EdgesInRange(g) && Distinct(o) && Below(o, Size(g)) && |o| < Size(g)
    requires forall v: nat :: !Ready(g, v, Elements(o))
    ensures Cyclic(g)
  {
    var n := Size(g);
    var rest := Upto(n) - Elements(o);
    forall w | w in rest ensures HasPredecessorIn(g, rest, w) {
      assert !Ready(g, w, Elements(o));
      var u: nat :| Edge(g, u, w) && u !in Elements(o);
      assert u in rest;
    }
    Pigeonhole(o, n);
    var v: nat :| v < n && v !in o;
    assert v in rest;
    var p := BackwardWalk(g, rest, v, n);
    LongWalkHasCycle(g, p);
  }

  // ----- the algorithm -----

  /** The earliest-declared ready task, if there is one. */
  method SelectReady(g: Graph, indegree: array<int>, processed: array<bool>, ghost order: seq<nat>)
    returns (selected: Option<nat>)
    requires WellFormed(g) && indegree.Length == Size(g) == processed.Length
    requires forall v: nat :: v < Size(g) ==>
               (processed[v] <==> v in order) && indegree[v] == Pending(g, v, Elements(order), 0, |g.edgeFrom|)
    ensures selected.Some? ==>
              Ready(g, selected.value, Elements(order)) &&
              forall v: nat :: v < selected.value ==> !Ready(g, v, Elements(order))
    ensures selected.None? ==> forall v: nat :: !Ready(g, v, Elements(order))
  {
    for index := 0 to Size(g)
      invariant forall v: nat :: v < index ==> !Ready(g, v, Elements(order))
    {
      if !processed[index] { ReadyIffNothingPending(g, index, Elements(order)); }
      if !processed[index] && indegree[index] == 0 {
        return Some(index);
      }
    }
    return None;
  }

  /** Remove the edges that leave the selected task. */
  method ReleaseDependents(g: Graph, indegree: array<int>, selected: nat, ghost order: seq<nat>)
    requires WellFormed(g) && indegree.Length == Size(g)
    requires forall v: nat :: v < Size(g) ==>
               indegree[v] == Pending(g, v, Elements(order), 0, |g.edgeFrom|)
    requires selected !in order
    modifies indegree
    ensures forall v: nat :: v < Size(g) ==>
              indegree[v] == Pending(g, v, Elements(order + [selected]), 0, |g.edgeFrom|)
  {
    ghost var before, after := Elements(order), Elements(order + [selected]);
    var m := |g.edgeFrom|;
    for edge := 0 to m
      invariant forall v: nat :: v < Size(g) ==>
                  indegree[v] == Pending(g, v, after, 0, edge) + Pending(g, v, before, edge, m)
    {
      forall v: nat | v < Size(g)
        ensures Pending(g, v, after, 0, edge + 1) ==
                Pending(g, v, after, 0, edge) +
                if g.edgeTo[edge] == v && g.edgeFrom[edge] !in after then 1 else 0
      {
        PendingLast(g, v, after, 0, edge);
      }
      if g.edgeFrom[edge] == selected {
        indegree[g.edgeTo[edge]] := indegree[g.edgeTo[edge]] - 1;
      }
    }
  }

  method StableTopologicalOrder(g: Graph) returns (r: Option<seq<nat>>)
    requires WellFormed(g)
    ensures r.None? <==> Cyclic(g)
    ensures r.Some? ==> IsTopological(g, r.value)
    ensures r.Some? ==> forall other :: IsTopological(g, other) ==> LexLeq(r.value, other)
  {
    var n := Size(g);
    var indegree := new int[n](i requires 0 <= i < n => g.indegree[i]);
    var processed := new bool[n](_ => false);
    var order: seq<nat> := [];
    assert Elements(order) == {};
    while |order| < n
      invariant |order| <= n
      invariant Greedy(g, order)
      invariant forall v: nat :: v < n ==> (processed[v] <==> v in order)
      invariant forall v: nat :: v < n ==> indegree[v] == Pending(g, v, Elements(order), 0, |g.edgeFrom|)
    {
      var selected := SelectReady(g, indegree, processed, order);
      if selected.None? {
        GreedyRespectsEdges(g, order);
        StuckMeansCycle(g, order);
        return None;
      }
      processed[selected.value] := true;
      ReleaseDependents(g, indegree, selected.value, order);
      ghost var before := order;
      order := order + [selected.value];
      forall i | 0 <= i < |order|
        ensures Ready(g, order[i], Elements(order[..i])) &&
                forall v: nat :: v < order[i] ==> !Ready(g, v, Elements(order[..i]))
      {
        assert order[..i] == if i < |before| then before[..i] else before;
      }
    }
    GreedyRespectsEdges(g, order);
    if Cyclic(g) { CyclicHasNoOrder(g, order); }
    forall other | IsTopological(g, other) ensures LexLeq(order, other) {
      GreedyIsLeast(g, order, other);
    }
    return Some(order);
  }
}
