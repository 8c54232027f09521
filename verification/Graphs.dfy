/**
 Dependency graphs of the BuildGraph tool: walks, cycles, topological orders, and the
 counting facts they rest on.
 */
module Graphs {
  import CheckedArith
  import opened Sequences

  /** Tasks are numbered in declaration order; edge `e` says that task `edgeTo[e]`
      depends on task `edgeFrom[e]`. */
  datatype Graph = Graph(
    names: seq<string>,
    durations: seq<int>,
    edgeFrom: seq<nat>,
    edgeTo: seq<nat>,
    indegree: seq<int>,
    indexes: map<string, nat>)

  /** The input errors the analyses can end in. */
  datatype InputError = CycleDetected | CriticalDurationOverflow | UnknownTask(name: string)

  const INT32_MAX: int := CheckedArith.INT32_MAX as int
  const INT64_MAX: int := CheckedArith.INT64_MAX as int

  function Size(g: Graph): nat { |g.durations| }

  ghost predicate EdgesInRange(g: Graph) {
    |g.edgeFrom| == |g.edgeTo| &&
    forall e :: 0 <= e < |g.edgeFrom| ==> g.edgeFrom[e] < Size(g) && g.edgeTo[e] < Size(g)
  }

  ghost predicate Edge(g: Graph, a: nat, b: nat)
    requires EdgesInRange(g)
  {
    exists e :: 0 <= e < |g.edgeFrom| && g.edgeFrom[e] == a && g.edgeTo[e] == b
  }

  /** Edges into `v`, among those numbered [lo, hi), whose source is not in `done`. */
  function Pending(g: Graph, v: nat, done: set<nat>, lo: nat, hi: nat): nat
    requires lo <= hi <= |g.edgeFrom| && |g.edgeFrom| == |g.edgeTo|
    decreases hi - lo
  {
    if lo == hi then 0
    else
      (if g.edgeTo[lo] == v && g.edgeFrom[lo] !in done then 1 else 0) + Pending(g, v, done, lo + 1, hi)
  }

  /** Edges in range, and durations that are positive 32-bit numbers. */
  ghost predicate Weighted(g: Graph) {
    EdgesInRange(g) && 0 < Size(g) <= INT32_MAX &&
    forall t :: 0 <= t < Size(g) ==> 1 <= g.durations[t] <= INT32_MAX
  }

  /** What the parser establishes: edges and durations in range, in-degrees counted. */
  ghost predicate WellFormed(g: Graph) {
    Weighted(g) && |g.names| == Size(g) &&
    |g.indegree| == Size(g) &&
    (forall t :: 0 <= t < Size(g) ==> g.indegree[t] == Pending(g, t, {}, 0, |g.edgeFrom|)) &&
    (forall s :: s in g.indexes ==> g.indexes[s] < Size(g) && g.names[g.indexes[s]] == s) &&
    (forall t :: 0 <= t < Size(g) ==> g.names[t] in g.indexes && g.indexes[g.names[t]] == t)
  }

  // ----- walks and cycles -----

  ghost predicate IsWalk(g: Graph, p: seq<nat>)
    requires EdgesInRange(g)
  {
    p != [] && Below(p, Size(g)) &&
    forall i :: 0 <= i < |p| - 1 ==> Edge(g, p[i], p[i + 1])
  }

  lemma WalkPrefix(g: Graph, p: seq<nat>)
    requires EdgesInRange(g) && IsWalk(g, p) && |p| > 1
    ensures IsWalk(g, p[..|p| - 1]) && Edge(g, p[|p| - 2], p[|p| - 1])
  {
    var q := p[..|p| - 1];
    forall i | 0 <= i < |q| - 1 ensures Edge(g, q[i], q[i + 1]) {
      assert Edge(g, p[i], p[i + 1]);
    }
    assert Edge(g, p[|p| - 2], p[|p| - 2 + 1]);
  }

  lemma WalkAppend(g: Graph, p: seq<nat>, t: nat)
    requires EdgesInRange(g) && IsWalk(g, p) && t < Size(g) && Edge(g, p[|p| - 1], t)
    ensures IsWalk(g, p + [t])
  {
    var q := p + [t];
    forall i | 0 <= i < |q| - 1 ensures Edge(g, q[i], q[i + 1]) {
      if i < |p| - 1 { assert Edge(g, p[i], p[i + 1]); }
    }
  }

  ghost predicate IsCycle(g: Graph, p: seq<nat>)
    requires EdgesInRange(g)
  {
    IsWalk(g, p) && |p| >= 2 && p[0] == p[|p| - 1]
  }

  ghost predicate Cyclic(g: Graph)
    requires EdgesInRange(g)
  {
    exists p :: IsCycle(g, p)
  }

  // ----- orders -----

  ghost predicate Below(o: seq<nat>, n: nat) {
    forall i :: 0 <= i < |o| ==> o[i] < n
  }

  /** A permutation of all tasks in which every dependency comes first. */
  ghost predicate IsTopological(g: Graph, o: seq<nat>)
    requires EdgesInRange(g)
  {
    |o| == Size(g) && Distinct(o) && Below(o, Size(g)) &&
    forall i, j :: 0 <= i < |o| && 0 <= j < |o| && Edge(g, o[i], o[j]) ==> i < j
  }

  /** Lexicographic order; a proper prefix comes first. */
  ghost predicate LexLess(a: seq<nat>, b: seq<nat>) {
    exists i: nat :: DiffersAt(a, b, i)
  }

  ghost predicate DiffersAt(a: seq<nat>, b: seq<nat>, i: nat) {
    i <= |a| && i < |b| && a[..i] == b[..i] && (i == |a| || a[i] < b[i])
  }

  ghost predicate LexLeq(a: seq<nat>, b: seq<nat>) { a == b || LexLess(a, b) }

  // ----- counting -----

  /** Distinct numbers below `n`: at most `n` of them, and `n` of them are all of them. */
  lemma Pigeonhole(o: seq<nat>, n: nat)
    requires Distinct(o) && Below(o, n)
    ensures |o| <= n
    ensures |o| == n ==> forall v: nat :: v < n ==> v in o
    ensures |o| < n ==> exists v: nat :: v < n && v !in o
  {
    DistinctSize(o);
    assert Elements(o) <= Upto(n);
    SubsetSize(Elements(o), Upto(n));
    if |o| == n {
      forall v: nat | v < n ensures v in o { assert v in Upto(n); }
    }
    if |o| < n {
      var v :| v in Upto(n) - Elements(o);
      assert v < n && v !in o;
    }
  }

  // ----- pending edges -----

  lemma {:induction false} PendingZero(g: Graph, v: nat, done: set<nat>, lo: nat, hi: nat)
    requires lo <= hi <= |g.edgeFrom| && |g.edgeFrom| == |g.edgeTo|
    ensures Pending(g, v, done, lo, hi) == 0 <==>
            forall e :: lo <= e < hi && g.edgeTo[e] == v ==> g.edgeFrom[e] in done
    decreases hi - lo
  {
    if lo < hi { PendingZero(g, v, done, lo + 1, hi); }
  }

  lemma {:induction false} PendingLast(g: Graph, v: nat, done: set<nat>, lo: nat, hi: nat)
    requires lo <= hi < |g.edgeFrom| && |g.edgeFrom| == |g.edgeTo|
    ensures Pending(g, v, done, lo, hi + 1) ==
            Pending(g, v, done, lo, hi) + if g.edgeTo[hi] == v && g.edgeFrom[hi] !in done then 1 else 0
    decreases hi - lo
  {
    if lo < hi { PendingLast(g, v, done, lo + 1, hi); }
  }
}
