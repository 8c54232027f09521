/**
 Impact analysis: the queried task and everything that depends on it, directly or
 through other tasks, listed in the stable topological order.
 */
module Affected {
  import opened Wrappers
  import opened Graphs
  import opened TopoSort

  ghost predicate Connects(g: Graph, a: nat, b: nat, p: seq<nat>)
    requires EdgesInRange(g)
  {
    IsWalk(g, p) && p[0] == a && p[|p| - 1] == b
  }

  ghost predicate Reachable(g: Graph, a: nat, b: nat)
    requires EdgesInRange(g)
  {
    exists p :: Connects(g, a, b, p)
  }

  /** A task other than the origin is reachable exactly through a reachable dependency. */
  lemma ReachableThrough(g: Graph, q: nat, t: nat)
    requires EdgesInRange(g) && q < Size(g) && t < Size(g) && q != t
    ensures Reachable(g, q, t) <==> exists u: nat :: Edge(g, u, t) && Reachable(g, q, u)
  {
    if Reachable(g, q, t) {
      var p :| Connects(g, q, t, p);
      WalkPrefix(g, p);
      assert Connects(g, q, p[|p| - 2], p[..|p| - 1]);
      assert Edge(g, p[|p| - 2], t) && Reachable(g, q, p[|p| - 2]);
    }
    if u: nat :| Edge(g, u, t) && Reachable(g, q, u) {
      var p :| Connects(g, q, u, p);
      WalkAppend(g, p, t);
      assert Connects(g, q, t, p + [t]);
    }
  }

  lemma ReachesItself(g: Graph, q: nat)
    requires EdgesInRange(g) && q < Size(g)
    ensures Reachable(g, q, q)
  {
    assert Connects(g, q, q, [q]);
  }

  /** The elements of an order that are marked, in that order. */
  function Selected(order: seq<nat>, marked: seq<bool>): seq<nat>
    requires Below(order, |marked|)
  {
    if order == [] then []
    else
      var last := order[|order| - 1];
      Selected(order[..|order| - 1], marked) + if marked[last] then [last] else []
  }

  /** Is one of the task's dependencies marked? */
  method DependsOnMarked(g: Graph, t: nat, marked: array<bool>) returns (found: bool)
    requires EdgesInRange(g) && marked.Length == Size(g)
    ensures found <==> exists u: nat :: Edge(g, u, t) && marked[u]
  {
    for edge := 0 to |g.edgeFrom|
      invariant forall e :: 0 <= e < edge && g.edgeTo[e] == t ==> !marked[g.edgeFrom[e]]
    {
      if g.edgeTo[edge] == t && marked[g.edgeFrom[edge]] {
        assert Edge(g, g.edgeFrom[edge], t);
        return true;
      }
    }
    return false;
  }

  method MarkAffected(g: Graph, order: seq<nat>, query: nat) returns (marked: array<bool>)
    requires Weighted(g) && IsTopological(g, order) && query < Size(g)
    ensures marked.Length == Size(g)
    ensures forall t: nat :: t < Size(g) ==> (marked[t] <==> Reachable(g, query, t))
  {
    marked := new bool[Size(g)](_ => false);
    for position := 0 to |order|
      invariant forall i :: 0 <= i < position ==> (marked[order[i]] <==> Reachable(g, query, order[i]))
      invariant forall u: nat :: u < Size(g) && u !in order[..position] ==> !marked[u]
    {
      var t := order[position];
      var isAffected := t == query;
      if isAffected {
        ReachesItself(g, query);
      } else {
        isAffected := DependsOnMarked(g, t, marked);
        ReachableThrough(g, query, t);
        TopologicalReady(g, order, position);
        assert forall u: nat :: Edge(g, u, t) ==> (marked[u] <==> Reachable(g, query, u)) by {
          forall u: nat | Edge(g, u, t) ensures marked[u] <==> Reachable(g, query, u) {
            var i :| 0 <= i < position && order[i] == u;
          }
        }
      }
      marked[t] := isAffected;
      assert order[..position + 1] == order[..position] + [t];
    }
    forall t: nat | t < Size(g) ensures marked[t] <==> Reachable(g, query, t) {
      var i := Position(g, order, t);
    }
  }

  /** The whole query: an unknown name and a cyclic graph are errors. */
  method AffectedTasks(g: Graph, taskName: string) returns (r: Result<seq<nat>, InputError>)
    requires WellFormed(g)
    ensures r == Err(UnknownTask(taskName)) <==> taskName !in g.names
    ensures r == Err(CycleDetected) <==> taskName in g.names && Cyclic(g)
    ensures r.Ok? <==> taskName in g.names && !Cyclic(g)
    ensures r.Ok? ==>
              exists query: nat, order ::
                query < Size(g) && g.names[query] == taskName && StableOrder(g, order) &&
                ListsReachable(g, query, order, r.value)
  {
    if taskName !in g.indexes {
      assert taskName !in g.names;
      return Err(UnknownTask(taskName));
    }
    var query := g.indexes[taskName];
    assert g.names[query] == taskName;
    var sorted := StableTopologicalOrder(g);
    if sorted.None? { return Err(CycleDetected); }
    var order := sorted.value;
    var marked := MarkAffected(g, order, query);
    var listed: seq<nat> := [];
    for position := 0 to |order|
      invariant listed == Selected(order[..position], marked[..])
    {
      assert order[..position + 1][..position] == order[..position];
      if marked[order[position]] { listed := listed + [order[position]]; }
    }
    assert order[..|order|] == order;
    SelectedMembers(order, marked[..]);
    assert ListsReachable(g, query, order, listed) by {
      SelectedIsSubsequence(order, marked[..]);
      forall t: nat ensures t in listed <==> t < Size(g) && Reachable(g, query, t) {
        if t < Size(g) {
          var i := Position(g, order, t);
          assert marked[..][t] == marked[t];
        }
      }
    }
    assert StableOrder(g, order);
    return Ok(listed);
  }

  /** The lexicographically least topological order. */
  ghost predicate StableOrder(g: Graph, order: seq<nat>)
    requires EdgesInRange(g)
  {
    IsTopological(g, order) && forall other :: IsTopological(g, other) ==> LexLeq(order, other)
  }

  /** `listed` is what remains of `order` after dropping some elements. */
  ghost predicate Subsequence(listed: seq<nat>, order: seq<nat>) {
    if order == [] then listed == []
    else
      var last := |order| - 1;
      Subsequence(listed, order[..last]) ||
      (listed != [] && listed[|listed| - 1] == order[last] && Subsequence(listed[..|listed| - 1], order[..last]))
  }

  ghost predicate ListsReachable(g: Graph, query: nat, order: seq<nat>, listed: seq<nat>)
    requires EdgesInRange(g)
  {
    Subsequence(listed, order) &&
    forall t: nat :: t in listed <==> t < Size(g) && Reachable(g, query, t)
  }

  lemma {:induction false} SelectedMembers(order: seq<nat>, marked: seq<bool>)
    requires Below(order, |marked|)
    ensures forall t: nat :: t in Selected(order, marked) <==> t in order && marked[t]
  {
    if order != [] {
      var front := order[..|order| - 1];
      SelectedMembers(front, marked);
      assert order == front + [order[|order| - 1]];
    }
  }

  lemma {:induction false} SelectedIsSubsequence(order: seq<nat>, marked: seq<bool>)
    requires Below(order, |marked|)
    ensures Subsequence(Selected(order, marked), order)
  {
    if order != [] {
      var front, last := order[..|order| - 1], order[|order| - 1];
      SelectedIsSubsequence(front, marked);
      var listed := Selected(order, marked);
      assert if marked[last] then listed[..|listed| - 1] == Selected(front, marked)
             else listed == Selected(front, marked);
    }
  }
}
