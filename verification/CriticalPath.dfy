/**
 The critical path: the longest dependency path by total duration and, among the
 longest ones, the least in lexicographic order of task numbers.
 */
module CriticalPath {
  import opened Wrappers
  import opened Graphs
  import opened Sequences
  import opened TopoSort

  function Cost(g: Graph, p: seq<nat>): int
    requires Below(p, Size(g))
  {
    if p == [] then 0 else Cost(g, p[..|p| - 1]) + g.durations[p[|p| - 1]]
  }

  ghost predicate WalkTo(g: Graph, t: nat, p: seq<nat>)
    requires EdgesInRange(g)
  {
    IsWalk(g, p) && p[|p| - 1] == t
  }

  /** `p` costs more than `q`, or as much and is not lexicographically later. */
  ghost predicate NoWorse(g: Graph, p: seq<nat>, q: seq<nat>)
    requires EdgesInRange(g) && IsWalk(g, p) && IsWalk(g, q)
  {
    Cost(g, p) > Cost(g, q) || (Cost(g, p) == Cost(g, q) && LexLeq(p, q))
  }

  /** The best of all walks that end in `t`. */
  ghost predicate BestTo(g: Graph, t: nat, p: seq<nat>)
    requires EdgesInRange(g)
  {
    WalkTo(g, t, p) && forall q {:trigger WalkTo(g, t, q)} :: WalkTo(g, t, q) ==> NoWorse(g, p, q)
  }

  /** The best of all walks. */
  ghost predicate Critical(g: Graph, p: seq<nat>)
    requires EdgesInRange(g)
  {
    IsWalk(g, p) && forall q :: IsWalk(g, q) ==> NoWorse(g, p, q)
  }

  // ----- the lexicographic order -----

  lemma {:induction false} LexTotal(a: seq<nat>, b: seq<nat>)
    ensures a == b || LexLess(a, b) || LexLess(b, a)
    decreases |a|
  {
    if a == [] {
      if b != [] { assert DiffersAt(a, b, 0); }
    } else if b == [] {
      assert DiffersAt(b, a, 0);
    } else if a[0] != b[0] {
      assert DiffersAt(a, b, 0) || DiffersAt(b, a, 0);
    } else {
      assert a == [a[0]] + a[1..] && b == [b[0]] + b[1..];
      LexTotal(a[1..], b[1..]);
      if LexLess(a[1..], b[1..]) { LexCons(a[0], a[1..], b[1..]); }
      if LexLess(b[1..], a[1..]) { LexCons(a[0], b[1..], a[1..]); }
    }
  }

  lemma LexCons(x: nat, a: seq<nat>, b: seq<nat>)
    requires LexLess(a, b)
    ensures LexLess([x] + a, [x] + b)
  {
    var i: nat :| DiffersAt(a, b, i);
    assert ([x] + a)[..i + 1] == [x] + a[..i] && ([x] + b)[..i + 1] == [x] + b[..i];
    assert DiffersAt([x] + a, [x] + b, i + 1);
  }

  lemma LexTrans(a: seq<nat>, b: seq<nat>, c: seq<nat>)
    requires LexLeq(a, b) && LexLeq(b, c)
    ensures LexLeq(a, c)
  {
    if a != b && b != c {
      var i: nat :| DiffersAt(a, b, i);
      var j: nat :| DiffersAt(b, c, j);
      var k := if i < j then i else j;
      assert b[..k] == b[..i][..k] && b[..k] == b[..j][..k];
      assert a[..k] == a[..i][..k] && c[..k] == c[..j][..k];
      if i > j { assert a[j] == a[..i][j] == b[..i][j]; }
      if i < j { assert c[i] == c[..j][i] == b[..j][i]; }
      assert DiffersAt(a, c, k);
    }
  }

  lemma AgreesBefore(a: seq<nat>, b: seq<nat>, i: nat, j: nat)
    requires DiffersAt(a, b, i) && j < i
    ensures a[j] == b[j]
  {
    assert a[..i][j] == b[..i][j];
  }

  lemma LexAntisymmetric(a: seq<nat>, b: seq<nat>)
    requires LexLess(a, b)
    ensures !LexLess(b, a)
  {
    if LexLess(b, a) {
      var i: nat :| DiffersAt(a, b, i);
      var j: nat :| DiffersAt(b, a, j);
      if i < j { AgreesBefore(b, a, j, i); }
      if j < i { AgreesBefore(a, b, i, j); }
    }
  }

  /** Extending both at the end keeps the order, unless one is a prefix of the other. */
  lemma LexAppend(a: seq<nat>, b: seq<nat>, t: nat)
    requires LexLeq(a, b) && !(a < b)
    ensures LexLeq(a + [t], b + [t])
  {
    if a != b {
      var i: nat :| DiffersAt(a, b, i);
      assert a[..i] <= b && a[..|a|] == a;
      assert (a + [t])[..i] == a[..i] && (b + [t])[..i] == b[..i];
      assert DiffersAt(a + [t], b + [t], i);
    }
  }

  method ComparePaths(left: seq<nat>, right: seq<nat>) returns (r: int)
    ensures r < 0 <==> LexLess(left, right)
    ensures r == 0 <==> left == right
    ensures r > 0 <==> LexLess(right, left)
  {
    var common := if |left| < |right| then |left| else |right|;
    for index := 0 to common
      invariant left[..index] == right[..index]
    {
      if left[index] != right[index] {
        if left[index] < right[index] {
          assert DiffersAt(left, right, index);
          LexAntisymmetric(left, right);
          return -1;
        } else {
          assert DiffersAt(right, left, index);
          LexAntisymmetric(right, left);
          return 1;
        }
      }
    }
    if |left| < |right| {
      assert DiffersAt(left, right, common);
      LexAntisymmetric(left, right);
      return -1;
    } else if |left| > |right| {
      assert DiffersAt(right, left, common);
      LexAntisymmetric(right, left);
      return 1;
    }
    assert left == right;
    assert !LexLess(left, right) by {
      if i: nat :| DiffersAt(left, right, i) { assert false; }
    }
    return 0;
  }

  // ----- costs -----

  lemma CostAppend(g: Graph, p: seq<nat>, t: nat)
    requires Below(p, Size(g)) && t < Size(g)
    ensures Cost(g, p + [t]) == Cost(g, p) + g.durations[t]
  {
    assert (p + [t])[..|p|] == p;
  }

  /** Durations are positive, so a longer walk with the same beginning costs more. */
  lemma {:induction false} PrefixCostsLess(g: Graph, p: seq<nat>, q: seq<nat>)
    requires Weighted(g) && Below(q, Size(g)) && p <= q
    ensures p != q ==> Cost(g, p) < Cost(g, q)
    decreases |q|
  {
    if p != q {
      var q' := q[..|q| - 1];
      assert p <= q';
      if p != q' { PrefixCostsLess(g, p, q'); }
    }
  }

  lemma {:induction false} CostBound(g: Graph, p: seq<nat>)
    requires Weighted(g) && Below(p, Size(g))
    ensures |p| <= Cost(g, p) <= |p| * INT32_MAX
    decreases |p|
  {
    if p != [] { CostBound(g, p[..|p| - 1]); }
  }

  // ----- optimal substructure -----

  /** Extending the better of two walks of different ends keeps it the better one, because
      neither of two walks of equal cost is a prefix of the other. */
  lemma ExtendNoWorse(g: Graph, p: seq<nat>, q: seq<nat>, t: nat)
    requires Weighted(g) && IsWalk(g, p) && IsWalk(g, q) && t < Size(g)
    requires IsWalk(g, p + [t]) && IsWalk(g, q + [t]) && NoWorse(g, p, q)
    ensures NoWorse(g, p + [t], q + [t])
  {
    CostAppend(g, p, t);
    CostAppend(g, q, t);
    if Cost(g, p) == Cost(g, q) {
      if p < q { PrefixCostsLess(g, p, q); }
      LexAppend(p, q, t);
    }
  }

  lemma NoWorseTrans(g: Graph, p: seq<nat>, q: seq<nat>, r: seq<nat>)
    requires EdgesInRange(g) && IsWalk(g, p) && IsWalk(g, q) && IsWalk(g, r)
    requires NoWorse(g, p, q) && NoWorse(g, q, r)
    ensures NoWorse(g, p, r)
  {
    if Cost(g, p) == Cost(g, r) { LexTrans(p, q, r); }
  }

  /** A table of walks, one for each task finished so far. */
  type Walks = map<nat, seq<nat>>

  ghost predicate BestSoFar(g: Graph, best: Walks)
    requires EdgesInRange(g)
  {
    forall t :: t in best ==> BestTo(g, t, best[t])
  }

  /** A task without dependencies has only the one-task walk. */
  lemma BestAlone(g: Graph, t: nat)
    requires Weighted(g) && t < Size(g) && forall u: nat :: !Edge(g, u, t)
    ensures BestTo(g, t, [t])
  {
    forall q | WalkTo(g, t, q) ensures q == [t] {
      if |q| > 1 { WalkPrefix(g, q); }
    }
  }

  /** The best walk to `t` extends the best of the best walks to its dependencies. */
  lemma BestExtends(g: Graph, t: nat, d: nat, best: Walks)
    requires Weighted(g) && t < Size(g) && BestSoFar(g, best)
    requires forall u: nat :: Edge(g, u, t) ==> u in best
    requires Edge(g, d, t) && forall u: nat :: Edge(g, u, t) ==> NoWorse(g, best[d], best[u])
    ensures BestTo(g, t, best[d] + [t])
  {
    var p := best[d] + [t];
    WalkAppend(g, best[d], t);
    CostAppend(g, best[d], t);
    CostBound(g, best[d]);
    forall q | WalkTo(g, t, q) ensures NoWorse(g, p, q) {
      if |q| == 1 {
        assert q == [t] && q == [] + [t];
        CostAppend(g, [], t);
      } else {
        var q', u := q[..|q| - 1], q[|q| - 2];
        WalkPrefix(g, q);
        assert q == q' + [t];
        assert Edge(g, u, t) && WalkTo(g, u, q');
        NoWorseTrans(g, best[d], best[u], q');
        ExtendNoWorse(g, best[d], q', t);
      }
    }
  }

  /** The best of the best walks to all tasks is critical. */
  lemma BestOfAll(g: Graph, e: nat, best: Walks)
    requires Weighted(g) && BestSoFar(g, best) && e in best
    requires forall t: nat :: t < Size(g) ==> t in best && NoWorse(g, best[e], best[t])
    ensures Critical(g, best[e])
  {
    forall q | IsWalk(g, q) ensures NoWorse(g, best[e], q) {
      var t := q[|q| - 1];
      assert WalkTo(g, t, q);
      NoWorseTrans(g, best[e], best[t], q);
    }
  }

  lemma CriticalUnique(g: Graph, p: seq<nat>, q: seq<nat>)
    requires EdgesInRange(g) && Critical(g, p) && Critical(g, q)
    ensures p == q
  {
    assert NoWorse(g, p, q) && NoWorse(g, q, p);
    if p != q { LexAntisymmetric(p, q); }
  }

  // ----- the algorithm -----

  /** The `previous` links spell out the walks of the table, last task first. */
  ghost predicate Linked(previous: seq<Option<nat>>, best: Walks) {
    forall t :: t in best ==>
      t < |previous| && best[t] != [] &&
      match previous[t]
      case None => best[t] == [t]
      case Some(d) => d in best && best[t] == best[d] + [t]
  }

  /** Following one link moves the last task of the remaining walk to the gathered ones. */
  lemma FollowLink(previous: seq<Option<nat>>, best: Walks, index: nat, reversed: seq<nat>, walk: seq<nat>)
    requires Linked(previous, best) && index in best && walk == best[index] + Reversed(reversed)
    ensures match previous[index]
            case None => walk == Reversed(reversed + [index])
            case Some(d) => d in best && |best[d]| < |best[index]| &&
                            walk == best[d] + Reversed(reversed + [index])
  {
    ReversedSnoc(reversed, index);
    var d := previous[index];
    if d.Some? { Associative(best[d.value], [index], Reversed(reversed)); }
  }

  method BuildPath(previous: array<Option<nat>>, end: nat, ghost best: Walks) returns (path: seq<nat>)
    requires Linked(previous[..], best) && end in best
    ensures path == best[end]
  {
    var reversed: seq<nat> := [];
    var current: Option<nat> := Some(end);
    while current.Some?
      invariant current.Some? ==>
                  current.value in best && best[end] == best[current.value] + Reversed(reversed)
      invariant current.None? ==> best[end] == Reversed(reversed)
      decreases if current.Some? then |best[current.value]| else 0
    {
      var index := current.value;
      FollowLink(previous[..], best, index, reversed, best[end]);
      assert previous[..][index] == previous[index];
      reversed := reversed + [index];
      current := previous[index];
    }
    path := Reversed(reversed);
  }

  method CandidatePathIsEarlier(previous: array<Option<nat>>, candidateEnd: nat, currentEnd: Option<nat>,
                                ghost best: Walks) returns (earlier: bool)
    requires Linked(previous[..], best) && candidateEnd in best
    requires currentEnd.Some? ==> currentEnd.value in best
    ensures earlier <==> currentEnd.None? || LexLess(best[candidateEnd], best[currentEnd.value])
  {
    if currentEnd.None? { return true; }
    var candidate := BuildPath(previous, candidateEnd, best);
    var current := BuildPath(previous, currentEnd.value, best);
    var c := ComparePaths(candidate, current);
    return c < 0;
  }

  /** What the two tables say about the tasks finished so far. */
  ghost predicate Tables(g: Graph, distance: seq<int>, previous: seq<Option<nat>>, best: Walks)
    requires Weighted(g)
  {
    |distance| == Size(g) == |previous| && BestSoFar(g, best) && Linked(previous, best) &&
    forall t :: t in best ==> t < Size(g) && distance[t] == Cost(g, best[t])
  }

  ghost predicate ShorterThan(best: Walks, bound: nat) {
    forall t :: t in best ==> |best[t]| <= bound
  }

  /** The result for one task: its best distance and the dependency it comes through. */
  method BestPredecessor(g: Graph, t: nat, distance: array<int>, previous: array<Option<nat>>, ghost best: Walks)
    returns (r: Result<(int, Option<nat>), InputError>)
    requires Weighted(g) && t < Size(g) && Tables(g, distance[..], previous[..], best)
    requires ShorterThan(best, Size(g))
    requires forall u: nat :: Edge(g, u, t) ==> u in best
    ensures r.Ok?
    ensures r.value.1.None? ==> r.value.0 == g.durations[t] && forall u: nat :: !Edge(g, u, t)
    ensures r.value.1.Some? ==>
              var d := r.value.1.value;
              Edge(g, d, t) && r.value.0 == Cost(g, best[d]) + g.durations[t] &&
              forall u: nat :: Edge(g, u, t) ==> NoWorse(g, best[d], best[u])
  {
    var bestDistance := g.durations[t];
    var bestPrevious: Option<nat> := None;
    for edge := 0 to |g.edgeFrom|
      invariant bestPrevious.None? ==> bestDistance == g.durations[t]
      invariant bestPrevious.Some? ==>
                  Edge(g, bestPrevious.value, t) &&
                  bestDistance == Cost(g, best[bestPrevious.value]) + g.durations[t]
      invariant BestAmong(g, t, best, bestPrevious, edge)
    {
      if g.edgeTo[edge] != t {
        BestAmongSkip(g, t, best, bestPrevious, edge);
        continue;
      }
      var dependency := g.edgeFrom[edge];
      assert Edge(g, dependency, t);
      assert distance[dependency] == Cost(g, best[dependency]) by {
        assert distance[..][dependency] == Cost(g, best[dependency]);
      }
      assert 1 <= Cost(g, best[dependency]) <= INT64_MAX - INT32_MAX by {
        CostBound(g, best[dependency]);
        PathFits(|best[dependency]|, Size(g));
      }
      if distance[dependency] + g.durations[t] > INT64_MAX {
        return Err(CriticalDurationOverflow);
      }
      var candidate := distance[dependency] + g.durations[t];
      var earlier := false;
      if candidate == bestDistance {
        earlier := CandidatePathIsEarlier(previous, dependency, bestPrevious, best);
      }
      if candidate > bestDistance || earlier {
        BestAmongStep(g, t, best, bestPrevious, dependency, edge);
        bestDistance := candidate;
        bestPrevious := Some(dependency);
      } else {
        LexTotal(best[bestPrevious.value], best[dependency]);
        BestAmongStep(g, t, best, bestPrevious, bestPrevious.value, edge);
        assert Some(bestPrevious.value) == bestPrevious;
      }
    }
    forall u: nat | Edge(g, u, t)
      ensures bestPrevious.Some? && NoWorse(g, best[bestPrevious.value], best[u])
    {
      var e :| 0 <= e < |g.edgeFrom| && g.edgeFrom[e] == u && g.edgeTo[e] == t;
    }
    return Ok((bestDistance, bestPrevious));
  }

  /** The link beats every edge into `t` among the first `upto`. */
  ghost predicate BestAmong(g: Graph, t: nat, best: Walks, link: Option<nat>, upto: nat)
    requires Weighted(g) && BestSoFar(g, best) && upto <= |g.edgeFrom|
    requires (link.Some? ==> link.value in best) && forall u: nat :: Edge(g, u, t) ==> u in best
  {
    forall e :: 0 <= e < upto && g.edgeTo[e] == t ==>
      Edge(g, g.edgeFrom[e], t) && link.Some? && NoWorse(g, best[link.value], best[g.edgeFrom[e]])
  }

  lemma BestAmongSkip(g: Graph, t: nat, best: Walks, link: Option<nat>, edge: nat)
    requires Weighted(g) && BestSoFar(g, best) && edge < |g.edgeFrom| && g.edgeTo[edge] != t
    requires (link.Some? ==> link.value in best) && forall u: nat :: Edge(g, u, t) ==> u in best
    requires BestAmong(g, t, best, link, edge)
    ensures BestAmong(g, t, best, link, edge + 1)
  {
  }

  lemma BestAmongStep(g: Graph, t: nat, best: Walks, before: Option<nat>, d: nat, edge: nat)
    requires Weighted(g) && BestSoFar(g, best) && edge < |g.edgeFrom|
    requires (before.Some? ==> before.value in best) && d in best && forall u: nat :: Edge(g, u, t) ==> u in best
    requires BestAmong(g, t, best, before, edge) && g.edgeTo[edge] == t
    requires Edge(g, g.edgeFrom[edge], t) && NoWorse(g, best[d], best[g.edgeFrom[edge]])
    requires before.Some? ==> NoWorse(g, best[d], best[before.value])
    ensures BestAmong(g, t, best, Some(d), edge + 1)
  {
    forall e | 0 <= e < edge && g.edgeTo[e] == t
      ensures Edge(g, g.edgeFrom[e], t) && NoWorse(g, best[d], best[g.edgeFrom[e]])
    {
      NoWorseTrans(g, best[d], best[before.value], best[g.edgeFrom[e]]);
    }
  }

  /** A walk of at most 2^31 - 1 tasks of at most 2^31 - 1 each fits 64 bits, with room for
      one more task. */
  lemma PathFits(len: nat, size: nat)
    requires len <= size <= INT32_MAX
    ensures len * INT32_MAX + INT32_MAX <= INT64_MAX
  {
  }

  /** The walk that the chosen link gives to a task is its best one. */
  lemma ChosenWalk(g: Graph, t: nat, link: Option<nat>, distance: int, best: Walks) returns (walk: seq<nat>)
    requires Weighted(g) && t < Size(g) && BestSoFar(g, best)
    requires forall u: nat :: Edge(g, u, t) ==> u in best
    requires link.None? ==> distance == g.durations[t] && forall u: nat :: !Edge(g, u, t)
    requires link.Some? ==>
               Edge(g, link.value, t) && distance == Cost(g, best[link.value]) + g.durations[t] &&
               forall u: nat :: Edge(g, u, t) ==> NoWorse(g, best[link.value], best[u])
    ensures BestTo(g, t, walk) && distance == Cost(g, walk)
    ensures if link.None? then walk == [t] else walk == best[link.value] + [t]
  {
    if link.None? {
      walk := [t];
      BestAlone(g, t);
      assert [t] == [] + [t];
      CostAppend(g, [], t);
    } else {
      walk := best[link.value] + [t];
      BestExtends(g, t, link.value, best);
      CostAppend(g, best[link.value], t);
    }
  }

  lemma TablesExtend(g: Graph, distance: seq<int>, previous: seq<Option<nat>>, best: Walks,
                     t: nat, d: int, link: Option<nat>, walk: seq<nat>)
    requires Weighted(g) && Tables(g, distance, previous, best) && t < Size(g) && t !in best
    requires BestTo(g, t, walk) && d == Cost(g, walk)
    requires if link.None? then walk == [t] else link.value in best && walk == best[link.value] + [t]
    ensures Tables(g, distance[t := d], previous[t := link], best[t := walk])
  {
    LinkedExtends(previous, best, t, link, walk);
    var best' := best[t := walk];
    forall u | u in best' ensures BestTo(g, u, best'[u]) && distance[t := d][u] == Cost(g, best'[u]) {
      if u != t { assert BestTo(g, u, best[u]); }
    }
  }

  lemma LinkedExtends(previous: seq<Option<nat>>, best: Walks, t: nat, link: Option<nat>, walk: seq<nat>)
    requires Linked(previous, best) && t < |previous| && t !in best
    requires if link.None? then walk == [t] else link.value in best && walk == best[link.value] + [t]
    ensures Linked(previous[t := link], best[t := walk])
  {
  }

  lemma TakeOneMore(o: seq<nat>, i: nat)
    requires i < |o|
    ensures Elements(o[..i + 1]) == Elements(o[..i]) + {o[i]}
  {
    assert o[..i + 1] == o[..i] + [o[i]];
  }

  method ChooseWalk(g: Graph, t: nat, distance: array<int>, previous: array<Option<nat>>, ghost best: Walks)
    returns (d: int, link: Option<nat>, ghost walk: seq<nat>)
    requires Weighted(g) && t < Size(g) && Tables(g, distance[..], previous[..], best)
    requires ShorterThan(best, Size(g)) && forall u: nat :: Edge(g, u, t) ==> u in best
    ensures BestTo(g, t, walk) && d == Cost(g, walk)
    ensures if link.None? then walk == [t] else link.value in best && walk == best[link.value] + [t]
  {
    var outcome := BestPredecessor(g, t, distance, previous, best);
    d, link := outcome.value.0, outcome.value.1;
    walk := ChosenWalk(g, t, link, d, best);
  }

  /** One round: the distance of, and the link from, the next task. */
  method FinishTask(g: Graph, t: nat, distance: array<int>, previous: array<Option<nat>>,
                    ghost before: Walks, ghost position: nat) returns (ghost best: Walks)
    requires distance as object != previous
    requires Weighted(g) && t < Size(g) && Tables(g, distance[..], previous[..], before) && t !in before
    requires forall u: nat :: Edge(g, u, t) ==> u in before
    requires position < Size(g) && ShorterThan(before, position)
    modifies distance, previous
    ensures Tables(g, distance[..], previous[..], best)
    ensures best.Keys == before.Keys + {t} && ShorterThan(best, position + 1)
  {
    var d, link;
    ghost var walk;
    d, link, walk := ChooseWalk(g, t, distance, previous, before);
    ghost var distance', previous' := distance[..][t := d], previous[..][t := link];
    best := before[t := walk];
    assert Tables(g, distance', previous', best) by {
      TablesExtend(g, distance[..], previous[..], before, t, d, link, walk);
    }
    distance[t], previous[t] := d, link;
    assert distance[..] == distance' && previous[..] == previous';
  }

  method LongestPaths(g: Graph, order: seq<nat>, distance: array<int>, previous: array<Option<nat>>)
    returns (ghost best: Walks)
    requires Weighted(g) && IsTopological(g, order)
    requires distance.Length == Size(g) == previous.Length && distance as object != previous
    modifies distance, previous
    ensures Tables(g, distance[..], previous[..], best)
    ensures forall t: nat :: t < Size(g) ==> t in best
  {
    best := map[];
    for position := 0 to |order|
      invariant Tables(g, distance[..], previous[..], best)
      invariant best.Keys == Elements(order[..position])
      invariant ShorterThan(best, position)
    {
      var t := order[position];
      TopologicalReady(g, order, position);
      assert t !in best;
      best := FinishTask(g, t, distance, previous, best, position);
      TakeOneMore(order, position);
    }
    assert order[..|order|] == order;
    Pigeonhole(order, Size(g));
  }

  method BetterEnd(g: Graph, t: nat, currentEnd: nat, distance: array<int>, previous: array<Option<nat>>,
                   ghost best: Walks) returns (bestEnd: nat)
    requires Weighted(g) && t in best && currentEnd in best && Linked(previous[..], best)
    requires distance.Length == Size(g)
    requires forall u :: u in best ==> u < Size(g) && IsWalk(g, best[u]) && distance[u] == Cost(g, best[u])
    ensures bestEnd == t || bestEnd == currentEnd
    ensures NoWorse(g, best[bestEnd], best[t]) && NoWorse(g, best[bestEnd], best[currentEnd])
  {
    var earlier := false;
    if distance[t] == distance[currentEnd] {
      var candidate := BuildPath(previous, t, best);
      var current := BuildPath(previous, currentEnd, best);
      var c := ComparePaths(candidate, current);
      earlier := c < 0;
    }
    LexTotal(best[currentEnd], best[t]);
    bestEnd := if distance[t] > distance[currentEnd] || earlier then t else currentEnd;
  }

  /** The walk to `end` is no worse than those to the first `n` tasks of the order. */
  ghost predicate BestOfFirst(g: Graph, best: Walks, end: nat, order: seq<nat>, n: nat)
    requires EdgesInRange(g) && n <= |order|
  {
    end in best && IsWalk(g, best[end]) &&
    forall i :: 0 <= i < n ==>
      order[i] in best && IsWalk(g, best[order[i]]) && NoWorse(g, best[end], best[order[i]])
  }

  lemma BestOneMore(g: Graph, best: Walks, before: nat, end: nat, order: seq<nat>, n: nat)
    requires EdgesInRange(g) && n < |order| && BestOfFirst(g, best, before, order, n)
    requires end in best && IsWalk(g, best[end]) && NoWorse(g, best[end], best[before])
    requires order[n] in best && IsWalk(g, best[order[n]]) && NoWorse(g, best[end], best[order[n]])
    ensures BestOfFirst(g, best, end, order, n + 1)
  {
    forall i | 0 <= i < n ensures NoWorse(g, best[end], best[order[i]]) {
      NoWorseTrans(g, best[end], best[before], best[order[i]]);
    }
  }

  lemma BestOfTasks(g: Graph, best: Walks, end: nat, order: seq<nat>)
    requires Weighted(g) && IsTopological(g, order) && BestSoFar(g, best)
    requires forall t: nat :: t < Size(g) ==> t in best
    requires BestOfFirst(g, best, end, order, |order|)
    ensures Critical(g, best[end])
  {
    forall t: nat | t < Size(g) ensures NoWorse(g, best[end], best[t]) {
      var i := Position(g, order, t);
    }
    BestOfAll(g, end, best);
  }

  /** The end of the best walk of the table. */
  method BestEnd(g: Graph, order: seq<nat>, distance: array<int>, previous: array<Option<nat>>, ghost best: Walks)
    returns (bestEnd: nat)
    requires Weighted(g) && IsTopological(g, order) && Tables(g, distance[..], previous[..], best)
    requires forall t: nat :: t < Size(g) ==> t in best
    ensures bestEnd < Size(g) && Critical(g, best[bestEnd])
  {
    bestEnd := order[0];
    for position := 1 to |order|
      invariant bestEnd < Size(g) && BestOfFirst(g, best, bestEnd, order, position)
    {
      ghost var before := bestEnd;
      bestEnd := BetterEnd(g, order[position], bestEnd, distance, previous, best);
      BestOneMore(g, best, before, bestEnd, order, position);
    }
    BestOfTasks(g, best, bestEnd, order);
  }

  method FindCriticalPath(g: Graph, order: seq<nat>) returns (r: Result<(int, seq<nat>), InputError>)
    requires Weighted(g) && IsTopological(g, order)
    ensures r.Ok?
    ensures Critical(g, r.value.1) && r.value.0 == Cost(g, r.value.1)
  {
    var distance := new int[Size(g)](_ => 0);
    var previous := new Option<nat>[Size(g)](_ => None);
    ghost var best: Walks;
    best := LongestPaths(g, order, distance, previous);
    var bestEnd := BestEnd(g, order, distance, previous, best);
    var path := BuildPath(previous, bestEnd, best);
    assert distance[..][bestEnd] == Cost(g, best[bestEnd]);
    return Ok((distance[bestEnd], path));
  }
}
