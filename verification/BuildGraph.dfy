/**
 From task records to a graph, and the `analyze` command on it.
 */
module BuildGraph {
  import opened Wrappers
  import opened Graphs
  import opened Sequences
  import opened TopoSort
  import opened CriticalPath
  import opened Affected

  /** One task line, split and trimmed; an empty dependency field is the empty list. */
  datatype Record = Record(name: string, duration: int, deps: seq<string>, line: nat)

  datatype ParseError =
    | NoTasks
    | InvalidIdentifier(line: nat, name: string)
    | InvalidDuration(line: nat)
    | DuplicateTask(line: nat, name: string)
    | EmptyDependency(line: nat)
    | InvalidDependency(line: nat, name: string)
    | SelfDependency(line: nat)
    | DuplicateDependency(line: nat, name: string)
    | UnknownDependency(line: nat, name: string)

  predicate IsAsciiAlpha(c: char) { 'A' <= c <= 'Z' || 'a' <= c <= 'z' }

  predicate IsAsciiDigit(c: char) { '0' <= c <= '9' }

  predicate IsIdentifier(s: string) {
    1 <= |s| <= 32 && IsAsciiAlpha(s[0]) &&
    forall i :: 1 <= i < |s| ==> IsAsciiAlpha(s[i]) || IsAsciiDigit(s[i]) || s[i] == '_' || s[i] == '-'
  }

  function Names(rs: seq<Record>): (names: seq<string>)
    ensures |names| == |rs| && forall i :: 0 <= i < |rs| ==> names[i] == rs[i].name
  {
    seq(|rs|, i requires 0 <= i < |rs| => rs[i].name)
  }

  function Durations(rs: seq<Record>): (ds: seq<int>)
    ensures |ds| == |rs| && forall i :: 0 <= i < |rs| ==> ds[i] == rs[i].duration
  {
    seq(|rs|, i requires 0 <= i < |rs| => rs[i].duration)
  }

  // ----- what is wrong with an input -----

  function TaskError(rs: seq<Record>, i: nat): Option<ParseError>
    requires i < |rs|
  {
    var r := rs[i];
    if !IsIdentifier(r.name) then Some(InvalidIdentifier(r.line, r.name))
    else if r.duration < 1 || r.duration > INT32_MAX then Some(InvalidDuration(r.line))
    else if r.name in Names(rs)[..i] then Some(DuplicateTask(r.line, r.name))
    else None
  }

  function DependencyError(rs: seq<Record>, i: nat, j: nat): Option<ParseError>
    requires i < |rs| && j < |rs[i].deps|
  {
    var r, d := rs[i], rs[i].deps[j];
    if d == "" then Some(EmptyDependency(r.line))
    else if !IsIdentifier(d) then Some(InvalidDependency(r.line, d))
    else if d == r.name then Some(SelfDependency(r.line))
    else if d in r.deps[..j] then Some(DuplicateDependency(r.line, d))
    else if d !in Names(rs) then Some(UnknownDependency(r.line, d))
    else None
  }

  ghost predicate TasksFine(rs: seq<Record>, upto: nat)
    requires upto <= |rs|
  {
    forall i :: 0 <= i < upto ==> TaskError(rs, i).None?
  }

  ghost predicate DependenciesFine(rs: seq<Record>, i: nat, upto: nat)
    requires i < |rs| && upto <= |rs[i].deps|
  {
    forall j :: 0 <= j < upto ==> DependencyError(rs, i, j).None?
  }

  ghost predicate RecordsFine(rs: seq<Record>, upto: nat)
    requires upto <= |rs|
  {
    forall i :: 0 <= i < upto ==> DependenciesFine(rs, i, |rs[i].deps|)
  }

  ghost predicate ValidRecords(rs: seq<Record>) {
    rs != [] && TasksFine(rs, |rs|) && RecordsFine(rs, |rs|)
  }

  /** The first error in the order of checking: tasks in source order, then
      dependency lists in source order. */
  ghost predicate FirstError(rs: seq<Record>, error: ParseError) {
    (exists i: nat :: i < |rs| && TasksFine(rs, i) && TaskError(rs, i) == Some(error)) ||
    (rs == [] && error == NoTasks) ||
    (TasksFine(rs, |rs|) && rs != [] &&
     exists i: nat, j: nat :: i < |rs| && j < |rs[i].deps| && RecordsFine(rs, i) &&
       DependenciesFine(rs, i, j) && DependencyError(rs, i, j) == Some(error))
  }

  // ----- validity, spelled out -----

  /** A letter, then at most 31 letters, digits, underscores and hyphens. */
  ghost predicate GoodName(s: string) {
    s != "" && |s| < 33 && ('A' <= s[0] <= 'Z' || 'a' <= s[0] <= 'z') &&
    forall i :: 0 <= i < |s| ==>
      'A' <= s[i] <= 'Z' || 'a' <= s[i] <= 'z' || '0' <= s[i] <= '9' || s[i] == '_' || s[i] == '-'
  }

  ghost predicate GoodTask(rs: seq<Record>, i: nat)
    requires i < |rs|
  {
    GoodName(rs[i].name) && 1 <= rs[i].duration <= 0x7fff_ffff && forall k :: 0 <= k < i ==> rs[k].name != rs[i].name
  }

  /** The name of another task that has not been listed yet. */
  ghost predicate GoodDependency(rs: seq<Record>, i: nat, j: nat)
    requires i < |rs| && j < |rs[i].deps|
  {
    var d := rs[i].deps[j];
    GoodName(d) && d != rs[i].name && (exists k :: 0 <= k < |rs| && rs[k].name == d) &&
    forall k :: 0 <= k < j ==> rs[i].deps[k] != d
  }

  ghost predicate Good(rs: seq<Record>) {
    rs != [] && (forall i :: 0 <= i < |rs| ==> GoodTask(rs, i)) &&
    forall i, j :: 0 <= i < |rs| && 0 <= j < |rs[i].deps| ==> GoodDependency(rs, i, j)
  }

  lemma GoodTaskMeans(rs: seq<Record>, i: nat)
    requires i < |rs|
    ensures TaskError(rs, i).None? <==> GoodTask(rs, i)
  {
    assert IsIdentifier(rs[i].name) <==> GoodName(rs[i].name);
    assert rs[i].name in Names(rs)[..i] <==> exists k :: 0 <= k < i && rs[k].name == rs[i].name by {
      forall k | 0 <= k < i ensures Names(rs)[..i][k] == rs[k].name { }
    }
  }

  lemma GoodDependencyMeans(rs: seq<Record>, i: nat, j: nat)
    requires i < |rs| && j < |rs[i].deps|
    ensures DependencyError(rs, i, j).None? <==> GoodDependency(rs, i, j)
  {
    var d := rs[i].deps[j];
    assert IsIdentifier(d) <==> GoodName(d);
    assert d in rs[i].deps[..j] <==> exists k :: 0 <= k < j && rs[i].deps[k] == d by {
      forall k | 0 <= k < j ensures rs[i].deps[..j][k] == rs[i].deps[k] { }
    }
    assert d in Names(rs) <==> exists k :: 0 <= k < |rs| && rs[k].name == d by {
      forall k | 0 <= k < |rs| ensures Names(rs)[k] == rs[k].name { }
    }
  }

  /** Valid records have good, distinct names, durations in range, and lists of distinct
      other tasks. */
  lemma ValidMeansGood(rs: seq<Record>)
    ensures ValidRecords(rs) <==> Good(rs)
  {
    forall i: nat | i < |rs| ensures TaskError(rs, i).None? <==> GoodTask(rs, i) { GoodTaskMeans(rs, i); }
    forall i: nat, j: nat | i < |rs| && j < |rs[i].deps|
      ensures DependencyError(rs, i, j).None? <==> GoodDependency(rs, i, j)
    {
      GoodDependencyMeans(rs, i, j);
    }
  }

  /** The error of a bad task: about its name, else its duration, else its repetition. */
  lemma TaskErrorKinds(rs: seq<Record>, i: nat)
    requires i < |rs| && !GoodTask(rs, i)
    ensures var r := rs[i];
            TaskError(rs, i) == Some(if !GoodName(r.name) then InvalidIdentifier(r.line, r.name)
                                     else if r.duration <= 0 || r.duration > 0x7fff_ffff then InvalidDuration(r.line)
                                     else DuplicateTask(r.line, r.name))
  {
    GoodTaskMeans(rs, i);
    assert IsIdentifier(rs[i].name) <==> GoodName(rs[i].name);
  }

  /** The error of a bad dependency: empty, else no name, else the task itself, else
      repeated, else unknown. */
  lemma DependencyErrorKinds(rs: seq<Record>, i: nat, j: nat)
    requires i < |rs| && j < |rs[i].deps| && !GoodDependency(rs, i, j)
    ensures var r, d := rs[i], rs[i].deps[j];
            DependencyError(rs, i, j) ==
            Some(if |d| == 0 then EmptyDependency(r.line)
                 else if !GoodName(d) then InvalidDependency(r.line, d)
                 else if d == r.name then SelfDependency(r.line)
                 else if exists k :: 0 <= k < j && r.deps[k] == d then DuplicateDependency(r.line, d)
                 else UnknownDependency(r.line, d))
  {
    GoodDependencyMeans(rs, i, j);
    var d := rs[i].deps[j];
    assert IsIdentifier(d) <==> GoodName(d);
    forall k | 0 <= k < j ensures rs[i].deps[..j][k] == rs[i].deps[k] { }
  }

  // ----- counting in-degrees -----

  function CountOf(to: seq<nat>, v: nat): nat {
    if to == [] then 0 else CountOf(to[..|to| - 1], v) + if to[|to| - 1] == v then 1 else 0
  }

  lemma CountAppend(to: seq<nat>, x: nat, v: nat)
    ensures CountOf(to + [x], v) == CountOf(to, v) + if x == v then 1 else 0
  {
    assert (to + [x])[..|to|] == to;
  }

  lemma {:induction false} CountIsPending(g: Graph, v: nat, hi: nat)
    requires hi <= |g.edgeFrom| && |g.edgeFrom| == |g.edgeTo|
    ensures Pending(g, v, {}, 0, hi) == CountOf(g.edgeTo[..hi], v)
  {
    if hi > 0 {
      CountIsPending(g, v, hi - 1);
      PendingLast(g, v, {}, 0, hi - 1);
      assert g.edgeTo[..hi] == g.edgeTo[..hi - 1] + [g.edgeTo[hi - 1]];
      CountAppend(g.edgeTo[..hi - 1], g.edgeTo[hi - 1], v);
    }
  }

  // ----- building -----

  /** The edges gathered so far are those of the first `i` records and of the first `j`
      dependencies of record `i`. */
  ghost predicate EdgesOf(rs: seq<Record>, from: seq<nat>, to: seq<nat>, i: nat, j: nat)
    requires i <= |rs| && (i < |rs| ==> j <= |rs[i].deps|)
  {
    |from| == |to| &&
    (forall e :: 0 <= e < |from| ==> from[e] < |rs| && to[e] < |rs|) &&
    (forall e :: 0 <= e < |from| ==>
       (to[e] < i && rs[from[e]].name in rs[to[e]].deps) ||
       (to[e] == i < |rs| && rs[from[e]].name in rs[i].deps[..j])) &&
    (forall a, b :: 0 <= a < |rs| && 0 <= b < i && rs[a].name in rs[b].deps ==> HasEdge(from, to, a, b)) &&
    (i < |rs| ==> forall a :: 0 <= a < |rs| && rs[a].name in rs[i].deps[..j] ==> HasEdge(from, to, a, i))
  }

  ghost predicate HasEdge(from: seq<nat>, to: seq<nat>, a: nat, b: nat) {
    exists e :: 0 <= e < |from| && e < |to| && from[e] == a && to[e] == b
  }

  ghost predicate IndexesOf(rs: seq<Record>, indexes: map<string, nat>, upto: nat)
    requires upto <= |rs|
  {
    (forall s :: s in indexes ==> indexes[s] < upto && rs[indexes[s]].name == s) &&
    (forall t :: 0 <= t < upto ==> rs[t].name in indexes && indexes[rs[t].name] == t)
  }

  /** The first pass: one task per record. */
  method IndexTasks(rs: seq<Record>) returns (r: Result<map<string, nat>, ParseError>)
    ensures r.Err? ==> exists i: nat :: i < |rs| && TasksFine(rs, i) && TaskError(rs, i) == Some(r.error)
    ensures r.Ok? ==> TasksFine(rs, |rs|) && IndexesOf(rs, r.value, |rs|)
  {
    var indexes: map<string, nat> := map[];
    for i := 0 to |rs|
      invariant TasksFine(rs, i) && IndexesOf(rs, indexes, i)
    {
      var task := rs[i];
      assert task.name in indexes <==> task.name in Names(rs)[..i] by {
        if task.name in Names(rs)[..i] {
          var k :| 0 <= k < i && Names(rs)[..i][k] == task.name;
          assert rs[k].name == task.name;
        }
        if task.name in indexes { assert Names(rs)[..i][indexes[task.name]] == task.name; }
      }
      if !IsIdentifier(task.name) { return Err(InvalidIdentifier(task.line, task.name)); }
      if task.duration < 1 || task.duration > INT32_MAX { return Err(InvalidDuration(task.line)); }
      if task.name in indexes { return Err(DuplicateTask(task.line, task.name)); }
      indexes := indexes[task.name := i];
    }
    return Ok(indexes);
  }

  /** The checks on one dependency of record `i`, in the order of the source. */
  method CheckDependency(rs: seq<Record>, indexes: map<string, nat>, seen: set<string>, i: nat, j: nat)
    returns (error: Option<ParseError>)
    requires i < |rs| && j < |rs[i].deps| && IndexesOf(rs, indexes, |rs|)
    requires seen == Elements(rs[i].deps[..j])
    ensures error == DependencyError(rs, i, j)
    ensures error.None? ==> rs[i].deps[j] in indexes
  {
    var task, d := rs[i], rs[i].deps[j];
    assert d in seen <==> d in task.deps[..j];
    assert d in indexes <==> d in Names(rs) by {
      if d in indexes { assert Names(rs)[indexes[d]] == d; }
    }
    if d == "" { return Some(EmptyDependency(task.line)); }
    if !IsIdentifier(d) { return Some(InvalidDependency(task.line, d)); }
    if d == task.name { return Some(SelfDependency(task.line)); }
    if d in seen { return Some(DuplicateDependency(task.line, d)); }
    if d !in indexes { return Some(UnknownDependency(task.line, d)); }
    return None;
  }

  ghost predicate Counted(indegree: seq<int>, to: seq<nat>, n: nat) {
    |indegree| == n && forall t :: 0 <= t < n ==> indegree[t] == CountOf(to, t)
  }

  lemma CountedStep(indegree: seq<int>, to: seq<nat>, n: nat, i: nat)
    requires Counted(indegree, to, n) && i < n
    ensures Counted(indegree[i := indegree[i] + 1], to + [i], n)
  {
    forall t: nat | t < n ensures CountOf(to + [i], t) == CountOf(to, t) + if i == t then 1 else 0 {
      CountAppend(to, i, t);
    }
  }

  lemma TakeDependency(deps: seq<string>, j: nat)
    requires j < |deps|
    ensures Elements(deps[..j + 1]) == Elements(deps[..j]) + {deps[j]}
  {
    assert deps[..j + 1] == deps[..j] + [deps[j]];
  }

  /** The edges of one record. */
  method LinkTask(rs: seq<Record>, indexes: map<string, nat>, i: nat, from0: seq<nat>, to0: seq<nat>,
                  indegree: array<int>)
    returns (r: Result<(seq<nat>, seq<nat>), ParseError>)
    requires i < |rs| && IndexesOf(rs, indexes, |rs|)
    requires EdgesOf(rs, from0, to0, i, 0) && Counted(indegree[..], to0, |rs|)
    modifies indegree
    ensures r.Err? ==>
              exists j: nat :: j < |rs[i].deps| && DependenciesFine(rs, i, j) &&
                               DependencyError(rs, i, j) == Some(r.error)
    ensures r.Ok? ==>
              DependenciesFine(rs, i, |rs[i].deps|) && EdgesOf(rs, r.value.0, r.value.1, i + 1, 0) &&
              Counted(indegree[..], r.value.1, |rs|)
  {
    var task := rs[i];
    var from, to := from0, to0;
    var seen: set<string> := {};
    for j := 0 to |task.deps|
      invariant DependenciesFine(rs, i, j) && EdgesOf(rs, from, to, i, j)
      invariant seen == Elements(task.deps[..j])
      invariant Counted(indegree[..], to, |rs|)
    {
      var d := task.deps[j];
      var error := CheckDependency(rs, indexes, seen, i, j);
      if error.Some? { return Err(error.value); }
      seen := seen + {d};
      TakeDependency(task.deps, j);
      var from', to' := from + [indexes[d]], to + [i];
      assert EdgesOf(rs, from', to', i, j + 1) by { EdgesGrow(rs, indexes, from, to, i, j); }
      ghost var counts := indegree[..];
      assert Counted(counts[i := counts[i] + 1], to', |rs|) by { CountedStep(counts, to, |rs|, i); }
      from, to := from', to';
      indegree[i] := indegree[i] + 1;
      assert indegree[..] == counts[i := counts[i] + 1];
    }
    EdgesNext(rs, from, to, i);
    return Ok((from, to));
  }

  /** The second pass: one edge per dependency, counting in-degrees. */
  method LinkTasks(rs: seq<Record>, indexes: map<string, nat>)
    returns (r: Result<(seq<nat>, seq<nat>, seq<int>), ParseError>)
    requires IndexesOf(rs, indexes, |rs|)
    ensures r.Err? ==>
              exists i: nat, j: nat :: i < |rs| && j < |rs[i].deps| && RecordsFine(rs, i) &&
                DependenciesFine(rs, i, j) && DependencyError(rs, i, j) == Some(r.error)
    ensures r.Ok? ==>
              RecordsFine(rs, |rs|) && EdgesOf(rs, r.value.0, r.value.1, |rs|, 0) &&
              Counted(r.value.2, r.value.1, |rs|)
  {
    var from: seq<nat>, to: seq<nat> := [], [];
    var indegree := new int[|rs|](_ => 0);
    for i := 0 to |rs|
      invariant RecordsFine(rs, i) && EdgesOf(rs, from, to, i, 0)
      invariant Counted(indegree[..], to, |rs|)
    {
      var linked := LinkTask(rs, indexes, i, from, to, indegree);
      if linked.Err? { return Err(linked.error); }
      from, to := linked.value.0, linked.value.1;
    }
    return Ok((from, to, indegree[..]));
  }

  lemma EdgesGrow(rs: seq<Record>, indexes: map<string, nat>, from: seq<nat>, to: seq<nat>, i: nat, j: nat)
    requires i < |rs| && j < |rs[i].deps| && IndexesOf(rs, indexes, |rs|)
    requires EdgesOf(rs, from, to, i, j) && rs[i].deps[j] in indexes
    ensures EdgesOf(rs, from + [indexes[rs[i].deps[j]]], to + [i], i, j + 1)
  {
    var d := rs[i].deps[j];
    var from', to' := from + [indexes[d]], to + [i];
    assert rs[i].deps[..j + 1] == rs[i].deps[..j] + [d];
    forall a, b | 0 <= a < |rs| && 0 <= b < |rs| && HasEdge(from, to, a, b) ensures HasEdge(from', to', a, b) {
      var e :| 0 <= e < |from| && from[e] == a && to[e] == b;
      assert from'[e] == a && to'[e] == b;
    }
    assert from'[|from|] == indexes[d] && to'[|from|] == i;
    assert HasEdge(from', to', indexes[d], i);
  }

  lemma EdgesNext(rs: seq<Record>, from: seq<nat>, to: seq<nat>, i: nat)
    requires i < |rs| && EdgesOf(rs, from, to, i, |rs[i].deps|)
    ensures EdgesOf(rs, from, to, i + 1, 0)
  {
    assert rs[i].deps[..|rs[i].deps|] == rs[i].deps;
  }

  /** Building succeeds exactly on valid records, reports the first error otherwise, and
      yields a well-formed graph whose edges are the declared dependencies. */
  method ParseGraph(rs: seq<Record>) returns (r: Result<Graph, ParseError>)
    requires |rs| <= INT32_MAX
    ensures r.Ok? <==> ValidRecords(rs)
    ensures r.Ok? <==> Good(rs)
    ensures r.Err? ==> FirstError(rs, r.error)
    ensures r.Ok? ==>
              var g := r.value;
              WellFormed(g) && g.names == Names(rs) && g.durations == Durations(rs) &&
              forall a: nat, b: nat :: Edge(g, a, b) <==> a < |rs| && b < |rs| && rs[a].name in rs[b].deps
  {
    ValidMeansGood(rs);
    var tasks := IndexTasks(rs);
    if tasks.Err? { return Err(tasks.error); }
    if rs == [] { return Err(NoTasks); }
    var edges := LinkTasks(rs, tasks.value);
    if edges.Err? { return Err(edges.error); }
    var g := Graph(Names(rs), Durations(rs), edges.value.0, edges.value.1, edges.value.2, tasks.value);
    forall t | 0 <= t < |rs| ensures g.indegree[t] == Pending(g, t, {}, 0, |g.edgeFrom|) {
      CountIsPending(g, t, |g.edgeFrom|);
      assert g.edgeTo[..|g.edgeFrom|] == g.edgeTo;
    }
    forall t | 0 <= t < |rs| ensures 1 <= g.durations[t] <= INT32_MAX {
      assert TaskError(rs, t).None?;
    }
    forall a: nat, b: nat ensures Edge(g, a, b) <==> a < |rs| && b < |rs| && rs[a].name in rs[b].deps {
      if a < |rs| && b < |rs| && rs[a].name in rs[b].deps { assert HasEdge(g.edgeFrom, g.edgeTo, a, b); }
    }
    return Ok(g);
  }

  /** `analyze`: a cyclic graph is the only error; overflow cannot happen. */
  method Analyze(g: Graph) returns (r: Result<(seq<nat>, int, seq<nat>), InputError>)
    requires WellFormed(g)
    ensures r.Err? <==> Cyclic(g)
    ensures r.Err? ==> r.error == CycleDetected
    ensures r.Ok? ==> StableOrder(g, r.value.0) && Critical(g, r.value.2) && r.value.1 == Cost(g, r.value.2)
  {
    var order := StableTopologicalOrder(g);
    if order.None? { return Err(CycleDetected); }
    var path := FindCriticalPath(g, order.value);
    return Ok((order.value, path.value.0, path.value.1));
  }
}
