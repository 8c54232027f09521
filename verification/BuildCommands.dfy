/**
 The two commands of the BuildGraph tool, from task records to what is reported, with
 the report described in terms of the records alone.
 */
module BuildCommands {
  import opened Wrappers
  import opened Graphs
  import opened CriticalPath
  import opened BuildGraph
  import Affected

  datatype CommandError = BadInput(parse: ParseError) | BadGraph(graph: InputError)

  // ----- reports in terms of records -----

  ghost predicate DependsOn(rs: seq<Record>, b: nat, a: nat) {
    a < |rs| && b < |rs| && rs[a].name in rs[b].deps
  }

  /** Records, each of which depends on the one before it. */
  ghost predicate Chain(rs: seq<Record>, p: seq<nat>) {
    p != [] && (forall i :: 0 <= i < |p| ==> p[i] < |rs|) &&
    forall i :: 0 <= i < |p| - 1 ==> DependsOn(rs, p[i + 1], p[i])
  }

  ghost predicate Ring(rs: seq<Record>, p: seq<nat>) { Chain(rs, p) && |p| > 1 && p[0] == p[|p| - 1] }

  ghost function Total(rs: seq<Record>, p: seq<nat>): int
    requires forall i :: 0 <= i < |p| ==> p[i] < |rs|
  {
    if p == [] then 0 else rs[p[0]].duration + Total(rs, p[1..])
  }

  /** Every record once, and after everything it depends on. */
  ghost predicate Schedule(rs: seq<Record>, o: seq<nat>) {
    |o| == |rs| && (forall i :: 0 <= i < |o| ==> o[i] < |rs|) &&
    (forall i, j :: 0 <= i < j < |o| ==> o[i] != o[j]) &&
    forall i, j :: 0 <= i < |o| && 0 <= j < |o| && DependsOn(rs, o[j], o[i]) ==> i < j
  }

  /** Dictionary order. */
  ghost predicate Earlier(a: seq<nat>, b: seq<nat>) {
    b != [] && (a == [] || a[0] < b[0] || (a[0] == b[0] && Earlier(a[1..], b[1..])))
  }

  ghost predicate FirstSchedule(rs: seq<Record>, o: seq<nat>) {
    Schedule(rs, o) && forall other :: Schedule(rs, other) ==> other == o || Earlier(o, other)
  }

  /** No chain takes longer, and of those that take as long it is the first. */
  ghost predicate LongestChain(rs: seq<Record>, p: seq<nat>) {
    Chain(rs, p) && forall q :: Chain(rs, q) ==>
      Total(rs, q) < Total(rs, p) || (Total(rs, q) == Total(rs, p) && (q == p || Earlier(p, q)))
  }

  // ----- the graph stands for the records -----

  ghost predicate Represents(g: Graph, rs: seq<Record>) {
    WellFormed(g) && g.names == Names(rs) && g.durations == Durations(rs) &&
    forall a: nat, b: nat :: Edge(g, a, b) <==> DependsOn(rs, b, a)
  }

  lemma ChainIsWalk(g: Graph, rs: seq<Record>, p: seq<nat>)
    requires Represents(g, rs)
    ensures Chain(rs, p) <==> IsWalk(g, p)
  {
  }

  lemma RingIsCycle(g: Graph, rs: seq<Record>)
    requires Represents(g, rs)
    ensures (exists p :: Ring(rs, p)) <==> Cyclic(g)
  {
    forall p ensures Ring(rs, p) <==> IsCycle(g, p) { ChainIsWalk(g, rs, p); }
  }

  lemma {:induction false} TotalSnoc(rs: seq<Record>, p: seq<nat>, t: nat)
    requires t < |rs| && forall i :: 0 <= i < |p| ==> p[i] < |rs|
    ensures Total(rs, p + [t]) == Total(rs, p) + rs[t].duration
  {
    if p == [] {
      assert [t][1..] == [] && p + [t] == [t];
    } else {
      assert (p + [t])[1..] == p[1..] + [t];
      TotalSnoc(rs, p[1..], t);
    }
  }

  lemma {:induction false} TotalIsCost(g: Graph, rs: seq<Record>, p: seq<nat>)
    requires Represents(g, rs) && Below(p, |rs|)
    ensures Total(rs, p) == Cost(g, p)
  {
    if p != [] {
      var front, t := p[..|p| - 1], p[|p| - 1];
      TotalIsCost(g, rs, front);
      assert front + [t] == p;
      TotalSnoc(rs, front, t);
    }
  }

  lemma {:induction false} EarlierIsLexLess(a: seq<nat>, b: seq<nat>)
    ensures Earlier(a, b) <==> LexLess(a, b)
  {
    if b != [] && (a == [] || a[0] < b[0]) {
      assert DiffersAt(a, b, 0);
    } else if a != [] && b != [] && a[0] == b[0] {
      EarlierIsLexLess(a[1..], b[1..]);
      assert a == [a[0]] + a[1..] && b == [a[0]] + b[1..];
      if Earlier(a, b) { LexCons(a[0], a[1..], b[1..]); }
      if LexLess(a, b) {
        var i: nat :| DiffersAt(a, b, i);
        TailDiffers(a, b, i);
      }
    }
  }

  lemma TailDiffers(a: seq<nat>, b: seq<nat>, i: nat)
    requires DiffersAt(a, b, i) && a != [] && b != [] && a[0] == b[0]
    ensures LexLess(a[1..], b[1..])
  {
    assert i > 0 && a[1..][..i - 1] == a[..i][1..] && b[1..][..i - 1] == b[..i][1..];
    assert DiffersAt(a[1..], b[1..], i - 1);
  }

  lemma ScheduleIsTopological(g: Graph, rs: seq<Record>, o: seq<nat>)
    requires Represents(g, rs)
    ensures Schedule(rs, o) <==> IsTopological(g, o)
  {
  }

  lemma StableIsFirst(g: Graph, rs: seq<Record>, o: seq<nat>)
    requires Represents(g, rs) && Affected.StableOrder(g, o)
    ensures FirstSchedule(rs, o)
  {
    ScheduleIsTopological(g, rs, o);
    forall other | Schedule(rs, other) ensures other == o || Earlier(o, other) {
      ScheduleIsTopological(g, rs, other);
      EarlierIsLexLess(o, other);
    }
  }

  lemma CriticalIsLongest(g: Graph, rs: seq<Record>, p: seq<nat>)
    requires Represents(g, rs) && Critical(g, p)
    ensures LongestChain(rs, p)
  {
    ChainIsWalk(g, rs, p);
    TotalIsCost(g, rs, p);
    forall q | Chain(rs, q)
      ensures Total(rs, q) < Total(rs, p) || (Total(rs, q) == Total(rs, p) && (q == p || Earlier(p, q)))
    {
      ChainIsWalk(g, rs, q);
      TotalIsCost(g, rs, q);
      EarlierIsLexLess(p, q);
      assert NoWorse(g, p, q);
    }
  }

  // ----- the commands -----

  /** `analyze`: order, duration and critical path, or what is wrong with the input. */
  method AnalyzeRecords(rs: seq<Record>) returns (r: Result<(seq<nat>, int, seq<nat>), CommandError>)
    requires |rs| <= 0x7fff_ffff
    ensures r.Ok? <==> Good(rs) && forall p :: !Ring(rs, p)
    ensures r.Err? ==> r.error.BadInput? != Good(rs)
    ensures r.Err? && Good(rs) ==> r.error == BadGraph(CycleDetected)
    ensures r.Ok? ==>
              FirstSchedule(rs, r.value.0) && LongestChain(rs, r.value.2) && r.value.1 == Total(rs, r.value.2)
  {
    var parsed := ParseGraph(rs);
    if parsed.Err? { return Err(BadInput(parsed.error)); }
    var g := parsed.value;
    assert Represents(g, rs);
    RingIsCycle(g, rs);
    var report := Analyze(g);
    if report.Err? { return Err(BadGraph(report.error)); }
    StableIsFirst(g, rs, report.value.0);
    CriticalIsLongest(g, rs, report.value.2);
    TotalIsCost(g, rs, report.value.2);
    return Ok(report.value);
  }

  /** A chain leads from the record of this name to `t`. */
  ghost predicate Affects(rs: seq<Record>, name: string, t: nat) {
    exists p :: Chain(rs, p) && rs[p[0]].name == name && p[|p| - 1] == t
  }

  lemma AffectsIsReachable(g: Graph, rs: seq<Record>, query: nat, t: nat)
    requires Represents(g, rs) && query < |rs|
    ensures Affects(rs, rs[query].name, t) <==> Affected.Reachable(g, query, t)
  {
    forall p ensures Chain(rs, p) <==> IsWalk(g, p) { ChainIsWalk(g, rs, p); }
    if Affects(rs, rs[query].name, t) {
      var p :| Chain(rs, p) && rs[p[0]].name == rs[query].name && p[|p| - 1] == t;
      assert g.names[p[0]] == g.names[query];
      assert g.indexes[g.names[p[0]]] == p[0] && g.indexes[g.names[query]] == query;
      assert Affected.Connects(g, query, t, p);
    }
    if Affected.Reachable(g, query, t) {
      var p :| Affected.Connects(g, query, t, p);
      assert Chain(rs, p) && rs[p[0]].name == rs[query].name;
    }
  }

  /** `affected`: what a change of the named task reaches, in the order of `analyze`. */
  method AffectedRecords(rs: seq<Record>, name: string) returns (r: Result<seq<nat>, CommandError>)
    requires |rs| <= 0x7fff_ffff
    ensures r.Err? && r.error.BadInput? <==> !Good(rs)
    ensures r == Err(BadGraph(UnknownTask(name))) <==> Good(rs) && forall t :: 0 <= t < |rs| ==> rs[t].name != name
    ensures r == Err(BadGraph(CycleDetected)) <==>
            Good(rs) && (exists t :: 0 <= t < |rs| && rs[t].name == name) && exists p :: Ring(rs, p)
    ensures r.Ok? <==>
            Good(rs) && (exists t :: 0 <= t < |rs| && rs[t].name == name) && forall p :: !Ring(rs, p)
    ensures r.Ok? ==>
              (forall t: nat :: t in r.value <==> Affects(rs, name, t)) &&
              exists order :: FirstSchedule(rs, order) && Affected.Subsequence(r.value, order)
  {
    var parsed := ParseGraph(rs);
    if parsed.Err? { return Err(BadInput(parsed.error)); }
    var g := parsed.value;
    assert Represents(g, rs);
    RingIsCycle(g, rs);
    assert name in g.names <==> exists t :: 0 <= t < |rs| && rs[t].name == name by {
      forall t | 0 <= t < |rs| ensures g.names[t] == rs[t].name { }
    }
    var report := Affected.AffectedTasks(g, name);
    if report.Err? { return Err(BadGraph(report.error)); }
    ghost var query: nat, order :|
      query < Size(g) && g.names[query] == name && Affected.StableOrder(g, order) &&
      Affected.ListsReachable(g, query, order, report.value);
    StableIsFirst(g, rs, order);
    forall t: nat ensures t in report.value <==> Affects(rs, name, t) { AffectsIsReachable(g, rs, query, t); }
    return Ok(report.value);
  }
}
