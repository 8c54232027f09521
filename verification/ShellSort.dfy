/**
 The runtime's in-place shell sort, for any comparator that is a total preorder, and the
 comparators it is used with.
 */
module ShellSort {

  // ----- orders -----

  predicate Leq<T>(cmp: (T, T) -> int, x: T, y: T) { cmp(x, y) <= 0 }

  /** A three-way comparison consistent with some total preorder. */
  ghost predicate TotalPreorder<T(!new)>(cmp: (T, T) -> int) {
    (forall x :: cmp(x, x) == 0) &&
    (forall x, y :: Leq(cmp, x, y) <==> cmp(y, x) >= 0) &&
    forall x, y, z :: Leq(cmp, x, y) && Leq(cmp, y, z) ==> Leq(cmp, x, z)
  }

  ghost predicate Sorted<T(!new)>(s: seq<T>, cmp: (T, T) -> int) {
    forall i, j :: 0 <= i < j < |s| ==> Leq(cmp, s[i], s[j])
  }

  /** Elements `gap` apart are in order among the first `n`. */
  ghost predicate GapSorted<T(!new)>(s: seq<T>, gap: int, n: int, cmp: (T, T) -> int)
    requires n <= |s| && gap > 0
  {
    forall k :: gap <= k < n ==> Leq(cmp, s[k - gap], s[k])
  }

  lemma {:induction false} NeighboursSuffice<T(!new)>(s: seq<T>, n: nat, i: nat, j: nat, cmp: (T, T) -> int)
    requires n <= |s| && GapSorted(s, 1, n, cmp) && TotalPreorder(cmp) && i < j < n
    ensures Leq(cmp, s[i], s[j])
    decreases j - i
  {
    assert Leq(cmp, s[j - 1], s[j]);
    if i < j - 1 { NeighboursSuffice(s, n, i, j - 1, cmp); }
  }

  lemma GapOneSorts<T(!new)>(s: seq<T>, n: nat, cmp: (T, T) -> int)
    requires n <= |s| && GapSorted(s, 1, n, cmp) && TotalPreorder(cmp)
    ensures Sorted(s[..n], cmp)
  {
    forall i, j | 0 <= i < j < n ensures Leq(cmp, s[i], s[j]) { NeighboursSuffice(s, n, i, j, cmp); }
  }

  // ----- the sort -----

  /** Writing `v` into the hole is a permutation of the original. */
  ghost predicate Fills<T(!new)>(s: seq<T>, hole: nat, v: T, original: seq<T>)
    requires hole < |s|
  {
    |s| == |original| && multiset(s[hole := v]) == multiset(original)
  }

  lemma MoveHole<T(!new)>(s: seq<T>, hole: nat, from: nat, v: T, original: seq<T>)
    requires hole < |s| && from < |s| && from != hole && Fills(s, hole, v, original)
    ensures Fills(s[hole := s[from]], from, v, original)
  {
    var t := s[hole := v];
    assert s[hole := s[from]][from := v] == t[hole := t[from]][from := t[hole]];
  }

  /** Element `i` is being inserted: the chain below it is in order, the hole is at `j`,
      and everything shifted past the hole is at least `v`. */
  ghost predicate Inserting<T(!new)>(s: seq<T>, gap: nat, i: nat, j: nat, v: T, original: seq<T>, cmp: (T, T) -> int) {
    0 < gap <= i < |s| && j <= i && Fills(s, j, v, original) && s[i + 1..] == original[i + 1..] &&
    GapSorted(s, gap, if j < i then i + 1 else i, cmp) &&
    (j < i ==> j + gap <= i && Leq(cmp, v, s[j + gap]))
  }

  lemma InsertStart<T(!new)>(s: seq<T>, gap: nat, i: nat, cmp: (T, T) -> int)
    requires 0 < gap <= i < |s| && GapSorted(s, gap, i, cmp)
    ensures Inserting(s, gap, i, i, s[i], s, cmp)
  {
    assert s[i := s[i]] == s;
  }

  /** Copying the chain's next element into the hole keeps the chain in order. */
  lemma InsertShift<T(!new)>(s: seq<T>, gap: nat, i: nat, j: nat, v: T, original: seq<T>, cmp: (T, T) -> int)
    requires TotalPreorder(cmp) && Inserting(s, gap, i, j, v, original, cmp)
    requires j >= gap && !Leq(cmp, s[j - gap], v)
    ensures Inserting(s[j := s[j - gap]], gap, i, j - gap, v, original, cmp)
  {
    MoveHole(s, j, j - gap, v, original);
    ShiftKeepsOrder(s, gap, i, j, cmp);
    assert s[j := s[j - gap]][i + 1..] == s[i + 1..];
  }

  lemma ShiftKeepsOrder<T(!new)>(s: seq<T>, gap: nat, i: nat, j: nat, cmp: (T, T) -> int)
    requires TotalPreorder(cmp) && 0 < gap <= j <= i < |s| && (j < i ==> j + gap <= i)
    requires GapSorted(s, gap, if j < i then i + 1 else i, cmp)
    ensures GapSorted(s[j := s[j - gap]], gap, i + 1, cmp)
  {
    if j < i {
      assert Leq(cmp, s[j - gap], s[j]);
      assert Leq(cmp, s[j + gap - gap], s[j + gap]);
    }
  }

  lemma InsertEnd<T(!new)>(s: seq<T>, gap: nat, i: nat, j: nat, v: T, original: seq<T>, cmp: (T, T) -> int)
    requires Inserting(s, gap, i, j, v, original, cmp)
    requires j >= gap ==> Leq(cmp, s[j - gap], v)
    ensures var s' := s[j := v];
            multiset(s') == multiset(original) && s'[i + 1..] == original[i + 1..] && GapSorted(s', gap, i + 1, cmp)
  {
    assert s[j := v][i + 1..] == s[i + 1..];
  }

  /** The result of shifting the larger elements of the gap chain up, from a hole at `j`,
      and dropping `v` where the chain has an element no larger. */
  ghost function Inserted<T>(s: seq<T>, gap: nat, j: nat, v: T, cmp: (T, T) -> int): seq<T>
    requires gap > 0 && j < |s|
    decreases j
  {
    if j >= gap && cmp(s[j - gap], v) > 0 then Inserted(s[j := s[j - gap]], gap, j - gap, v, cmp) else s[j := v]
  }

  lemma {:induction false} InsertedKeepsOrder<T(!new)>(
      s: seq<T>, gap: nat, i: nat, j: nat, v: T, original: seq<T>, cmp: (T, T) -> int)
    requires TotalPreorder(cmp) && Inserting(s, gap, i, j, v, original, cmp)
    ensures var r := Inserted(s, gap, j, v, cmp);
            |r| == |s| && multiset(r) == multiset(original) && r[i + 1..] == original[i + 1..] &&
            GapSorted(r, gap, i + 1, cmp)
    decreases j
  {
    if j >= gap && cmp(s[j - gap], v) > 0 {
      var s' := s[j := s[j - gap]];
      assert Inserting(s', gap, i, j - gap, v, original, cmp) by { InsertShift(s, gap, i, j, v, original, cmp); }
      InsertedKeepsOrder(s', gap, i, j - gap, v, original, cmp);
    } else {
      InsertEnd(s, gap, i, j, v, original, cmp);
    }
  }

  /** Shift the larger elements of the gap chain up, then drop element `i` into the hole. */
  method InsertAt<T(!new)>(a: array<T>, gap: nat, i: nat, cmp: (T, T) -> int)
    requires 0 < gap <= i < a.Length
    modifies a
    ensures a[..] == old(Inserted(a[..], gap, i, a[i], cmp))
  {
    var value := a[i];
    var j: nat := i;
    while j >= gap && cmp(a[j - gap], value) > 0
      invariant j <= i && Inserted(a[..], gap, j, value, cmp) == old(Inserted(a[..], gap, i, a[i], cmp))
      decreases j
    {
      ghost var s := a[..];
      a[j] := a[j - gap];
      assert a[..] == s[j := s[j - gap]];
      j := j - gap;
    }
    ghost var s := a[..];
    a[j] := value;
    assert a[..] == s[j := value];
  }

  /** One pass: a gapped insertion sort of the first `n` elements. */
  method GapPass<T(!new)>(a: array<T>, n: nat, gap: nat, cmp: (T, T) -> int)
    requires TotalPreorder(cmp) && n <= a.Length && gap > 0
    modifies a
    ensures multiset(a[..]) == multiset(old(a[..])) && a[n..] == old(a[n..])
    ensures GapSorted(a[..], gap, n, cmp)
  {
    var i := gap;
    while i < n
      invariant gap <= i && GapSorted(a[..], gap, if i < n then i else n, cmp)
      invariant multiset(a[..]) == multiset(old(a[..])) && a[n..] == old(a[n..])
    {
      ghost var before := a[..];
      InsertStart(before, gap, i, cmp);
      InsertedKeepsOrder(before, gap, i, i, before[i], before, cmp);
      InsertAt(a, gap, i, cmp);
      assert a[n..] == a[i + 1..][n - i - 1..];
      i := i + 1;
    }
  }

  /** Sorts the first `n` elements, permuting nothing else. */
  method Sort<T(!new)>(a: array<T>, n: nat, cmp: (T, T) -> int)
    requires TotalPreorder(cmp) && n <= a.Length
    modifies a
    ensures Sorted(a[..n], cmp) && multiset(a[..n]) == multiset(old(a[..n])) && a[n..] == old(a[n..])
  {
    ghost var original := a[..];
    var gap := n / 2;
    while gap > 0
      invariant multiset(a[..]) == multiset(original) && a[n..] == original[n..]
      invariant n < 2 || gap > 0 || GapSorted(a[..], 1, n, cmp)
    {
      GapPass(a, n, gap, cmp);
      gap := gap / 2;
    }
    if n >= 2 { GapOneSorts(a[..], n, cmp); }
    FrontPermuted(a[..], original, n);
    assert a[..][..n] == a[..n] && original[..n] == old(a[..n]);
  }

  lemma FrontPermuted<T>(s: seq<T>, t: seq<T>, n: nat)
    requires n <= |s| && n <= |t| && multiset(s) == multiset(t) && s[n..] == t[n..]
    ensures multiset(s[..n]) == multiset(t[..n])
  {
    assert s == s[..n] + s[n..] && t == t[..n] + t[n..];
    assert multiset(s[..n]) == multiset(s) - multiset(s[n..]);
  }

  // ----- the comparators -----

  /** The comparator for bool, i32 and i64 elements. */
  function CompareInt(x: int, y: int): int {
    if x < y then -1 else if x > y then 1 else 0
  }

  lemma IntOrder()
    ensures TotalPreorder(CompareInt)
  {
  }

  /** Sorting numbers puts them in ascending order. */
  method SortInt(a: array<int>, n: nat)
    requires n <= a.Length
    modifies a
    ensures multiset(a[..n]) == multiset(old(a[..n])) && a[n..] == old(a[n..])
    ensures forall i, j :: 0 <= i < j < n ==> a[i] <= a[j]
  {
    IntOrder();
    Sort(a, n, CompareInt);
    forall i, j | 0 <= i < j < n ensures a[i] <= a[j] {
      assert Leq(CompareInt, a[..n][i], a[..n][j]);
    }
  }

  /** Doubles as far as `<` can tell them apart: the two zeros are one value. */
  datatype F64 = NaN | NegInf | Finite(value: real) | PosInf

  /** The IEEE comparison: false whenever an operand is not a number. */
  predicate Less(x: F64, y: F64) {
    match (x, y)
    case (Finite(u), Finite(v)) => u < v
    case (NegInf, Finite(_)) => true
    case (NegInf, PosInf) => true
    case (Finite(_), PosInf) => true
    case _ => false
  }

  function CompareF64(x: F64, y: F64): int {
    var xNan, yNan := x.NaN?, y.NaN?;
    if xNan && yNan then 0
    else if xNan then 1
    else if yNan then -1
    else if Less(x, y) then -1 else if Less(y, x) then 1 else 0
  }

  lemma F64Order()
    ensures TotalPreorder(CompareF64)
  {
  }

  /** Sorting doubles puts the NaNs last. */
  method SortF64(a: array<F64>, n: nat)
    requires n <= a.Length
    modifies a
    ensures Sorted(a[..n], CompareF64) && multiset(a[..n]) == multiset(old(a[..n])) && a[n..] == old(a[n..])
    ensures forall i, j :: 0 <= i < j < n && a[i].NaN? ==> a[j].NaN?
    ensures forall i, j :: 0 <= i < j < n ==> !Less(a[j], a[i])
    ensures forall i, j :: 0 <= i < j < n && a[i].Finite? && a[j].Finite? ==> a[i].value <= a[j].value
    ensures forall i, j :: 0 <= i < j < n ==> (a[j].NegInf? ==> a[i].NegInf?) && (a[i].PosInf? ==> !a[j].Finite?)
  {
    F64Order();
    Sort(a, n, CompareF64);
    forall i, j | 0 <= i < j < n ensures Leq(CompareF64, a[i], a[j]) {
      assert Leq(CompareF64, a[..n][i], a[..n][j]);
    }
  }

  /** Byte-wise comparison, a proper prefix being smaller. */
  function CompareStr(x: string, y: string): int {
    if x == "" && y == "" then 0
    else if x == "" then -1
    else if y == "" then 1
    else if x[0] < y[0] then -1
    else if x[0] > y[0] then 1
    else CompareStr(x[1..], y[1..])
  }

  /** A prefix, or smaller at the first difference. */
  ghost predicate LexLeq(x: string, y: string) {
    x <= y || exists i: nat :: SmallerAt(x, y, i)
  }

  ghost predicate SmallerAt(x: string, y: string, i: nat) {
    i < |x| && i < |y| && x[..i] == y[..i] && x[i] < y[i]
  }

  lemma {:induction false} CompareStrEqual(x: string, y: string)
    ensures CompareStr(x, y) == 0 <==> x == y
  {
    if x != "" && y != "" {
      assert x == [x[0]] + x[1..] && y == [y[0]] + y[1..];
      CompareStrEqual(x[1..], y[1..]);
    }
  }

  lemma SmallerAtTail(x: string, y: string, i: nat)
    requires x != "" && y != "" && x[0] == y[0]
    ensures SmallerAt(x, y, i + 1) <==> SmallerAt(x[1..], y[1..], i)
  {
    if i < |x[1..]| && i < |y[1..]| {
      assert x[..i + 1] == [x[0]] + x[1..][..i] && y[..i + 1] == [y[0]] + y[1..][..i];
    }
  }

  lemma LexLeqTail(x: string, y: string)
    requires x != "" && y != ""
    ensures LexLeq(x, y) <==> x[0] < y[0] || (x[0] == y[0] && LexLeq(x[1..], y[1..]))
  {
    assert x == [x[0]] + x[1..] && y == [y[0]] + y[1..];
    forall i: nat | i > 0 && SmallerAt(x, y, i) ensures x[0] == y[0] {
      assert x[0] == x[..i][0] == y[..i][0] == y[0];
    }
    if x[0] < y[0] { assert SmallerAt(x, y, 0); }
    if x[0] == y[0] {
      forall i: nat ensures SmallerAt(x, y, i + 1) <==> SmallerAt(x[1..], y[1..], i) { SmallerAtTail(x, y, i); }
      if i: nat :| SmallerAt(x, y, i) { assert SmallerAt(x[1..], y[1..], i - 1); }
    }
  }

  lemma {:induction false} CompareStrMeaning(x: string, y: string)
    ensures CompareStr(x, y) <= 0 <==> LexLeq(x, y)
  {
    if x != "" && y != "" {
      LexLeqTail(x, y);
      CompareStrMeaning(x[1..], y[1..]);
    }
  }

  lemma {:induction false} StrFlip(x: string, y: string)
    ensures CompareStr(x, y) == -CompareStr(y, x)
  {
    if x != "" && y != "" && x[0] == y[0] { StrFlip(x[1..], y[1..]); }
  }

  lemma {:induction false} StrTransitive(x: string, y: string, z: string)
    requires CompareStr(x, y) <= 0 && CompareStr(y, z) <= 0
    ensures CompareStr(x, z) <= 0
  {
    if x != "" && y != "" && z != "" && x[0] == y[0] == z[0] { StrTransitive(x[1..], y[1..], z[1..]); }
  }

  lemma StrOrder()
    ensures TotalPreorder(CompareStr)
  {
    forall x ensures CompareStr(x, x) == 0 { CompareStrEqual(x, x); }
    forall x, y ensures Leq(CompareStr, x, y) <==> CompareStr(y, x) >= 0 { StrFlip(x, y); }
    forall x, y, z | Leq(CompareStr, x, y) && Leq(CompareStr, y, z) ensures Leq(CompareStr, x, z) {
      StrTransitive(x, y, z);
    }
  }

  method CompareStrValue(a: string, b: string) returns (r: int)
    ensures r == CompareStr(a, b)
  {
    var minLen := if |a| < |b| then |a| else |b|;
    for i := 0 to minLen
      invariant CompareStr(a[i..], b[i..]) == CompareStr(a, b)
    {
      assert a[i..][1..] == a[i + 1..] && b[i..][1..] == b[i + 1..];
      if a[i] < b[i] { return -1; }
      if a[i] > b[i] { return 1; }
    }
    if |a| < |b| { return -1; }
    if |a| > |b| { return 1; }
    return 0;
  }

  /** Sorting strings orders them lexicographically by bytes. */
  method SortStr(a: array<string>, n: nat)
    requires n <= a.Length
    modifies a
    ensures multiset(a[..n]) == multiset(old(a[..n])) && a[n..] == old(a[n..])
    ensures forall i, j :: 0 <= i < j < n ==> LexLeq(a[i], a[j])
  {
    StrOrder();
    Sort(a, n, CompareStr);
    forall i, j | 0 <= i < j < n ensures LexLeq(a[i], a[j]) {
      assert Leq(CompareStr, a[..n][i], a[..n][j]);
      CompareStrMeaning(a[i], a[j]);
    }
  }
}
