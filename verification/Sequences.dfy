/** Facts about sequences and finite sets that several components need. */
module Sequences {
  function Reversed<T>(s: seq<T>): (r: seq<T>)
    ensures |r| == |s| && forall i :: 0 <= i < |s| ==> r[i] == s[|s| - 1 - i]
  {
    seq(|s|, i requires 0 <= i < |s| => s[|s| - 1 - i])
  }

  lemma ReversedSnoc<T>(s: seq<T>, x: T)
    ensures Reversed(s + [x]) == [x] + Reversed(s)
  {
  }

  lemma Associative<T>(a: seq<T>, b: seq<T>, c: seq<T>)
    ensures a + (b + c) == a + b + c
  {
  }

  lemma SliceSnoc<T>(s: seq<T>, a: nat, b: nat)
    requires a <= b < |s|
    ensures s[a..b + 1] == s[a..b] + [s[b]]
  {
  }

  ghost predicate Distinct<T>(s: seq<T>) {
    forall i, j :: 0 <= i < j < |s| ==> s[i] != s[j]
  }

  ghost function Upto(n: nat): (r: set<nat>)
    ensures forall v: nat :: v in r <==> v < n
    ensures |r| == n
  {
    if n == 0 then {} else Upto(n - 1) + {n - 1}
  }

  lemma SubsetSize<T>(a: set<T>, b: set<T>)
    requires a <= b
    ensures |b| == |a| + |b - a|
    ensures |a| == |b| ==> a == b
  {
    assert b == a + (b - a);
  }

  ghost function Elements<T(!new)>(o: seq<T>): (s: set<T>)
    ensures forall x :: x in s <==> x in o
  {
    set x | x in o
  }

  lemma {:induction false} DistinctSize<T(!new)>(o: seq<T>)
    requires Distinct(o)
    ensures |Elements(o)| == |o|
  {
    if o != [] {
      var last := |o| - 1;
      DistinctSize(o[..last]);
      assert o == o[..last] + [o[last]];
      assert o[last] !in o[..last];
      assert Elements(o) == Elements(o[..last]) + {o[last]};
    }
  }

  lemma {:induction false} ElementsSize<T(!new)>(s: seq<T>)
    ensures |Elements(s)| <= |s|
  {
    if s != [] {
      var last := |s| - 1;
      ElementsSize(s[..last]);
      assert s == s[..last] + [s[last]];
      assert Elements(s) == Elements(s[..last]) + {s[last]};
    }
  }

  /** More places than values: some value comes twice. */
  lemma SomeRepeat<T(!new)>(w: seq<T>, values: seq<T>) returns (i: nat, j: nat)
    requires |w| > |values| && forall x :: x in w ==> x in values
    ensures i < j < |w| && w[i] == w[j]
  {
    if Distinct(w) {
      DistinctSize(w);
      ElementsSize(values);
      SubsetSize(Elements(w), Elements(values));
    }
    i, j :| 0 <= i < j < |w| && w[i] == w[j];
  }
}
