/**
 Splitting, joining and replacing in strings.  Joining undoes splitting, splitting undoes
 joining exactly for leftmost pieces, and replacing is splitting and joining.
 */
module StrOps {
  import opened Sequences

  // ----- occurrences -----

  ghost predicate MatchAt(s: string, d: string, i: nat) {
    i + |d| <= |s| && s[i..i + |d|] == d
  }

  ghost predicate Contains(s: string, d: string) { exists i: nat :: MatchAt(s, d, i) }

  ghost predicate NoMatchBelow(s: string, d: string, n: nat) { forall i: nat :: i < n ==> !MatchAt(s, d, i) }

  /** The first occurrence at or after `from`; `|s| + 1` if there is none. */
  ghost function First(s: string, d: string, from: nat): (i: nat)
    requires from <= |s|
    ensures from <= i && (i <= |s| ==> i + |d| <= |s|)
    decreases |s| - from
  {
    if MatchAt(s, d, from) then from else if from == |s| then |s| + 1 else First(s, d, from + 1)
  }

  lemma {:induction false} FirstMeans(s: string, d: string, from: nat)
    requires from <= |s|
    ensures var i := First(s, d, from);
            (i <= |s| ==> MatchAt(s, d, i)) && forall k: nat :: from <= k < i ==> !MatchAt(s, d, k)
    decreases |s| - from
  {
    if !MatchAt(s, d, from) && from < |s| { FirstMeans(s, d, from + 1); }
  }

  // ----- splitting and joining -----

  ghost function Split(s: string, d: string): (ps: seq<string>)
    ensures |ps| > 0
    decreases |s|
  {
    if d == "" || First(s, d, 0) > |s| then [s]
    else
      var i := First(s, d, 0);
      [s[..i]] + Split(s[i + |d|..], d)
  }

  ghost function Join(ps: seq<string>, sep: string): string {
    if ps == [] then "" else if |ps| == 1 then ps[0] else ps[0] + sep + Join(ps[1..], sep)
  }

  lemma JoinCons(p: string, ps: seq<string>, sep: string)
    requires ps != []
    ensures Join([p] + ps, sep) == p + sep + Join(ps, sep)
  {
    assert ([p] + ps)[1..] == ps;
  }

  /** Where splitting cuts first, if anywhere. */
  lemma FirstCut(s: string, d: string) returns (i: nat)
    requires d != ""
    ensures i <= |s| ==> MatchAt(s, d, i) && NoMatchBelow(s, d, i)
    ensures i > |s| ==> !Contains(s, d)
  {
    FirstMeans(s, d, 0);
    i := First(s, d, 0);
  }

  lemma SplitFound(s: string, d: string, i: nat)
    requires d != "" && MatchAt(s, d, i) && NoMatchBelow(s, d, i)
    ensures Split(s, d) == [s[..i]] + Split(s[i + |d|..], d)
  {
    FirstMeans(s, d, 0);
    assert First(s, d, 0) == i;
  }

  lemma SplitNone(s: string, d: string)
    requires d != "" && !Contains(s, d)
    ensures Split(s, d) == [s]
  {
    FirstMeans(s, d, 0);
  }

  lemma {:induction false} JoinUndoesSplit(s: string, d: string)
    ensures Join(Split(s, d), d) == s
    decreases |s|
  {
    if d == "" { return; }
    var i := FirstCut(s, d);
    if i > |s| {
      SplitNone(s, d);
    } else {
      var head, rest := s[..i], s[i + |d|..];
      SplitFound(s, d, i);
      JoinUndoesSplit(rest, d);
      JoinCons(head, Split(rest, d), d);
      assert s == head + d + rest;
    }
  }

  lemma {:induction false} PiecesAreFree(s: string, d: string)
    requires d != ""
    ensures forall p :: p in Split(s, d) ==> !Contains(p, d)
    decreases |s|
  {
    var i := FirstCut(s, d);
    if i > |s| {
      SplitNone(s, d);
    } else {
      SplitFound(s, d, i);
      PiecesAreFree(s[i + |d|..], d);
      forall k: nat | MatchAt(s[..i], d, k) ensures MatchAt(s, d, k) && k < i {
        assert s[..i][k..k + |d|] == s[k..k + |d|];
      }
    }
  }

  /** Each delimiter is the first occurrence after the previous one. */
  ghost predicate Leftmost(ps: seq<string>, d: string) {
    ps != [] &&
    if |ps| == 1 then !Contains(ps[0], d)
    else NoMatchBelow(ps[0] + d, d, |ps[0]|) && Leftmost(ps[1..], d)
  }

  /** Whether an occurrence is the first one can be seen from the string up to its end. */
  lemma FirstWithin(s: string, d: string, n: nat)
    requires n + |d| <= |s|
    ensures NoMatchBelow(s, d, n) <==> NoMatchBelow(s[..n + |d|], d, n)
  {
    var t := s[..n + |d|];
    forall k: nat | k < n ensures MatchAt(s, d, k) <==> MatchAt(t, d, k) {
      assert t[k..k + |d|] == s[k..k + |d|];
    }
  }

  /** Splitting undoes joining exactly for leftmost pieces. */
  lemma {:induction false} SplitUndoesJoin(ps: seq<string>, d: string)
    requires d != "" && ps != []
    ensures Split(Join(ps, d), d) == ps <==> Leftmost(ps, d)
    decreases |ps|
  {
    if |ps| == 1 {
      PiecesAreFree(ps[0], d);
      if !Contains(ps[0], d) { SplitNone(ps[0], d); }
    } else {
      var n, head, rest := |ps[0]|, ps[0] + d, Join(ps[1..], d);
      var s := head + rest;
      assert Join(ps, d) == s && s[..n + |d|] == head && s[n + |d|..] == rest && s[..n] == ps[0];
      assert MatchAt(s, d, n) by { assert s[n..n + |d|] == d; }
      FirstWithin(s, d, n);
      SplitUndoesJoin(ps[1..], d);
      SplitHead(s, d, n, ps);
    }
  }

  lemma SplitHead(s: string, d: string, n: nat, ps: seq<string>)
    requires d != "" && MatchAt(s, d, n) && ps != [] && ps[0] == s[..n]
    ensures Split(s, d) == ps <==> NoMatchBelow(s, d, n) && Split(s[n + |d|..], d) == ps[1..]
  {
    var i := FirstCut(s, d);
    SplitFound(s, d, i);
    assert ps == [ps[0]] + ps[1..];
    assert Split(s, d)[0] == s[..i] && Split(s, d)[1..] == Split(s[i + |d|..], d);
    assert i < n ==> |s[..i]| != |ps[0]|;
  }

  // ----- replacing -----

  /** Every leftmost, non-overlapping occurrence of `o` is replaced. */
  ghost function Replace(s: string, o: string, n: string): string
    decreases |s|
  {
    if o == "" || s == "" then s
    else if MatchAt(s, o, 0) then n + Replace(s[|o|..], o, n)
    else [s[0]] + Replace(s[1..], o, n)
  }

  lemma MatchInTail(s: string, d: string, start: nat, i: nat)
    requires start <= i && i + |d| <= |s|
    ensures MatchAt(s, d, i) <==> MatchAt(s[start..], d, i - start)
  {
    assert s[start..][i - start..i - start + |d|] == s[i..i + |d|];
  }

  lemma NoMatchInTail(s: string, d: string, n: nat)
    requires s != "" && NoMatchBelow(s, d, n) && n > 0
    ensures NoMatchBelow(s[1..], d, n - 1)
  {
    forall k: nat | k < n - 1 ensures !MatchAt(s[1..], d, k) {
      assert !MatchAt(s, d, k + 1);
      if k + 1 + |d| <= |s| { MatchInTail(s, d, 1, k + 1); }
    }
  }

  lemma {:induction false} ReplaceUpTo(s: string, o: string, n: string, i: nat)
    requires o != "" && i <= |s| && NoMatchBelow(s, o, i)
    ensures Replace(s, o, n) == s[..i] + Replace(s[i..], o, n)
    decreases i
  {
    if i == 0 {
      assert s[0..] == s;
    } else {
      NoMatchInTail(s, o, i);
      var tail := s[1..];
      ReplaceUpTo(tail, o, n, i - 1);
      assert s[..i] == [s[0]] + tail[..i - 1] && tail[i - 1..] == s[i..];
      assert Replace(s, o, n) == [s[0]] + Replace(tail, o, n);
    }
  }

  lemma ReplaceFirst(s: string, o: string, n: string, i: nat)
    requires o != "" && MatchAt(s, o, i) && NoMatchBelow(s, o, i)
    ensures Replace(s, o, n) == s[..i] + n + Replace(s[i + |o|..], o, n)
  {
    var t, rest := s[i..], s[i + |o|..];
    var r := Replace(rest, o, n);
    assert Replace(t, o, n) == n + r by {
      MatchInTail(s, o, i, i);
      Slices(s, i, i + |o|);
    }
    assert Replace(s, o, n) == s[..i] + Replace(t, o, n) by { ReplaceUpTo(s, o, n, i); }
    Associative(s[..i], n, r);
  }

  lemma Slices(s: string, a: nat, b: nat)
    requires a <= b <= |s|
    ensures s[a..][..b - a] == s[a..b] && s[a..][b - a..] == s[b..]
  {
  }

  lemma ReplaceNone(s: string, o: string, n: string)
    requires o != "" && NoMatchBelow(s, o, |s|)
    ensures Replace(s, o, n) == s
  {
    ReplaceUpTo(s, o, n, |s|);
    assert s[..|s|] == s && s[|s|..] == "";
  }

  lemma {:induction false} ReplaceIsSplitAndJoin(s: string, o: string, n: string)
    ensures Replace(s, o, n) == Join(Split(s, o), n)
    decreases |s|
  {
    if o == "" { return; }
    var i := FirstCut(s, o);
    if i > |s| {
      SplitNone(s, o);
      assert Replace(s, o, n) == s by { ReplaceNone(s, o, n); }
    } else {
      var head, rest := s[..i], s[i + |o|..];
      assert Replace(s, o, n) == head + n + Replace(rest, o, n) by { ReplaceFirst(s, o, n, i); }
      assert Replace(rest, o, n) == Join(Split(rest, o), n) by { ReplaceIsSplitAndJoin(rest, o, n); }
      SplitFound(s, o, i);
      assert Join([head] + Split(rest, o), n) == head + n + Join(Split(rest, o), n) by {
        JoinCons(head, Split(rest, o), n);
      }
    }
  }

  /** How often `o` is replaced. */
  ghost function Occurrences(s: string, o: string): nat
    decreases |s|
  {
    if o == "" || s == "" then 0
    else if MatchAt(s, o, 0) then 1 + Occurrences(s[|o|..], o)
    else Occurrences(s[1..], o)
  }

  lemma {:induction false} ReplaceLength(s: string, o: string, n: string)
    ensures |Replace(s, o, n)| == |s| + Occurrences(s, o) * (|n| - |o|)
    decreases |s|
  {
    if o != "" && s != "" {
      if MatchAt(s, o, 0) {
        ReplaceLength(s[|o|..], o, n);
        OneMoreTimes(Occurrences(s[|o|..], o), |n| - |o|);
      } else {
        ReplaceLength(s[1..], o, n);
      }
    }
  }

  lemma OneMoreTimes(k: int, d: int)
    ensures (k + 1) * d == k * d + d
  {
  }

  // ----- the code -----

  /** Whether `d` occurs at `i`, compared character by character. */
  method IsMatch(s: string, d: string, i: nat) returns (match_: bool)
    requires i + |d| <= |s|
    ensures match_ == MatchAt(s, d, i)
  {
    for j := 0 to |d|
      invariant s[i..i + j] == d[..j]
    {
      assert s[i..i + j + 1] == s[i..i + j] + [s[i + j]] && d[..j + 1] == d[..j] + [d[j]];
      if s[i + j] != d[j] {
        assert s[i..i + |d|][j] != d[j];
        return false;
      }
    }
    return true;
  }

  method SplitString(s: string, delim: string) returns (parts: seq<string>)
    ensures parts == Split(s, delim) && (delim == "" ==> parts == [s])
  {
    if delim == "" || s == "" { return [s]; }
    parts := [];
    var start: nat, i: nat := 0, 0;
    while i + |delim| <= |s|
      invariant start <= i <= |s| && parts + SplitScan(s, delim, start, i) == SplitScan(s, delim, 0, 0)
      decreases |s| - i
    {
      var found := IsMatch(s, delim, i);
      if found {
        Associative(parts, [s[start..i]], SplitScan(s, delim, i + |delim|, i + |delim|));
        parts := parts + [s[start..i]];
        start := i + |delim|;
        i := start;
      } else {
        i := i + 1;
      }
    }
    parts := parts + [s[start..]];
    assert SplitScan(s, delim, 0, 0) == Split(s, delim) by {
      ScanSplits(s, delim, 0, 0);
      assert s[0..] == s;
    }
  }

  /** What the scan still produces with the current piece begun at `start`. */
  ghost function SplitScan(s: string, d: string, start: nat, i: nat): seq<string>
    requires d != "" && start <= i <= |s|
    decreases |s| - i
  {
    if i + |d| > |s| then [s[start..]]
    else if MatchAt(s, d, i) then [s[start..i]] + SplitScan(s, d, i + |d|, i + |d|)
    else SplitScan(s, d, start, i + 1)
  }

  lemma {:induction false} ScanSplits(s: string, d: string, start: nat, i: nat)
    requires d != "" && start <= i <= |s| && NoMatchBelow(s[start..], d, i - start)
    ensures SplitScan(s, d, start, i) == Split(s[start..], d)
    decreases |s| - i
  {
    var u, m := s[start..], i - start;
    if i + |d| > |s| {
      SplitNone(u, d);
    } else if MatchAt(s, d, i) {
      ScanSplits(s, d, i + |d|, i + |d|);
      SamePieces(s, d, start, i);
      assert Split(u, d) == [u[..m]] + Split(u[m + |d|..], d) by {
        MatchInTail(s, d, start, i);
        SplitFound(u, d, m);
      }
    } else {
      assert NoMatchBelow(u, d, m + 1) by { MatchInTail(s, d, start, i); }
      ScanSplits(s, d, start, i + 1);
    }
  }

  /** Pieces of the rest of a string are pieces of the string. */
  lemma SamePieces(s: string, d: string, start: nat, i: nat)
    requires start <= i && i + |d| <= |s|
    ensures var u, m := s[start..], i - start;
            [u[..m]] + Split(u[m + |d|..], d) == [s[start..i]] + Split(s[i + |d|..], d)
  {
    Slices(s, start, i);
    Slices(s, start, i + |d|);
  }

  /** Counts first, then writes into a buffer of exactly the computed size. */
  method ReplaceString(s: string, o: string, n: string) returns (r: string)
    ensures r == Replace(s, o, n) && (o == "" ==> r == s)
  {
    if o == "" { return s; }
    var count := CountOccurrences(s, o);
    var newLen := |s| + count * (|n| - |o|);
    ReplaceLength(s, o, n);
    var out := new char[newLen + 1];
    var oi := FillReplaced(s, o, n, out);
    assert oi == newLen;
    r := out[..oi];
  }

  method CountOccurrences(s: string, o: string) returns (count: nat)
    requires o != ""
    ensures count == Occurrences(s, o)
  {
    count := 0;
    var i := 0;
    while i + |o| <= |s|
      invariant i <= |s| && count + Occurrences(s[i..], o) == Occurrences(s, o)
      decreases |s| - i
    {
      var found := IsMatch(s, o, i);
      MatchInTail(s, o, i, i);
      if found {
        count := count + 1;
        assert s[i..][|o|..] == s[i + |o|..];
        i := i + |o|;
      } else {
        assert s[i..][1..] == s[i + 1..];
        i := i + 1;
      }
    }
    TooShort(s[i..], o);
  }

  lemma {:induction false} TooShort(s: string, o: string)
    requires |s| < |o|
    ensures Occurrences(s, o) == 0
    decreases |s|
  {
    if s != "" { TooShort(s[1..], o); }
  }

  method FillReplaced(s: string, o: string, n: string, out: array<char>) returns (oi: nat)
    requires o != "" && |Replace(s, o, n)| < out.Length
    modifies out
    ensures oi == |Replace(s, o, n)| && out[..oi] == Replace(s, o, n)
  {
    oi := 0;
    var i := 0;
    while i < |s|
      invariant i <= |s| && oi <= out.Length && out[..oi] + Replace(s[i..], o, n) == Replace(s, o, n)
      decreases |s| - i
    {
      var found := false;
      if i + |o| <= |s| {
        found := IsMatch(s, o, i);
        MatchInTail(s, o, i, i);
      }
      ghost var before := out[..oi];
      if found {
        assert s[i..][|o|..] == s[i + |o|..];
        Replaced(s[i..], o, n, before);
        oi := Append(out, oi, n);
        i := i + |o|;
      } else {
        assert s[i..][1..] == s[i + 1..];
        Kept(s[i..], o, n, before);
        out[oi] := s[i];
        assert out[..oi + 1] == before + [s[i]];
        oi := oi + 1;
        i := i + 1;
      }
    }
  }

  lemma Replaced(s: string, o: string, n: string, before: string)
    requires o != "" && MatchAt(s, o, 0)
    ensures before + Replace(s, o, n) == (before + n) + Replace(s[|o|..], o, n)
  {
  }

  lemma Kept(s: string, o: string, n: string, before: string)
    requires o != "" && s != "" && !MatchAt(s, o, 0)
    ensures before + Replace(s, o, n) == (before + [s[0]]) + Replace(s[1..], o, n)
  {
  }

  method CopyInto(out: array<char>, at: nat, s: string)
    requires at + |s| <= out.Length
    modifies out
    ensures out[..at] == old(out[..at]) && out[at..at + |s|] == s
  {
    for k := 0 to |s|
      invariant out[..at] == old(out[..at]) && out[at..at + k] == s[..k]
    {
      out[at + k] := s[k];
    }
  }

  method Append(out: array<char>, at: nat, s: string) returns (end: nat)
    requires at + |s| <= out.Length
    modifies out
    ensures end == at + |s| && out[..end] == old(out[..at]) + s
  {
    CopyInto(out, at, s);
    end := at + |s|;
    assert out[..end] == out[..at] + out[at..end];
  }

  // ----- joining into a buffer -----

  ghost function TotalLength(ps: seq<string>): nat {
    if ps == [] then 0 else TotalLength(ps[..|ps| - 1]) + |ps[|ps| - 1]|
  }

  lemma {:induction false} JoinSnoc(ps: seq<string>, p: string, sep: string)
    requires ps != []
    ensures Join(ps + [p], sep) == Join(ps, sep) + sep + p
  {
    if |ps| > 1 {
      assert (ps + [p])[1..] == ps[1..] + [p];
      JoinSnoc(ps[1..], p, sep);
    } else {
      assert (ps + [p])[1..] == [p];
    }
  }

  lemma {:induction false} JoinLength(ps: seq<string>, sep: string)
    requires ps != []
    ensures |Join(ps, sep)| == TotalLength(ps) + |sep| * (|ps| - 1)
  {
    var front := ps[..|ps| - 1];
    assert ps == front + [ps[|ps| - 1]];
    if front != [] {
      JoinLength(front, sep);
      JoinSnoc(front, ps[|ps| - 1], sep);
      OneMoreTimes(|front| - 1, |sep|);
    }
  }

  method JoinStrings(arr: seq<string>, sep: string) returns (r: string)
    ensures r == Join(arr, sep)
  {
    if arr == [] { return ""; }
    var totalLen := 0;
    for i := 0 to |arr|
      invariant totalLen == TotalLength(arr[..i])
    {
      assert arr[..i + 1][..i] == arr[..i];
      totalLen := totalLen + |arr[i]|;
    }
    assert arr[..|arr|] == arr;
    totalLen := totalLen + |sep| * (|arr| - 1);
    JoinLength(arr, sep);
    var buf := new char[totalLen + 1];
    var pos := FillJoined(arr, sep, buf);
    r := buf[..pos];
  }

  method FillJoined(arr: seq<string>, sep: string, buf: array<char>) returns (pos: nat)
    requires arr != [] && |Join(arr, sep)| < buf.Length
    modifies buf
    ensures pos == |Join(arr, sep)| && buf[..pos] == Join(arr, sep)
  {
    pos := 0;
    for i := 0 to |arr|
      invariant pos <= buf.Length && buf[..pos] == Join(arr[..i], sep)
    {
      JoinGrows(arr, i, sep);
      if i > 0 && |sep| > 0 { pos := Append(buf, pos, sep); }
      if |arr[i]| > 0 { pos := Append(buf, pos, arr[i]); }
    }
    assert arr[..|arr|] == arr;
  }

  /** Joining one more piece, and that the whole is at least as long. */
  lemma JoinGrows(arr: seq<string>, i: nat, sep: string)
    requires i < |arr|
    ensures Join(arr[..i + 1], sep) == Join(arr[..i], sep) + (if i > 0 then sep else "") + arr[i]
    ensures |Join(arr[..i + 1], sep)| <= |Join(arr, sep)|
  {
    assert arr[..i + 1] == arr[..i] + [arr[i]];
    if i > 0 { JoinSnoc(arr[..i], arr[i], sep); }
    PrefixShorter(arr, i + 1, sep);
  }

  lemma {:induction false} PrefixShorter(arr: seq<string>, n: nat, sep: string)
    requires 0 < n <= |arr|
    ensures |Join(arr[..n], sep)| <= |Join(arr, sep)|
    decreases |arr| - n
  {
    if n < |arr| {
      assert arr[..n + 1] == arr[..n] + [arr[n]];
      JoinSnoc(arr[..n], arr[n], sep);
      PrefixShorter(arr, n + 1, sep);
    } else {
      assert arr[..n] == arr;
    }
  }
}
