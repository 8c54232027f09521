/**
 Glob matching with one remembered star.  The backtracking loop decides the usual
 meaning of `*` and `?` unless the text itself contains a `*`, which the loop takes
 as a literal match of a pattern star.
 */
module Glob {
  const BUFFER_SIZE := 1024

  // ----- meaning -----

  /** `*` stands for any string, `?` for any character, all else for itself. */
  ghost predicate Matches(p: string, t: string)
    decreases |p| + |t|
  {
    if p == "" then t == ""
    else if p[0] == '*' then Matches(p[1..], t) || (t != "" && Matches(p, t[1..]))
    else t != "" && (p[0] == '?' || p[0] == t[0]) && Matches(p[1..], t[1..])
  }

  /** Without a star, pattern and text agree character by character. */
  lemma {:induction false} WithoutStars(p: string, t: string)
    requires '*' !in p
    ensures Matches(p, t) <==> |p| == |t| && forall i :: 0 <= i < |p| ==> p[i] == '?' || p[i] == t[i]
    decreases |p|
  {
    if p != "" && t != "" {
      WithoutStars(p[1..], t[1..]);
      assert forall i :: 0 < i < |p| ==> p[i] == p[1..][i - 1];
      if |p| == |t| { assert forall i :: 0 < i < |t| ==> t[i] == t[1..][i - 1]; }
    }
  }

  /** A star stands for any string: the patterns around it match what is left. */
  lemma {:induction false} AroundStar(p: string, q: string, t: string)
    requires '*' !in p
    ensures Matches(p + "*" + q, t) <==>
            |p| <= |t| && Matches(p, t[..|p|]) && exists m :: |p| <= m <= |t| && Matches(q, t[m..])
    decreases |p| + |t|
  {
    if p == "" {
      assert ("" + "*" + q)[1..] == q && t[0..] == t;
      if t != "" {
        AroundStar(p, q, t[1..]);
        assert forall m :: 1 <= m <= |t| ==> t[m..] == t[1..][m - 1..];
      }
    } else if t != "" {
      assert (p + "*" + q)[1..] == p[1..] + "*" + q;
      AroundStar(p[1..], q, t[1..]);
      if |p| <= |t| { assert t[..|p|][1..] == t[1..][..|p| - 1]; }
      assert forall m :: |p| <= m <= |t| ==> t[m..] == t[1..][m - 1..];
    }
  }

  // ----- the loop as a function -----

  /** The last star seen: its place in the pattern, and where its match ends in the text. */
  datatype Star = NoStar | StarAt(sp: nat, st: nat)

  ghost predicate InRange(p: string, t: string, pi: nat, ti: nat, star: Star) {
    pi <= |p| && ti <= |t| && (star.StarAt? ==> star.sp < pi && star.st <= ti)
  }

  /** What the star may still absorb. */
  ghost function Remaining(t: string, star: Star): int {
    if star.StarAt? then |t| - star.st else |t| + 1
  }

  predicate OnlyStars(p: string, i: nat)
    requires i <= |p|
    decreases |p| - i
  {
    if i < |p| && p[i] == '*' then OnlyStars(p, i + 1) else i == |p|
  }

  ghost predicate Scan(p: string, t: string, pi: nat, ti: nat, star: Star)
    requires InRange(p, t, pi, ti, star)
    decreases Remaining(t, star), |t| - ti, |p| - pi
  {
    if ti == |t| then OnlyStars(p, pi)
    else if pi < |p| && (p[pi] == t[ti] || p[pi] == '?') then Scan(p, t, pi + 1, ti + 1, star)
    else if pi < |p| && p[pi] == '*' then Scan(p, t, pi + 1, ti, StarAt(pi, ti))
    else if star.StarAt? then
      var sp, st := star.sp, star.st;
      Scan(p, t, sp + 1, st + 1, StarAt(sp, st + 1))
    else false
  }

  ghost predicate Accepts(p: string, t: string) { Scan(p, t, 0, 0, NoStar) }

  // ----- facts about matching -----

  /** A leading star absorbs any prefix. */
  lemma {:induction false} StarAbsorbs(p: string, t: string, m: nat)
    requires p != "" && p[0] == '*' && m <= |t| && Matches(p, t[m..])
    ensures Matches(p, t)
  {
    if m == 0 {
      assert t[0..] == t;
    } else {
      assert t[1..][m - 1..] == t[m..];
      StarAbsorbs(p, t[1..], m - 1);
    }
  }

  /** A pattern part without stars takes one character of text per character. */
  lemma {:induction false} PlainPart(p: string, n: nat, t: string)
    requires n <= |p| && '*' !in p[..n] && Matches(p, t)
    ensures n <= |t| && Matches(p[n..], t[n..])
  {
    if n == 0 {
      assert p[0..] == p && t[0..] == t;
    } else {
      assert p[0] == p[..n][0];
      assert p[1..][..n - 1] == p[..n][1..];
      PlainPart(p[1..], n - 1, t[1..]);
      assert p[1..][n - 1..] == p[n..] && t[1..][n - 1..] == t[n..];
    }
  }

  lemma {:induction false} EmptyText(p: string, i: nat)
    requires i <= |p|
    ensures OnlyStars(p, i) <==> Matches(p[i..], "")
    decreases |p| - i
  {
    if i < |p| && p[i] == '*' {
      assert p[i..][1..] == p[i + 1..];
      EmptyText(p, i + 1);
    }
  }

  // ----- correctness -----

  /** Giving the last star at least one more character leads to a match. */
  ghost predicate Retry(p: string, t: string, star: Star)
    requires star.StarAt? ==> star.sp < |p|
  {
    star.StarAt? && exists k :: star.st < k <= |t| && Matches(p[star.sp + 1..], t[k..])
  }

  /** Since the last star only plain characters were matched, one for one. */
  ghost predicate PlainSince(p: string, pi: nat, ti: nat, star: Star)
    requires pi <= |p|
  {
    star.StarAt? ==>
      star.sp < pi && pi - star.sp - 1 == ti - star.st && '*' !in p[star.sp + 1..pi]
  }

  /** A retry that matches consumes the plain part and more text than was consumed so far. */
  lemma RetrySkips(p: string, t: string, pi: nat, ti: nat, star: Star) returns (m: nat)
    requires InRange(p, t, pi, ti, star) && PlainSince(p, pi, ti, star) && Retry(p, t, star)
    ensures ti < m <= |t| && Matches(p[pi..], t[m..])
  {
    var sp, st := star.sp, star.st;
    var k: nat :| st < k <= |t| && Matches(p[sp + 1..], t[k..]);
    var n := pi - sp - 1;
    assert p[sp + 1..][..n] == p[sp + 1..pi];
    PlainPart(p[sp + 1..], n, t[k..]);
    assert p[sp + 1..][n..] == p[pi..] && t[k..][n..] == t[k + n..];
    m := k + n;
  }

  /** Every state of the loop decides: match from here, or after a retry. */
  ghost predicate Decides(p: string, t: string, pi: nat, ti: nat, star: Star)
    requires InRange(p, t, pi, ti, star) && pi <= |p| && (star.StarAt? ==> star.sp < |p|)
  {
    Scan(p, t, pi, ti, star) <==> Matches(p[pi..], t[ti..]) || Retry(p, t, star)
  }

  lemma {:induction false} ScanDecides(p: string, t: string, pi: nat, ti: nat, star: Star)
    requires InRange(p, t, pi, ti, star) && PlainSince(p, pi, ti, star)
    requires '*' !in t || '*' !in p
    ensures Decides(p, t, pi, ti, star)
    decreases Remaining(t, star), |t| - ti, |p| - pi
  {
    if ti == |t| {
      DecidesAtEnd(p, t, pi, star);
    } else if pi < |p| && (p[pi] == t[ti] || p[pi] == '?') {
      PlainStep(p, pi, ti, star);
      ScanDecides(p, t, pi + 1, ti + 1, star);
      DecidesPlain(p, t, pi, ti, star);
    } else if pi < |p| && p[pi] == '*' {
      ScanDecides(p, t, pi + 1, ti, StarAt(pi, ti));
      NewStar(p, t, pi, ti, star);
    } else if star.StarAt? {
      var sp, st := star.sp, star.st;
      ScanDecides(p, t, sp + 1, st + 1, StarAt(sp, st + 1));
      DecidesMismatch(p, t, pi, ti, star);
    } else {
      DecidesMismatch(p, t, pi, ti, star);
    }
  }

  lemma DecidesAtEnd(p: string, t: string, pi: nat, star: Star)
    requires InRange(p, t, pi, |t|, star) && PlainSince(p, pi, |t|, star)
    ensures Decides(p, t, pi, |t|, star)
  {
    EmptyText(p, pi);
    if Retry(p, t, star) { var m := RetrySkips(p, t, pi, |t|, star); }
  }

  lemma DecidesMismatch(p: string, t: string, pi: nat, ti: nat, star: Star)
    requires InRange(p, t, pi, ti, star) && ti < |t|
    requires pi < |p| ==> p[pi] != t[ti] && p[pi] != '?' && p[pi] != '*'
    requires star.StarAt? ==>
               star.sp < |p| && Decides(p, t, star.sp + 1, star.st + 1, StarAt(star.sp, star.st + 1))
    ensures Decides(p, t, pi, ti, star)
  {
    if star.StarAt? { RetryOnce(p, t, star.sp, star.st); }
  }

  lemma DecidesPlain(p: string, t: string, pi: nat, ti: nat, star: Star)
    requires InRange(p, t, pi, ti, star) && (star.StarAt? ==> star.sp < |p|)
    requires pi < |p| && ti < |t| && p[pi] != '*' && (p[pi] == t[ti] || p[pi] == '?')
    requires Decides(p, t, pi + 1, ti + 1, star)
    ensures Decides(p, t, pi, ti, star)
  {
    assert p[pi..][1..] == p[pi + 1..] && t[ti..][1..] == t[ti + 1..];
  }

  lemma PlainStep(p: string, pi: nat, ti: nat, star: Star)
    requires pi < |p| && p[pi] != '*' && PlainSince(p, pi, ti, star)
    ensures PlainSince(p, pi + 1, ti + 1, star)
  {
    if star.StarAt? { assert p[star.sp + 1..pi + 1] == p[star.sp + 1..pi] + [p[pi]]; }
  }

  lemma RetryOnce(p: string, t: string, sp: nat, st: nat)
    requires sp < |p| && st < |t|
    ensures Retry(p, t, StarAt(sp, st))
       <==> Matches(p[sp + 1..], t[st + 1..]) || Retry(p, t, StarAt(sp, st + 1))
  {
  }

  /** On a new star the previous one can be forgotten. */
  lemma NewStar(p: string, t: string, pi: nat, ti: nat, star: Star)
    requires InRange(p, t, pi, ti, star) && PlainSince(p, pi, ti, star)
    requires pi < |p| && p[pi] == '*' && ti < |t|
    ensures Matches(p[pi..], t[ti..]) || Retry(p, t, star)
       <==> Matches(p[pi + 1..], t[ti..]) || Retry(p, t, StarAt(pi, ti))
  {
    if Retry(p, t, star) {
      var m := RetrySkips(p, t, pi, ti, star);
      assert t[ti..][m - ti..] == t[m..];
      StarAbsorbs(p[pi..], t[ti..], m - ti);
    }
    StarChoices(p, t, pi, ti);
  }

  /** A star matches by absorbing some number of characters. */
  lemma {:induction false} StarChoices(p: string, t: string, pi: nat, ti: nat)
    requires pi < |p| && p[pi] == '*' && ti <= |t|
    ensures Matches(p[pi..], t[ti..]) <==> Matches(p[pi + 1..], t[ti..]) || Retry(p, t, StarAt(pi, ti))
    decreases |t| - ti
  {
    assert p[pi..][1..] == p[pi + 1..];
    if ti < |t| {
      assert t[ti..][1..] == t[ti + 1..];
      StarChoices(p, t, pi, ti + 1);
      RetryOnce(p, t, pi, ti);
    }
  }

  /** Without a star on one of the two sides the loop is right. */
  lemma AcceptsIsMatches(p: string, t: string)
    requires '*' !in t || '*' !in p
    ensures Accepts(p, t) <==> Matches(p, t)
  {
    ScanDecides(p, t, 0, 0, NoStar);
    assert p[0..] == p && t[0..] == t;
  }

  // ----- texts with a star -----

  lemma {:induction false} CommonPrefix(p: string, t: string, i: nat, n: nat)
    requires i <= n <= |p| && n <= |t| && p[..n] == t[..n]
    ensures Scan(p, t, i, i, NoStar) == Scan(p, t, n, n, NoStar)
    decreases n - i
  {
    if i < n {
      assert p[i] == p[..n][i] == t[..n][i] == t[i];
      CommonPrefix(p, t, i + 1, n);
    }
  }

  lemma {:induction false} MatchesItself(t: string, p: string, rest: string)
    requires '*' !in t && Matches(p, rest)
    ensures Matches(t + p, t + rest)
  {
    if t == "" {
      assert t + p == p && t + rest == rest;
    } else {
      MatchesItself(t[1..], p, rest);
      assert (t + p)[1..] == t[1..] + p && (t + rest)[1..] == t[1..] + rest;
    }
  }

  /** The first star of a text. */
  lemma FirstStar(t: string) returns (i: nat)
    requires '*' in t
    ensures i < |t| && t[i] == '*' && '*' !in t[..i]
  {
    i := 0;
    while t[i] != '*'
      invariant i < |t| && '*' !in t[..i]
      invariant exists j :: i <= j < |t| && t[j] == '*'
      decreases |t| - i
    {
      assert t[..i + 1] == t[..i] + [t[i]];
      i := i + 1;
    }
  }

  /** A pattern that matches a text with a star, but that the loop rejects. */
  lemma WronglyRejected(t: string) returns (p: string)
    requires '*' in t
    ensures Matches(p, t) && !Accepts(p, t)
    ensures |p| <= |t| + 1 && ('*' in t[..|t| - 1] ==> |p| <= |t|) && ('\0' !in t ==> '\0' !in p)
  {
    var i := FirstStar(t);
    var tail := if i + 1 < |t| then "*" else "*?";
    p := t[..i] + tail;
    assert t == t[..i] + t[i..];
    assert Matches(tail, t[i..]) by {
      assert tail[1..] == "" || tail[1..] == "?";
      if i + 1 < |t| {
        assert t[i..][|t| - i..] == "";
        StarAbsorbs(tail, t[i..], |t| - i);
      } else {
        assert t[i..] == "*";
        assert "?"[1..] == "" && "*"[1..] == "";
        assert Matches("?", "*");
      }
    }
    MatchesItself(t[..i], tail, t[i..]);
    CommonPrefix(p, t, 0, i);
    assert p[i] == '*';
    assert Scan(p, t, i, i, NoStar) == Scan(p, t, i + 1, i + 1, NoStar);
  }

  /** The loop is right for every pattern exactly on texts without a star. */
  lemma RightExactlyWithoutStars(t: string)
    ensures (forall p :: Accepts(p, t) <==> Matches(p, t)) <==> '*' !in t
  {
    if '*' in t {
      var p := WronglyRejected(t);
    } else {
      forall p ensures Accepts(p, t) <==> Matches(p, t) { AcceptsIsMatches(p, t); }
    }
  }

  // ----- the code -----

  /** What fits a C buffer: at most 1023 characters, up to the first NUL. */
  function CString(s: string): (c: string)
    ensures c <= s && |c| < BUFFER_SIZE && '\0' !in c
    ensures c == s || |c| == BUFFER_SIZE - 1 || s[|c|] == '\0'
  {
    UpToNul(if |s| < BUFFER_SIZE then s else s[..BUFFER_SIZE - 1])
  }

  lemma Fits(s: string)
    requires |s| < 1024 && '\0' !in s
    ensures CString(s) == s
  {
    var c := CString(s);
    assert |c| == |s| ==> c == s;
  }

  function UpToNul(s: string): (c: string)
    ensures c <= s && '\0' !in c && (c == s || s[|c|] == '\0')
  {
    if s == "" || s[0] == '\0' then "" else [s[0]] + UpToNul(s[1..])
  }

  /** The text does not fill its buffer, or has a star before its last place: then a wrongly
      rejected pattern fits the other buffer. */
  ghost predicate Roomy(t: string) { |t| < BUFFER_SIZE - 1 || '*' in t[..BUFFER_SIZE - 2] }

  /** With the buffers, too, the function is right for every pattern exactly on texts
      without a star. */
  lemma BuffersRightExactlyWithoutStars(text: string)
    requires '*' in CString(text) ==> Roomy(CString(text))
    ensures (forall pattern :: Decided(pattern, text)) <==> '*' !in CString(text)
  {
    var t := CString(text);
    if '*' in t {
      var p := WronglyRejected(t);
      assert CString(p) == p;
      assert !Decided(p, text);
    } else {
      forall pattern ensures Decided(pattern, text) { AcceptsIsMatches(CString(pattern), t); }
    }
  }

  /** The scan of what the buffers hold gives the meaning of what they hold. */
  ghost predicate Decided(pattern: string, text: string) {
    Accepts(CString(pattern), CString(text)) <==> Matches(CString(pattern), CString(text))
  }

  method GlobMatch(pattern: string, text: string) returns (r: bool)
    ensures r == Accepts(CString(pattern), CString(text))
    ensures '*' !in CString(text) || '*' !in CString(pattern) ==> r == Matches(CString(pattern), CString(text))
    ensures |pattern| < 1024 && |text| < 1024 && '\0' !in pattern && '\0' !in text &&
            ('*' !in text || '*' !in pattern) ==>
              r == Matches(pattern, text)
  {
    var p, t := CString(pattern), CString(text);
    if |pattern| < 1024 && '\0' !in pattern { Fits(pattern); }
    if |text| < 1024 && '\0' !in text { Fits(text); }
    if '*' !in t || '*' !in p { AcceptsIsMatches(p, t); }
    r := Backtrack(p, t);
  }

  method Backtrack(p: string, t: string) returns (r: bool)
    ensures r == Accepts(p, t)
  {
    var pi: nat, ti: nat := 0, 0;
    var star := NoStar;
    while ti < |t|
      invariant InRange(p, t, pi, ti, star)
      invariant Scan(p, t, pi, ti, star) == Accepts(p, t)
      decreases Remaining(t, star), |t| - ti, |p| - pi
    {
      if pi < |p| && (p[pi] == t[ti] || p[pi] == '?') {
        pi, ti := pi + 1, ti + 1;
      } else if pi < |p| && p[pi] == '*' {
        star := StarAt(pi, ti);
        pi := pi + 1;
      } else if star.StarAt? {
        star := StarAt(star.sp, star.st + 1);
        pi, ti := star.sp + 1, star.st;
      } else {
        return false;
      }
    }
    r := SkipStars(p, pi);
  }

  /** The pattern is used up once its trailing stars are skipped. */
  method SkipStars(p: string, start: nat) returns (done: bool)
    requires start <= |p|
    ensures done == OnlyStars(p, start)
  {
    var pi := start;
    while pi < |p| && p[pi] == '*'
      invariant pi <= |p| && OnlyStars(p, pi) == OnlyStars(p, start)
    {
      pi := pi + 1;
    }
    return pi == |p|;
  }
}
