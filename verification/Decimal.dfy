/**
 Decimal printing and parsing of 32-bit integers.  Parsing undoes printing, except
 that the printed form of INT32_MIN is rejected as an overflow.
 */
module Decimal {
  import opened CheckedArith
  import opened Sequences

  newtype u32 = x: int | 0 <= x < 0x1_0000_0000

  const PARSE_LIMIT := 63

  // ----- digits -----

  predicate IsDigit(c: char) { '0' <= c <= '9' }

  function DigitValue(c: char): nat
    requires IsDigit(c)
  {
    c as int - '0' as int
  }

  function DigitChar(d: nat): (c: char)
    requires d < 10
    ensures IsDigit(c) && DigitValue(c) == d
  {
    (d + '0' as int) as char
  }

  predicate AllDigits(s: string) { forall i :: 0 <= i < |s| ==> IsDigit(s[i]) }

  /** The number a digit string denotes. */
  function Value(s: string): nat
    requires AllDigits(s)
  {
    if s == "" then 0 else 10 * Value(s[..|s| - 1]) + DigitValue(s[|s| - 1])
  }

  // ----- printing -----

  /** The digits of `n`, without leading zeros. */
  ghost function DecNat(n: nat): string {
    if n < 10 then [DigitChar(n)] else DecNat(n / 10) + [DigitChar(n % 10)]
  }

  ghost function Dec(n: int): string {
    if n < 0 then "-" + DecNat(-n) else DecNat(n)
  }

  lemma {:induction false} DecNatValue(n: nat)
    ensures DecNat(n) != "" && AllDigits(DecNat(n)) && Value(DecNat(n)) == n
  {
    if n >= 10 {
      DecNatValue(n / 10);
      var s := DecNat(n);
      assert s[..|s| - 1] == DecNat(n / 10);
    } else {
      assert Value("") == 0;
    }
  }

  /** Positional notation, with the characters spelled out. */
  ghost function Numeral(n: nat): string {
    (if n < 10 then "" else Numeral(n / 10)) + ["0123456789"[n % 10]]
  }

  lemma DigitCodes(d: nat)
    requires d < 10
    ensures DigitChar(d) == "0123456789"[d] == (48 + d) as char
  {
  }

  lemma {:induction false} DecNatIsNumeral(n: nat)
    ensures DecNat(n) == Numeral(n)
  {
    DigitCodes(n % 10);
    if n >= 10 { DecNatIsNumeral(n / 10); } else { assert "" + [DigitChar(n)] == [DigitChar(n)]; }
  }

  /** The decimal form of a number: a minus sign for a negative one, then the numeral of
      its magnitude. */
  lemma DecIsNumeral(n: int)
    ensures n >= 0 ==> Dec(n) == Numeral(n)
    ensures n < 0 ==> Dec(n) == "-" + Numeral(-n)
  {
    DecNatIsNumeral(if n < 0 then -n else n);
  }

  /** Printing is injective. */
  lemma DecInjective(a: int, b: int)
    requires Dec(a) == Dec(b)
    ensures a == b
  {
    DecNatValue(Abs(a));
    DecNatValue(Abs(b));
    assert Dec(a)[0] == '-' <==> a < 0;
    if a < 0 { assert Dec(a)[1..] == DecNat(-a) && Dec(b)[1..] == DecNat(-b); }
  }

  ghost function Pow10(k: nat): nat { if k == 0 then 1 else 10 * Pow10(k - 1) }

  lemma {:induction false} DecNatLength(n: nat, k: nat)
    requires k > 0 && n < Pow10(k)
    ensures |DecNat(n)| <= k
  {
    if n >= 10 {
      DecNatLength(n / 10, k - 1);
    }
  }

  /** No 32-bit magnitude needs more than ten digits. */
  lemma DigitCount(n: nat)
    requires n <= 0x8000_0000
    ensures |DecNat(n)| <= 10
  {
    assert Pow10(10) == 10 * (10 * (10 * (10 * (10 * Pow10(5))))) && Pow10(5) == 100000;
    DecNatLength(n, 10);
  }

  lemma TextLength(n: i32)
    ensures 1 <= |Dec(n as int)| <= 11
  {
    DigitCount(Abs(n as int));
    DecNatValue(Abs(n as int));
  }

  /** Writes the digits of `u` into the scratch buffer, lowest first. */
  method WriteDigits(tmp: array<char>, u: u32) returns (tlen: nat)
    requires tmp.Length == 12 && u <= 0x8000_0000
    modifies tmp
    ensures 1 <= tlen <= 10 && Reversed(tmp[..tlen]) == DecNat(u as nat)
  {
    var uval := u;
    tlen := 0;
    DigitCount(u as nat);
    ghost var rest := DecNat(uval as nat);
    var more := true;
    while more
      invariant tlen + |rest| <= 10 && rest + Reversed(tmp[..tlen]) == DecNat(u as nat)
      invariant more ==> rest == DecNat(uval as nat)
      invariant !more ==> rest == "" && tlen > 0
      decreases uval, more
    {
      DecNatValue(uval as nat);
      ghost var before := tmp[..tlen];
      var last := DigitChar((uval % 10) as nat);
      tmp[tlen] := last;
      tlen := tlen + 1;
      Appended(tmp[..tlen], before);
      SplitLast(uval as nat, rest, Reversed(before));
      uval := uval / 10;
      more := uval > 0;
      rest := rest[..|rest| - 1];
    }
  }

  lemma SplitLast(n: nat, digits: string, after: string)
    requires digits == DecNat(n)
    ensures digits != "" && digits[..|digits| - 1] + ([DigitChar(n % 10)] + after) == digits + after
    ensures digits[..|digits| - 1] == if n < 10 then "" else DecNat(n / 10)
  {
    assert digits == digits[..|digits| - 1] + [DigitChar(n % 10)];
  }

  /** Writes the decimal form of `value`, cut off at the end of the buffer. */
  method FormatI32Dec(buf: array<char>, value: i32) returns (n: nat)
    modifies buf
    ensures n == if |Dec(value as int)| < buf.Length then |Dec(value as int)| else buf.Length
    ensures forall i :: 0 <= i < n ==> buf[i] == Dec(value as int)[i]
    ensures forall i :: n <= i < buf.Length ==> buf[i] == old(buf[i])
  {
    if buf.Length == 0 { return 0; }
    var tmp := new char[12];
    var uval: u32 := if value < 0 then -(value as i64) as u32 else value as u32;
    var tlen := WriteDigits(tmp, uval);
    if value < 0 {
      ghost var before := tmp[..tlen];
      tmp[tlen] := '-';
      tlen := tlen + 1;
      Appended(tmp[..tlen], before);
    }
    n := if tlen < buf.Length then tlen else buf.Length;
    CopyReversed(buf, tmp, tlen, n, Dec(value as int));
  }

  method CopyReversed(buf: array<char>, tmp: array<char>, tlen: nat, n: nat, ghost text: string)
    requires buf != tmp && tlen <= tmp.Length && n <= tlen && n <= buf.Length
    requires Reversed(tmp[..tlen]) == text
    modifies buf
    ensures forall i :: 0 <= i < n ==> buf[i] == text[i]
    ensures forall i :: n <= i < buf.Length ==> buf[i] == old(buf[i])
  {
    for i := 0 to n
      invariant forall j :: 0 <= j < i ==> buf[j] == text[j]
      invariant forall j :: i <= j < buf.Length ==> buf[j] == old(buf[j])
    {
      assert text[i] == tmp[..tlen][tlen - 1 - i];
      buf[i] := tmp[tlen - 1 - i];
    }
  }

  lemma Appended(s: string, before: string)
    requires s != "" && s[..|s| - 1] == before
    ensures Reversed(s) == [s[|s| - 1]] + Reversed(before)
  {
  }

  // ----- parsing -----

  datatype ParseError = Blank | NotANumber | Overflow

  datatype ParseResult<+T> = Parsed(value: T) | Rejected(error: ParseError)

  predicate IsSpace(c: char) { c == ' ' || '\t' <= c <= '\r' }

  /** The first position at or after `i` that is not white space. */
  ghost function SpaceEnd(t: string, i: nat): (e: nat)
    requires i <= |t|
    ensures i <= e <= |t| && (e < |t| ==> !IsSpace(t[e]))
    ensures forall k :: i <= k < e ==> IsSpace(t[k])
    decreases |t| - i
  {
    if i < |t| && IsSpace(t[i]) then SpaceEnd(t, i + 1) else i
  }

  /** The end of the run of digits at `i`. */
  ghost function RunEnd(t: string, i: nat): (e: nat)
    requires i <= |t|
    ensures i <= e <= |t| && (e < |t| ==> !IsDigit(t[e]))
    ensures forall k :: i <= k < e ==> IsDigit(t[k])
    decreases |t| - i
  {
    if i < |t| && IsDigit(t[i]) then RunEnd(t, i + 1) else i
  }

  /** What the parser looks at: the first 63 characters. */
  ghost function Window(s: string): string {
    if |s| < PARSE_LIMIT then s else s[..PARSE_LIMIT]
  }

  ghost function Run(t: string, i: nat): (d: string)
    requires i <= |t|
    ensures AllDigits(d)
  {
    t[i..RunEnd(t, i)]
  }

  ghost function Signed(negative: bool, magnitude: nat): int {
    if negative then 0 - magnitude else magnitude
  }

  ghost function Ranged(v: int): ParseResult<int> {
    if -(INT32_MAX as int) <= v <= INT32_MAX as int then Parsed(v) else Rejected(Overflow)
  }

  ghost function Parse(s: string): ParseResult<int> {
    var t := Window(s);
    var i := SpaceEnd(t, 0);
    if i == |t| then Rejected(Blank) else ParseSigned(t, i)
  }

  /** What follows the white space. */
  ghost function ParseSigned(t: string, i: nat): ParseResult<int>
    requires i < |t|
  {
    var digits := Run(t, if t[i] == '-' || t[i] == '+' then i + 1 else i);
    if digits == "" then Rejected(NotANumber) else Ranged(Signed(t[i] == '-', Value(digits)))
  }

  lemma {:induction false} ValueGrows(s: string, k: nat)
    requires AllDigits(s) && k <= |s|
    ensures Value(s[..k]) <= Value(s)
    decreases |s|
  {
    if k == |s| {
      assert s[..k] == s;
    } else {
      assert s[..|s| - 1][..k] == s[..k];
      ValueGrows(s[..|s| - 1], k);
    }
  }

  method ParseI32(s: string) returns (r: ParseResult<i32>)
    ensures r.Parsed? ==> Parse(s) == Parsed(r.value as int)
    ensures r.Rejected? ==> Parse(s) == Rejected(r.error)
  {
    var buf := if |s| < PARSE_LIMIT then s else s[..PARSE_LIMIT];
    var len := |buf|;
    var i := 0;
    while i < len && IsSpace(buf[i])
      invariant i <= len && SpaceEnd(buf, i) == SpaceEnd(buf, 0)
    {
      i := i + 1;
    }
    if i == len { return Rejected(Blank); }
    r := ReadSigned(buf, i);
  }

  method ReadSigned(buf: string, at: nat) returns (r: ParseResult<i32>)
    requires at < |buf|
    ensures r.Parsed? ==> ParseSigned(buf, at) == Parsed(r.value as int)
    ensures r.Rejected? ==> ParseSigned(buf, at) == Rejected(r.error)
  {
    var i, sign := at, false;
    if buf[i] == '-' {
      sign := true;
      i := i + 1;
    } else if buf[i] == '+' {
      i := i + 1;
    }
    if i == |buf| || !IsDigit(buf[i]) { return Rejected(NotANumber); }
    var magnitude := ReadDigits(buf, i);
    if magnitude.Rejected? { return Rejected(Overflow); }
    return Parsed(if sign then -magnitude.value else magnitude.value);
  }

  /** Accumulates a run of digits; `val` never leaves the range of its type. */
  method ReadDigits(buf: string, start: nat) returns (r: ParseResult<i32>)
    requires start <= |buf|
    ensures r.Parsed? ==> r.value as int == Value(Run(buf, start))
    ensures r.Rejected? ==> Value(Run(buf, start)) > INT32_MAX as int
  {
    var i, val: i32 := start, 0;
    while i < |buf| && IsDigit(buf[i])
      invariant start <= i <= RunEnd(buf, start) == RunEnd(buf, i)
      invariant val >= 0 && val as int == Value(buf[start..i])
    {
      var digit := (buf[i] as int - '0' as int) as i32;
      PrefixStep(buf, start, i);
      if val > (INT32_MAX - digit) / 10 { return Rejected(Overflow); }
      val := val * 10 + digit;
      i := i + 1;
    }
    return Parsed(val);
  }

  /** One more digit: its value, and that the whole run is worth at least as much. */
  lemma PrefixStep(t: string, start: nat, i: nat)
    requires start <= i < |t| && RunEnd(t, start) == RunEnd(t, i) && IsDigit(t[i])
    ensures i < RunEnd(t, start)
    ensures Value(t[start..i + 1]) == 10 * Value(t[start..i]) + DigitValue(t[i]) <= Value(Run(t, start))
  {
    var k := i + 1 - start;
    assert t[start..i + 1][..k - 1] == t[start..i];
    assert RunEnd(t, i) >= i + 1;
    assert Run(t, start)[..k] == t[start..i + 1];
    ValueGrows(Run(t, start), k);
  }

  // ----- what parsing accepts -----

  /** `t` is white space, an optional sign, a whole run of digits, and anything after. */
  ghost predicate Splits(t: string, spaces: string, sign: string, digits: string, rest: string) {
    t == spaces + sign + digits + rest &&
    (forall i :: 0 <= i < |spaces| ==> IsSpace(spaces[i])) &&
    sign in {"", "-", "+"} && digits != "" && AllDigits(digits) &&
    (rest != "" ==> !IsDigit(rest[0]))
  }

  ghost predicate Denotes(t: string, v: int) {
    exists spaces, sign, digits, rest ::
      Splits(t, spaces, sign, digits, rest) && v == Signed(sign == "-", Value(digits))
  }

  lemma {:induction false} SpacesEndAt(t: string, i: nat, e: nat)
    requires i <= e <= |t| && (forall k :: i <= k < e ==> IsSpace(t[k])) && (e < |t| ==> !IsSpace(t[e]))
    ensures SpaceEnd(t, i) == e
    decreases e - i
  {
    if i < e { SpacesEndAt(t, i + 1, e); }
  }

  lemma {:induction false} RunEndsAt(t: string, i: nat, e: nat)
    requires i <= e <= |t| && (forall k :: i <= k < e ==> IsDigit(t[k])) && (e < |t| ==> !IsDigit(t[e]))
    ensures RunEnd(t, i) == e
    decreases e - i
  {
    if i < e { RunEndsAt(t, i + 1, e); }
  }

  /** Any such reading of the first 63 characters is the one the parser finds. */
  lemma ParseSplit(s: string, spaces: string, sign: string, digits: string, rest: string)
    requires Splits(Window(s), spaces, sign, digits, rest)
    ensures Parse(s) == Ranged(Signed(sign == "-", Value(digits)))
  {
    var t := Window(s);
    var i, j := |spaces|, |spaces| + |sign|;
    assert t[i] == (sign + digits)[0];
    SpacesEndAt(t, 0, i);
    RunEndsAt(t, j, j + |digits|);
    assert t[j..j + |digits|] == digits;
  }

  lemma ThreeCuts(t: string, i: nat, j: nat, e: nat)
    requires i <= j <= e <= |t|
    ensures t == t[..i] + t[i..j] + t[j..e] + t[e..]
  {
  }

  /** A successful parse reads such a split. */
  lemma ParsedSplit(s: string, v: int)
    requires Parse(s) == Parsed(v)
    ensures Denotes(Window(s), v)
  {
    var t := Window(s);
    var i := SpaceEnd(t, 0);
    var j := if t[i] == '-' || t[i] == '+' then i + 1 else i;
    var e := RunEnd(t, j);
    var sign := t[i..j];
    assert sign == if j == i then "" else [t[i]];
    ThreeCuts(t, i, j, e);
    assert Splits(t, t[..i], sign, Run(t, j), t[e..]);
  }

  /** Parsing succeeds exactly on texts that denote a number of magnitude at most INT32_MAX. */
  lemma ParseAccepts(s: string, v: int)
    ensures Parse(s) == Parsed(v) <==> Denotes(Window(s), v) && -(INT32_MAX as int) <= v <= INT32_MAX as int
  {
    if Parse(s) == Parsed(v) { ParsedSplit(s, v); }
    if Denotes(Window(s), v) {
      var spaces, sign, digits, rest :|
        Splits(Window(s), spaces, sign, digits, rest) && v == Signed(sign == "-", Value(digits));
      ParseSplit(s, spaces, sign, digits, rest);
    }
  }

  /** Parsing undoes printing for every 32-bit value but one. */
  lemma ParseUndoesDec(n: i32)
    ensures Parse(Dec(n as int)) == Parsed(n as int) <==> n != INT32_MIN
    ensures n == INT32_MIN ==> Parse(Dec(n as int)) == Rejected(Overflow)
  {
    var m := Abs(n as int);
    var digits, sign, text := DecNat(m), if n < 0 then "-" else "", Dec(n as int);
    assert |text| <= 11 && Value(digits) == m && AllDigits(digits) && digits != "" by {
      TextLength(n);
      DecNatValue(m);
    }
    assert Splits(text, "", sign, digits, "") by { assert text == "" + sign + digits + ""; }
    assert Parse(text) == Ranged(Signed(n < 0, m)) by { ParseSplit(text, "", sign, digits, ""); }
  }

  lemma SignedNumeral(sign: string, n: nat)
    requires sign in {"", "-", "+"} && |sign| + |DecNat(n)| <= 63
    ensures Parse(sign + DecNat(n)) == Ranged(if sign == "-" then 0 - n else n)
  {
    var d := DecNat(n);
    var s := sign + d;
    DecNatValue(n);
    assert Splits(s, "", sign, d, "") by { assert s == "" + sign + d + ""; }
    assert Window(s) == s;
    ParseSplit(s, "", sign, d, "");
  }

  /** Numerals of up to 62 digits parse as their numbers, with or without a sign, or
      overflow. */
  lemma NumeralParses(n: nat)
    requires |Numeral(n)| <= 62
    ensures var d, small := Numeral(n), n <= 0x7fff_ffff;
            Parse(d) == Parse("+" + d) == (if small then Parsed(n) else Rejected(Overflow)) &&
            Parse("-" + d) == if small then Parsed(0 - n) else Rejected(Overflow)
  {
    var d := DecNat(n);
    DecNatIsNumeral(n);
    assert "" + d == d;
    SignedNumeral("", n);
    SignedNumeral("+", n);
    SignedNumeral("-", n);
  }

  // ----- what parsing refuses -----

  /** Blank, tab, line feed, vertical tab, form feed and carriage return. */
  ghost predicate Blanks(t: string) { forall i :: 0 <= i < |t| ==> t[i] as int in {9, 10, 11, 12, 13, 32} }

  /** The first 63 characters. */
  ghost function Front(s: string): string { if |s| <= 63 then s else s[..63] }

  /** What comes after white space and perhaps a sign, is there and is no digit. */
  ghost predicate LacksDigits(t: string, i: nat) {
    i < |t| && Blanks(t[..i]) && t[i] as int !in {9, 10, 11, 12, 13, 32} &&
    var j := if t[i] == '-' || t[i] == '+' then i + 1 else i;
    j == |t| || !('0' <= t[j] <= '9')
  }

  /** A text is blank when its front is all white space, and not a number when something
      else than digits follows the white space and the sign; otherwise it denotes a number,
      which may be out of range. */
  lemma ParseRefuses(s: string)
    ensures Parse(s) == Rejected(Blank) <==> Blanks(Front(s))
    ensures Parse(s) == Rejected(NotANumber) <==> exists i: nat :: LacksDigits(Front(s), i)
  {
    var t := Front(s);
    assert t == Window(s);
    var e := SpaceEnd(t, 0);
    assert Blanks(t[..e]);
    if e < |t| {
      var j := if t[e] == '-' || t[e] == '+' then e + 1 else e;
      assert Run(t, j) == "" <==> RunEnd(t, j) == j;
      forall i: nat | LacksDigits(t, i) ensures i == e {
        forall k | 0 <= k < i ensures IsSpace(t[k]) { assert t[..i][k] == t[k]; }
        SpacesEndAt(t, 0, i);
      }
      assert Run(t, j) == "" <==> LacksDigits(t, e);
    } else {
      assert t[..e] == t;
    }
  }
}
