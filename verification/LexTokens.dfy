/**
 Which tokens a text is read as, in terms of its characters alone: words, numbers,
 operators, strings with escapes and embedded expressions, white space and comments.
 */
module LexTokens {
  import opened LexSpec
  import opened Wrappers
  import Decimal

  // ----- sources of one token -----

  /** Nothing but the end of the file. */
  ghost function AtEnd(s: string): Reading {
    Reading([Token(Eof, SpanAt(s, |s|))], [Extent(|s|, |s|)], None)
  }

  /** The source is one token, and the end of the file. */
  ghost predicate OneToken(s: string, kind: TokenKind) {
    Read(s, 0, []) == Cons(Token(kind, Span(1, 1)), Extent(0, |s|), AtEnd(s))
  }

  ghost predicate NoToken(s: string) { Read(s, 0, []) == AtEnd(s) }

  ghost predicate OneError(s: string, at: nat, reason: Reason) {
    Read(s, 0, []) == Reading([], [], Some(Failure(at, reason)))
  }

  /** What the lexer returns for a reading. */
  lemma TokensOfReading(s: string, r: Reading)
    requires Read(s, 0, []) == r
    ensures r.failure.None? ==> Tokens(s, 0, []) == Ok(r.tokens)
    ensures r.failure.Some? ==> Tokens(s, 0, []) == Err(LexError(SpanAt(s, r.failure.value.at), r.failure.value.reason))
  {
  }

  lemma ReadsOn(s: string, p: nat, modes: seq<Mode>, next: Lexed)
    requires p <= |s| && next == Next(s, p, modes)
    ensures Read(s, p, modes) == ReadOn(s, p, next)
  {
  }

  /** One token, then the others. */
  lemma ReadsOne(s: string, p: nat, modes: seq<Mode>, next: Lexed, rest: Reading)
    requires p <= |s| && next == Next(s, p, modes) && next.Lexed? && !next.kind.Eof?
    requires Read(s, next.end, next.modes) == rest
    ensures Read(s, p, modes) == Cons(Token(next.kind, SpanAt(s, next.start)), Extent(next.start, next.end), rest)
  {
    ReadsOn(s, p, modes, next);
  }

  lemma ReadsEof(s: string, p: nat)
    requires p <= |s| && Trivia(s, p) == Ok(|s|)
    ensures Read(s, p, []) == AtEnd(s)
  {
    ReadsOn(s, p, [], Lexed(Eof, |s|, |s|, []));
  }

  lemma ReadsFailed(s: string, p: nat, modes: seq<Mode>, at: nat, reason: Reason)
    requires p <= |s| && Next(s, p, modes) == Failed(at, reason)
    ensures Read(s, p, modes) == Reading([], [], Some(Failure(at, reason)))
  {
    ReadsOn(s, p, modes, Failed(at, reason));
  }

  lemma IsOneToken(s: string, kind: TokenKind)
    requires Next(s, 0, []) == Lexed(kind, 0, |s|, []) && !kind.Eof?
    ensures OneToken(s, kind)
  {
    assert Trivia(s, |s|) == Ok(|s|);
    ReadsEof(s, |s|);
    ReadsOne(s, 0, [], Lexed(kind, 0, |s|, []), AtEnd(s));
  }

  // ----- white space and comments -----

  /** All white space is skipped, and nothing else: blank, tab, line feed, form feed and
      carriage return. */
  lemma {:induction false} SpaceEndIsLast(s: string, p: nat)
    requires p <= |s|
    ensures forall k :: p <= k < SpaceEnd(s, p) ==> s[k] as int in {32, 9, 10, 12, 13}
    ensures SpaceEnd(s, p) < |s| ==> s[SpaceEnd(s, p)] as int !in {32, 9, 10, 12, 13}
    decreases |s| - p
  {
    if p < |s| && IsSpace(s[p]) { SpaceEndIsLast(s, p + 1); }
  }

  /** A line comment goes up to the first line feed. */
  lemma {:induction false} LineEndIsFirst(s: string, p: nat)
    requires p <= |s|
    ensures (10 as char) !in s[p..LineEnd(s, p)] && (LineEnd(s, p) < |s| ==> s[LineEnd(s, p)] == 10 as char)
    decreases |s| - p
  {
    var e := LineEnd(s, p);
    if p < |s| && s[p] != '\n' {
      LineEndIsFirst(s, p + 1);
      assert s[p..e] == [s[p]] + s[p + 1..e];
    }
  }

  ghost predicate ClosesAt(s: string, k: nat) { k + 1 < |s| && s[k] == '*' && s[k + 1] == '/' }

  /** A block comment goes up to the first star with a slash after it. */
  lemma {:induction false} CommentEndIsFirst(s: string, p: nat)
    requires p <= |s|
    ensures var e := CommentEnd(s, p);
            if e.Some? then
              p + 2 <= e.value && ClosesAt(s, e.value - 2) && forall k: nat :: p <= k < e.value - 2 ==> !ClosesAt(s, k)
            else forall k: nat :: p <= k ==> !ClosesAt(s, k)
    decreases |s| - p
  {
    if p + 1 < |s| && !ClosesAt(s, p) { CommentEndIsFirst(s, p + 1); }
  }

  /** Neither white space nor a comment begins here. */
  ghost predicate Solid(s: string, p: nat) {
    p < |s| && s[p] as int !in {32, 9, 10, 12, 13} &&
    !(s[p] == '/' && p + 1 < |s| && (s[p + 1] == '/' || s[p + 1] == '*'))
  }

  lemma SolidStays(s: string, p: nat)
    requires Solid(s, p)
    ensures Trivia(s, p) == Ok(p)
  {
  }

  /** A source of one line comment has no token. */
  lemma LineComment(t: string)
    requires (10 as char) !in t
    ensures NoToken("//" + t)
  {
    var s := "//" + t;
    LineEndIsFirst(s, 2);
    assert forall k :: 2 <= k < |s| ==> s[k] == t[k - 2];
    assert s[0] == '/' && s[1] == '/';
    assert Trivia(s, |s|) == Ok(|s|);
    ReadsEof(s, 0);
  }

  /** A block comment is skipped as a whole when its end is the first one. */
  lemma BlockComment(t: string)
    requires forall k: nat :: k < |t| ==> !ClosesAt(t + "*/", k)
    ensures NoToken("/*" + t + "*/")
  {
    var s := "/*" + t + "*/";
    assert s[2..] == t + "*/";
    CommentEndIsFirst(s, 2);
    assert ClosesAt(s, |t| + 2);
    assert forall k: nat :: k >= 2 && ClosesAt(s, k) ==> ClosesAt(t + "*/", k - 2);
    assert Trivia(s, |s|) == Ok(|s|);
    ReadsEof(s, 0);
  }

  /** Without an end it is an error just past its opening. */
  lemma OpenComment(t: string)
    requires forall k: nat :: !ClosesAt(t, k)
    ensures OneError("/*" + t, 2, UnterminatedComment)
  {
    var s := "/*" + t;
    CommentEndIsFirst(s, 2);
    forall k: nat | k >= 2 ensures !ClosesAt(s, k) { assert !ClosesAt(t, k - 2); }
    assert Trivia(s, 0) == Err(2);
    ReadsFailed(s, 0, [], 2, UnterminatedComment);
  }

  // ----- words -----

  ghost predicate Letter(c: char) { 'a' <= c <= 'z' || 'A' <= c <= 'Z' }

  ghost predicate Digit(c: char) { '0' <= c <= '9' }

  ghost predicate InWord(c: char) { Letter(c) || Digit(c) || c == '_' }

  lemma {:induction false} WordEndsAt(s: string, p: nat, e: nat)
    requires p <= e <= |s| && (forall k :: p <= k < e ==> InWord(s[k])) && (e < |s| ==> !InWord(s[e]))
    ensures WordEnd(s, p) == e
    decreases e - p
  {
    if p < e { WordEndsAt(s, p + 1, e); }
  }

  /** The keywords are these 25, the underscore is a token of its own, and every other word
      is an identifier. */
  ghost function KindOfWord(w: string): TokenKind {
    if w in {"fn", "let", "mut", "struct", "enum", "if", "else", "while", "for", "in", "match", "return", "try",
             "extern", "as", "and", "or", "not", "true", "false", "break", "continue", "use", "defer", "arena"}
    then Keyword(w)
    else if w == "_" then Underscore
    else Ident(w)
  }

  /** Letters, digits and underscores, no digit first. */
  ghost predicate Word(w: string) { w != "" && (forall k :: 0 <= k < |w| ==> InWord(w[k])) && !Digit(w[0]) }

  lemma WordToken(w: string)
    requires Word(w)
    ensures OneToken(w, KindOfWord(w))
  {
    SolidStays(w, 0);
    WordEndsAt(w, 0, |w|);
    assert w[0..|w|] == w;
    IsOneToken(w, KindOfWord(w));
  }

  lemma FnBang()
    ensures OneToken("fn!", Keyword("fn!"))
  {
    var s := "fn!";
    SolidStays(s, 0);
    WordEndsAt(s, 0, 2);
    assert s[0..2] == "fn";
    IsOneToken(s, Keyword("fn!"));
  }

  // ----- words in any source -----

  ghost predicate Joins(c: char) { Letter(c) || c == '_' }

  ghost predicate IsWordToken(kind: TokenKind) { kind.Keyword? || kind.Ident? || kind.Underscore? }

  /** A word token is the text at its place, as long as possible to the right; to the left it
      may only touch the last digit of a number.  `fn!` is the one with another character. */
  ghost predicate WholeWord(s: string, kind: TokenKind, x: Extent) {
    IsWordToken(kind) ==>
      x.start < x.end <= |s| && (x.start == 0 || !Joins(s[x.start - 1])) &&
      if kind == Keyword("fn!") then s[x.start..x.end] == "fn!"
      else Word(s[x.start..x.end]) && kind == KindOfWord(s[x.start..x.end]) && (x.end < |s| ==> !InWord(s[x.end]))
  }

  /** No word goes on at this place. */
  ghost predicate Between(s: string, p: nat) {
    0 < p < |s| ==> !Joins(s[p - 1]) || !InWord(s[p])
  }

  lemma {:induction false} TriviaSeparates(s: string, p: nat)
    requires p <= |s| && Between(s, p) && Trivia(s, p).Ok?
    ensures Between(s, Trivia(s, p).value)
    decreases |s| - p
  {
    SpaceEndIsLast(s, p);
    var q := SpaceEnd(s, p);
    if StartsWith2(s, q, '/', '/') {
      LineEndIsFirst(s, q + 2);
      TriviaSeparates(s, LineEnd(s, q + 2));
    } else if StartsWith2(s, q, '/', '*') {
      CommentEndIsFirst(s, q + 2);
      TriviaSeparates(s, CommentEnd(s, q + 2).value);
    }
  }

  lemma {:induction false} WordEndIsLast(s: string, p: nat)
    requires p <= |s|
    ensures forall k :: p <= k < WordEnd(s, p) ==> InWord(s[k])
    ensures WordEnd(s, p) < |s| ==> !InWord(s[WordEnd(s, p)])
    decreases |s| - p
  {
    if p < |s| && InWord(s[p]) { WordEndIsLast(s, p + 1); }
  }

  lemma WordIsWhole(s: string, q: nat, modes: seq<Mode>)
    requires q < |s| && InWord(s[q]) && !Digit(s[q]) && Between(s, q)
    ensures var r := LexSpec.Word(s, q, modes);
            r.Lexed? && WholeWord(s, r.kind, Extent(r.start, r.end)) && Between(s, r.end)
  {
    WordEndIsLast(s, q);
    var e := WordEnd(s, q);
    assert forall k :: 0 <= k < e - q ==> s[q..e][k] == s[q + k];
    if s[q..e] == "fn" && e < |s| && s[e] == '!' { assert s[q..e + 1] == s[q..e] + [s[e]]; }
  }

  /** What the next token leaves behind. */
  ghost predicate Separates(s: string, r: Lexed) {
    r.Lexed? ==> r.end <= |s| && Between(s, r.end) && WholeWord(s, r.kind, Extent(r.start, r.end))
  }

  lemma StringSeparates(s: string, start: nat, p: nat, modes: seq<Mode>, initial: bool)
    requires start <= p <= |s| && (initial || modes != [])
    ensures Separates(s, StringPart(s, start, p, modes, initial))
  {
    SegmentEnds(s, p, "");
  }

  /** A segment ends with a quote or an opening brace. */
  lemma {:induction false} SegmentEnds(s: string, p: nat, text: string)
    requires p <= |s|
    ensures var r := SegmentAt(s, p, text);
            (r.Closed? ==> s[r.end - 1] == '"') && (r.Opened? ==> s[r.end - 1] == '{')
    decreases |s| - p
  {
    if p == |s| || s[p] == '\n' || s[p] == '"' {
    } else if s[p] == '\\' {
      if p + 1 < |s| && Unescape(s[p + 1]).Some? { SegmentEnds(s, p + 2, text + [Unescape(s[p + 1]).value]); }
    } else if (s[p] == '{' || s[p] == '}') && p + 1 < |s| && s[p + 1] == s[p] {
      SegmentEnds(s, p + 2, text + [s[p]]);
    } else if s[p] != '{' && s[p] != '}' {
      SegmentEnds(s, p + 1, text + [s[p]]);
    }
  }

  lemma NumberSeparates(s: string, p: nat, modes: seq<Mode>)
    requires p < |s| && Digit(s[p])
    ensures Separates(s, Number(s, p, modes))
  {
    var r := Number(s, p, modes);
    if r.Lexed? { assert Decimal.IsDigit(s[r.end - 1]); }
  }

  lemma NormalSeparates(s: string, q: nat, modes: seq<Mode>)
    requires q <= |s| && Between(s, q)
    ensures Separates(s, NormalAt(s, q, modes))
  {
    if q < |s| {
      if s[q] == '"' {
        StringSeparates(s, q, q + 1, modes, true);
      } else if Digit(s[q]) {
        NumberSeparates(s, q, modes);
      } else if InWord(s[q]) {
        WordIsWhole(s, q, modes);
      }
    }
  }

  lemma NextSeparates(s: string, p: nat, modes: seq<Mode>)
    requires p <= |s| && BetweenTokens(modes) && Between(s, p)
    ensures Separates(s, Next(s, p, modes))
  {
    var t := Trivia(s, p);
    if t.Ok? {
      var q := t.value;
      TriviaSeparates(s, p);
      if modes == [] {
        NormalSeparates(s, q, modes);
      } else {
        NextEmbedded(s, p, modes, q);
        EmbeddedSeparates(s, q, modes);
      }
    }
  }

  lemma EmbeddedSeparates(s: string, q: nat, modes: seq<Mode>)
    requires q <= |s| && BetweenTokens(modes) && modes != [] && Between(s, q)
    ensures Separates(s, Embedded(s, q, modes))
  {
    var top := modes[|modes| - 1];
    if q < |s| && s[q] == '}' && top.braceDepth == 0 {
      StringSeparates(s, q + 1, q + 1, modes[..|modes| - 1], false);
    } else if q < |s| && s[q] != '{' && s[q] != '}' {
      NormalSeparates(s, q, modes);
    }
  }

  ghost predicate AllWhole(s: string, r: Reading) {
    |r.tokens| == |r.extents| && forall i :: 0 <= i < |r.tokens| ==> WholeWord(s, r.tokens[i].kind, r.extents[i])
  }

  lemma WholeCons(s: string, t: Token, x: Extent, r: Reading)
    requires AllWhole(s, r) && WholeWord(s, t.kind, x)
    ensures AllWhole(s, Cons(t, x, r))
  {
  }

  lemma {:induction false} ReadWhole(s: string, p: nat, modes: seq<Mode>)
    requires p <= |s| && BetweenTokens(modes) && Between(s, p)
    ensures AllWhole(s, Read(s, p, modes))
    decreases |s| - p, 1
  {
    NextKeepsModes(s, p, modes);
    NextSeparates(s, p, modes);
    ReadOnWhole(s, p, modes, Next(s, p, modes));
  }

  lemma {:induction false} ReadOnWhole(s: string, p: nat, modes: seq<Mode>, next: Lexed)
    requires p <= |s| && Advances(s, p, next) && KeepsModes(modes, next) && Separates(s, next)
    ensures AllWhole(s, ReadOn(s, p, next))
    decreases |s| - p, 0
  {
    if next.Lexed? && !next.kind.Eof? {
      ReadWhole(s, next.end, next.modes);
      WholeCons(s, Token(next.kind, SpanAt(s, next.start)), Extent(next.start, next.end),
                Read(s, next.end, next.modes));
    }
  }

  /** In any source, up to its end or first error, every word is whole. */
  lemma WordsAreWhole(s: string)
    ensures AllWhole(s, Read(s, 0, []))
  {
    ReadWhole(s, 0, []);
  }

  lemma OneThenA()
    ensures Next("1a", 0, []) == Lexed(IntLit(1), 0, 1, []) && Next("1a", 1, []) == Lexed(Ident("a"), 1, 2, [])
  {
    var s := "1a";
    Decimal.RunEndsAt(s, 0, 1);
    assert s[0..1] == "1" && Decimal.Value("1") == 1 by { assert "1"[..0] == "" && Decimal.DigitValue('1') == 1; }
    SolidStays(s, 0);
    assert Next(s, 0, []) == AfterDigits(s, 0, 1, []);
    SolidStays(s, 1);
    WordEndsAt(s, 1, 2);
    assert s[1..2] == "a";
  }

  /** A word right after a number is a token of its own. */
  lemma WordAfterNumber()
    ensures Tokens("1a", 0, []) ==
            Ok([Token(IntLit(1), Span(1, 1)), Token(Ident("a"), Span(1, 2)), Token(Eof, Span(1, 3))])
  {
    var s := "1a";
    OneThenA();
    assert Trivia(s, 2) == Ok(2);
    ReadsEof(s, 2);
    assert SpanAt(s, 1) == Span(1, 2) && SpanAt(s, 2) == Span(1, 3);
    var one, a, eof := Token(IntLit(1), Span(1, 1)), Token(Ident("a"), Span(1, 2)), Token(Eof, Span(1, 3));
    var word := Cons(a, Extent(1, 2), AtEnd(s));
    ReadsOne(s, 1, [], Lexed(Ident("a"), 1, 2, []), AtEnd(s));
    ReadsOne(s, 0, [], Lexed(IntLit(1), 0, 1, []), word);
    TokensOfReading(s, Cons(one, Extent(0, 1), word));
    assert [one] + ([a] + [eof]) == [one, a, eof];
  }

  // ----- operators and punctuation -----

  const PAIRS: set<string> :=
    {"+=", "-=", "*=", "/=", "%=", "==", "!=", "<=", ">=", "->", "=>", "::", ".."}

  const MARKS: set<string> :=
    {"+", "-", "*", "/", "%", "=", "<", ">", "{", "}", "(", ")", "[", "]", ",", ":", ";", "."}

  lemma PairTexts(a: char, b: char)
    ensures IsPair(a, b) <==> [a, b] in PAIRS
  {
    assert "+=" == ['+', '='] && "-=" == ['-', '='] && "*=" == ['*', '='] && "/=" == ['/', '='] && "%=" == ['%', '='];
    assert "==" == ['=', '='] && "!=" == ['!', '='] && "<=" == ['<', '='] && ">=" == ['>', '='];
    assert "->" == ['-', '>'] && "=>" == ['=', '>'] && "::" == [':', ':'] && ".." == ['.', '.'];
  }

  lemma MarkTexts(c: char)
    ensures IsMark(c) <==> [c] in MARKS
  {
    if [c] in MARKS { assert [c][0] == c; }
  }

  /** Where no other token begins, the longest operator is read, or the character is an error. */
  lemma OperatorAt(s: string, q: nat, modes: seq<Mode>)
    requires Solid(s, q) && !InWord(s[q]) && s[q] != '"'
    ensures NormalAt(s, q, modes) ==
            if q + 1 < |s| && s[q..q + 2] in PAIRS then Lexed(Punct(s[q..q + 2]), q, q + 2, modes)
            else if [s[q]] in MARKS then Lexed(Punct([s[q]]), q, q + 1, modes)
            else Failed(q, UnexpectedChar(s[q]))
  {
    if q + 1 < |s| {
      PairTexts(s[q], s[q + 1]);
      assert s[q..q + 2] == [s[q], s[q + 1]];
    }
    MarkTexts(s[q]);
  }

  lemma OperatorToken(op: string)
    requires op in PAIRS + MARKS
    ensures OneToken(op, Punct(op))
  {
    SolidStays(op, 0);
    OperatorAt(op, 0, []);
    if |op| == 2 { assert op[0..2] == op; } else { assert [op[0]] == op; }
    IsOneToken(op, Punct(op));
  }

  /** Every source of one character. */
  lemma OneCharacter(c: char)
    ensures Letter(c) ==> OneToken([c], Ident([c]))
    ensures c == '_' ==> OneToken([c], Underscore)
    ensures Digit(c) ==> OneToken([c], IntLit(c as int - 48))
    ensures [c] in MARKS ==> OneToken([c], Punct([c]))
    ensures c as int in {32, 9, 10, 12, 13} ==> NoToken([c])
    ensures c == '"' ==> OneError([c], 0, UnterminatedString)
    ensures !InWord(c) && [c] !in MARKS && c as int !in {32, 9, 10, 12, 13, 34} ==> OneError([c], 0, UnexpectedChar(c))
  {
    var s := [c];
    if c as int in {32, 9, 10, 12, 13} {
      ReadsEof(s, 0);
    } else if Digit(c) {
      OneDigit(c);
    } else {
      SolidStays(s, 0);
      if InWord(c) {
        WordToken(s);
      } else if c == '"' {
        ReadsFailed(s, 0, [], 0, UnterminatedString);
      } else {
        OperatorAt(s, 0, []);
        if s in MARKS { OperatorToken(s); } else { ReadsFailed(s, 0, [], 0, UnexpectedChar(c)); }
      }
    }
  }

  // ----- numbers -----

  lemma OneDigit(c: char)
    requires Digit(c)
    ensures OneToken([c], IntLit(c as int - 48))
  {
    var n := c as int - 48;
    Decimal.DigitCodes(n);
    assert Decimal.Numeral(n) == "" + [c] == [c];
    IntegerToken(n);
  }

  /** A numeral is a run of digits that is worth its number and has no leading zero. */
  lemma {:induction false} NumeralDigits(n: nat)
    ensures var d := Decimal.Numeral(n);
            d != "" && Decimal.AllDigits(d) && Decimal.Value(d) == n && (d[0] == '0' ==> n == 0 && |d| == 1)
  {
    Decimal.DecNatIsNumeral(n);
    Decimal.DecNatValue(n);
    if n >= 10 { NumeralDigits(n / 10); }
  }

  /** A run of digits at the beginning of a source. */
  lemma StartRun(s: string, d: string)
    requires d <= s && d != "" && Decimal.AllDigits(d) && (|d| < |s| ==> !Decimal.IsDigit(s[|d|]))
    ensures Trivia(s, 0) == Ok(0) && Decimal.RunEnd(s, 0) == |d| && Decimal.Run(s, 0) == d
  {
    assert forall k :: 0 <= k < |d| ==> s[k] == d[k];
    Decimal.RunEndsAt(s, 0, |d|);
    SolidStays(s, 0);
    assert s[0..|d|] == d;
  }

  /** The decimal form of a number is read as that number, up to the largest 64-bit integer. */
  lemma IntegerToken(n: nat)
    ensures n <= 0x7fff_ffff_ffff_ffff ==> OneToken(Decimal.Numeral(n), IntLit(n))
    ensures n > 0x7fff_ffff_ffff_ffff ==>
              OneError(Decimal.Numeral(n), 0, IntTooLarge(Decimal.Numeral(n)))
  {
    var s := Decimal.Numeral(n);
    NumeralDigits(n);
    StartRun(s, s);
    assert Next(s, 0, []) == AfterDigits(s, 0, |s|, []);
    if n <= 0x7fff_ffff_ffff_ffff {
      IsOneToken(s, IntLit(n));
    } else {
      ReadsFailed(s, 0, [], 0, IntTooLarge(s));
    }
  }

  lemma LeadingZeroError(d: string)
    requires |d| > 1 && d[0] == '0' && Digit(d[1])
    ensures OneError(d, 0, LeadingZero)
  {
    SolidStays(d, 0);
    ReadsFailed(d, 0, [], 0, LeadingZero);
  }

  /** A point with a digit after it belongs to the number. */
  lemma FractionToken(n: nat, f: string)
    requires f != "" && forall k :: 0 <= k < |f| ==> Digit(f[k])
    ensures OneToken(Decimal.Numeral(n) + "." + f, FloatLit(Decimal.Numeral(n) + "." + f))
  {
    var d := Decimal.Numeral(n);
    var s := d + "." + f;
    NumeralDigits(n);
    StartRun(s, d);
    assert s[|d|] == '.' && s[|d| + 1] == f[0];
    assert forall k :: |d| + 1 <= k < |s| ==> s[k] == f[k - |d| - 1];
    Decimal.RunEndsAt(s, |d| + 1, |s|);
    assert s[0..|s|] == s;
    assert Next(s, 0, []) == AfterDigits(s, 0, |d|, []);
    IsOneToken(s, FloatLit(s));
  }

  /** A point without one does not. */
  lemma PointAfterInteger(n: nat)
    requires n <= 0x7fff_ffff_ffff_ffff
    ensures var s := Decimal.Numeral(n) + ".";
            Tokens(s, 0, []) == Ok([Token(IntLit(n), Span(1, 1)), Token(Punct("."), SpanAt(s, |s| - 1)),
                                    Token(Eof, SpanAt(s, |s|))])
  {
    var d := Decimal.Numeral(n);
    var s := d + ".";
    NumeralDigits(n);
    StartRun(s, d);
    assert Next(s, 0, []) == AfterDigits(s, 0, |d|, []) == Lexed(IntLit(n), 0, |d|, []);
    assert Trivia(s, |s|) == Ok(|s|);
    ReadsEof(s, |s|);
    SolidStays(s, |d|);
    OperatorAt(s, |d|, []);
    var point := Cons(Token(Punct("."), SpanAt(s, |d|)), Extent(|d|, |s|), AtEnd(s));
    ReadsOne(s, |d|, [], Lexed(Punct("."), |d|, |s|, []), AtEnd(s));
    ReadsOne(s, 0, [], Lexed(IntLit(n), 0, |d|, []), point);
    var r := Cons(Token(IntLit(n), Span(1, 1)), Extent(0, |d|), point);
    TokensOfReading(s, r);
    assert r.tokens == [Token(IntLit(n), Span(1, 1)), Token(Punct("."), SpanAt(s, |d|)), Token(Eof, SpanAt(s, |s|))];
  }

  // ----- strings -----

  /** A string of one character that stands for itself, and the two that cannot. */
  lemma PlainCharacter(c: char)
    ensures c as int !in {10, 34, 92, 123, 125} ==> OneToken(['"', c, '"'], StringLit([c]))
    ensures c == 10 as char ==> OneError(['"', c, '"'], 0, UnterminatedString)
    ensures c == '}' ==> OneError(['"', c, '"'], 0, LoneClosingBrace)
  {
    var s := ['"', c, '"'];
    SolidStays(s, 0);
    if c as int !in {10, 34, 92, 123, 125} {
      assert SegmentAt(s, 1, "") == SegmentAt(s, 2, "" + [c]) == Closed([c], 3);
      IsOneToken(s, StringLit([c]));
    } else if c == 10 as char {
      ReadsFailed(s, 0, [], 0, UnterminatedString);
    } else if c == '}' {
      ReadsFailed(s, 0, [], 0, LoneClosingBrace);
    }
  }

  lemma DoubledBrace(c: char)
    requires c == '{' || c == '}'
    ensures OneToken(['"', c, c, '"'], StringLit([c]))
  {
    var s := ['"', c, c, '"'];
    SolidStays(s, 0);
    assert SegmentAt(s, 1, "") == SegmentAt(s, 3, "" + [c]) == Closed([c], 4);
    IsOneToken(s, StringLit([c]));
  }

  /** The character codes of the escapes; every other character after a backslash is an error. */
  lemma EscapeCodes(c: char)
    ensures var s := ['"', '\\', c, '"'];
            match c
            case 'n' => OneToken(s, StringLit([10 as char]))
            case 't' => OneToken(s, StringLit([9 as char]))
            case 'r' => OneToken(s, StringLit([13 as char]))
            case '\\' => OneToken(s, StringLit([92 as char]))
            case '"' => OneToken(s, StringLit([34 as char]))
            case '0' => OneToken(s, StringLit([0 as char]))
            case _ => OneError(s, 2, InvalidEscape(c)) && SpanAt(s, 2) == Span(1, 3)
  {
    var s := ['"', '\\', c, '"'];
    SolidStays(s, 0);
    if Unescape(c).Some? {
      var d := Unescape(c).value;
      assert SegmentAt(s, 1, "") == SegmentAt(s, 3, "" + [d]) == Closed([d], 4);
      IsOneToken(s, StringLit([d]));
    } else {
      assert SegmentAt(s, 1, "") == BadEscape(2, InvalidEscape(c));
      ReadsFailed(s, 0, [], 2, InvalidEscape(c));
      assert SpanAt(s, 1) == Span(1, 2);
    }
  }

  ghost function Embedding(w: string): string { "\"{" + w + "}\"" }

  /** Inside the only embedded expression of a string. */
  const INSIDE: seq<Mode> := [StringContinuation] + [Interpolation(0)]

  lemma EmbeddingStarts(w: string)
    requires Word(w)
    ensures Next(Embedding(w), 0, []) == Lexed(InterpStart(""), 0, 2, INSIDE)
  {
    var s := Embedding(w);
    assert s[2] == w[0];
    SolidStays(s, 0);
    assert SegmentAt(s, 1, "") == Opened("", 2);
    assert [] + INSIDE == INSIDE;
  }

  lemma EmbeddingGoesOn(w: string)
    requires Word(w)
    ensures Next(Embedding(w), 2, INSIDE) == Lexed(KindOfWord(w), 2, |w| + 2, INSIDE)
  {
    var s, e := Embedding(w), |w| + 2;
    assert s[2..e] == w && s[e] == '}';
    assert forall k :: 2 <= k < e ==> s[k] == w[k - 2];
    WordEndsAt(s, 2, e);
    SolidStays(s, 2);
    NextEmbedded(s, 2, INSIDE, 2);
    assert NormalAt(s, 2, INSIDE) == Lexed(KindOfWord(w), 2, e, INSIDE);
  }

  /** A brace, then a quote: the expression and its string end. */
  lemma ClosesBoth(s: string, e: nat)
    requires e + 2 == |s| && s[e] == '}' && s[e + 1] == '"' && Trivia(s, e) == Ok(e)
    ensures Next(s, e, INSIDE) == Lexed(InterpEnd(""), e + 1, |s|, [])
  {
    NextEmbedded(s, e, INSIDE, e);
    assert INSIDE[..1] == [StringContinuation] && [StringContinuation][..0] == [];
    assert SegmentAt(s, e + 1, "") == Closed("", |s|);
  }

  lemma EmbeddingEnds(w: string)
    requires Word(w)
    ensures Next(Embedding(w), |w| + 2, INSIDE) == Lexed(InterpEnd(""), |w| + 3, |w| + 4, [])
  {
    var s, e := Embedding(w), |w| + 2;
    assert s[e] == '}' && s[e + 1] == '"' && |s| == e + 2;
    SolidStays(s, e);
    ClosesBoth(s, e);
  }

  /** A word between braces is an embedded expression. */
  lemma EmbeddedWord(w: string)
    requires Word(w)
    ensures var s := Embedding(w);
            Tokens(s, 0, []) == Ok([Token(InterpStart(""), Span(1, 1)), Token(KindOfWord(w), SpanAt(s, 2)),
                                    Token(InterpEnd(""), SpanAt(s, |w| + 3)), Token(Eof, SpanAt(s, |s|))])
  {
    var s, e := Embedding(w), |w| + 2;
    EmbeddingStarts(w);
    EmbeddingGoesOn(w);
    EmbeddingEnds(w);
    assert Trivia(s, |s|) == Ok(|s|);
    ReadsEof(s, |s|);
    var start, word := Token(InterpStart(""), Span(1, 1)), Token(KindOfWord(w), SpanAt(s, 2));
    var end, eof := Token(InterpEnd(""), SpanAt(s, e + 1)), Token(Eof, SpanAt(s, |s|));
    var r3 := Cons(end, Extent(e + 1, |s|), AtEnd(s));
    ReadsOne(s, e, INSIDE, Lexed(InterpEnd(""), e + 1, |s|, []), AtEnd(s));
    var r2 := Cons(word, Extent(2, e), r3);
    ReadsOne(s, 2, INSIDE, Lexed(KindOfWord(w), 2, e, INSIDE), r3);
    ReadsOne(s, 0, [], Lexed(InterpStart(""), 0, 2, INSIDE), r2);
    TokensOfReading(s, Cons(start, Extent(0, 2), r2));
    assert [start] + ([word] + ([end] + [eof])) == [start, word, end, eof];
  }
}
