/**
 What the lexer computes, as functions of the source text: trivia, string segments with
 escapes and interpolation, numbers, words, operators, and one token at a time.
 */
module LexSpec {
  import opened Wrappers
  import CheckedArith
  import Decimal

  const I64_MAX: int := CheckedArith.INT64_MAX as int

  datatype Span = Span(line: nat, column: nat)

  datatype TokenKind =
    | Keyword(text: string)
    | Ident(text: string)
    | Underscore
    | Punct(text: string)
    | IntLit(value: int)
    | FloatLit(text: string)
    | StringLit(text: string)
    | InterpStart(text: string)
    | InterpMiddle(text: string)
    | InterpEnd(text: string)
    | Eof

  datatype Token = Token(kind: TokenKind, span: Span)

  datatype Reason =
    | UnterminatedComment
    | UnterminatedString
    | InvalidEscape(c: char)
    | LoneClosingBrace
    | LeadingZero
    | IntTooLarge(text: string)
    | UnexpectedChar(c: char)

  datatype LexError = LexError(span: Span, reason: Reason)

  /** Inside an interpolated string: in its text, or in an embedded expression. */
  datatype Mode = StringContinuation | Interpolation(braceDepth: nat)

  // ----- source positions -----

  /** Line and column of a position, both counted from 1. */
  ghost function SpanAt(s: string, p: nat): Span
    requires p <= |s|
  {
    if p == 0 then Span(1, 1)
    else
      var before := SpanAt(s, p - 1);
      if s[p - 1] == '\n' then Span(before.line + 1, 1) else Span(before.line, before.column + 1)
  }

  /** The line is one more than the number of line ends before the position, and the column
      counts from the start of that line. */
  lemma {:induction false} SpanMeaning(s: string, p: nat) returns (lineStart: nat)
    requires p <= |s|
    ensures SpanAt(s, p).line == 1 + multiset(s[..p])['\n']
    ensures lineStart <= p && (lineStart == 0 || s[lineStart - 1] == '\n') && '\n' !in s[lineStart..p]
    ensures SpanAt(s, p).column == 1 + p - lineStart
  {
    if p == 0 {
      lineStart := 0;
    } else {
      lineStart := SpanMeaning(s, p - 1);
      assert s[..p] == s[..p - 1] + [s[p - 1]];
      if s[p - 1] == '\n' {
        lineStart := p;
      } else {
        assert s[lineStart..p] == s[lineStart..p - 1] + [s[p - 1]];
      }
    }
  }

  // ----- white space and comments -----

  predicate IsSpace(c: char) { c == ' ' || c == '\t' || c == '\n' || c == '\r' || c == 12 as char }

  ghost function SpaceEnd(s: string, p: nat): (e: nat)
    requires p <= |s|
    ensures p <= e <= |s| && (e < |s| ==> !IsSpace(s[e]))
    decreases |s| - p
  {
    if p < |s| && IsSpace(s[p]) then SpaceEnd(s, p + 1) else p
  }

  ghost function LineEnd(s: string, p: nat): (e: nat)
    requires p <= |s|
    ensures p <= e <= |s|
    decreases |s| - p
  {
    if p < |s| && s[p] != '\n' then LineEnd(s, p + 1) else p
  }

  /** The position after the next `*` `/` pair. */
  ghost function CommentEnd(s: string, p: nat): (e: Option<nat>)
    requires p <= |s|
    ensures e.Some? ==> p + 2 <= e.value <= |s|
    decreases |s| - p
  {
    if p + 1 >= |s| then None
    else if s[p] == '*' && s[p + 1] == '/' then Some(p + 2)
    else CommentEnd(s, p + 1)
  }

  predicate StartsWith2(s: string, p: nat, a: char, b: char) { p + 1 < |s| && s[p] == a && s[p + 1] == b }

  /** Past all white space and comments; or the place after the opening of a block comment
      that never ends. */
  ghost function Trivia(s: string, p: nat): (r: Result<nat, nat>)
    requires p <= |s|
    ensures r.Ok? ==> p <= r.value <= |s|
    ensures r.Ok? && r.value < |s| ==> !IsSpace(s[r.value])
    ensures r.Ok? ==> !StartsWith2(s, r.value, '/', '/') && !StartsWith2(s, r.value, '/', '*')
    ensures r.Err? ==> p <= r.error <= |s|
    decreases |s| - p
  {
    var q := SpaceEnd(s, p);
    if StartsWith2(s, q, '/', '/') then Trivia(s, LineEnd(s, q + 2))
    else if StartsWith2(s, q, '/', '*') then
      var e := CommentEnd(s, q + 2);
      if e.None? then Err(q + 2) else Trivia(s, e.value)
    else Ok(q)
  }

  lemma TriviaAfterSpace(s: string, p: nat)
    requires p <= |s|
    ensures Trivia(s, SpaceEnd(s, p)) == Trivia(s, p)
  {
    assert SpaceEnd(s, SpaceEnd(s, p)) == SpaceEnd(s, p);
  }

  // ----- string segments -----

  /** The character an escape letter stands for. */
  function Unescape(c: char): Option<char> {
    if c == 'n' then Some('\n')
    else if c == 't' then Some('\t')
    else if c == 'r' then Some('\r')
    else if c == '\\' then Some('\\')
    else if c == '"' then Some('"')
    else if c == '0' then Some('\0')
    else None
  }

  /** How a segment ends: with the closing quote, with the start of an embedded
      expression, or with an error at an escape or in the segment as a whole. */
  datatype Segment =
    | Closed(text: string, end: nat)
    | Opened(text: string, end: nat)
    | BadEscape(at: nat, reason: Reason)
    | Broken(reason: Reason)

  /** The segment read on from `p` when `text` has been read already. */
  ghost function SegmentAt(s: string, p: nat, text: string): (r: Segment)
    requires p <= |s|
    ensures r.Closed? || r.Opened? ==> p < r.end <= |s|
    ensures r.BadEscape? ==> p < r.at <= |s|
    decreases |s| - p
  {
    if p == |s| || s[p] == '\n' then Broken(UnterminatedString)
    else if s[p] == '"' then Closed(text, p + 1)
    else if s[p] == '\\' then
      if p + 1 == |s| then BadEscape(p + 1, UnterminatedString)
      else if Unescape(s[p + 1]).None? then BadEscape(p + 1, InvalidEscape(s[p + 1]))
      else SegmentAt(s, p + 2, text + [Unescape(s[p + 1]).value])
    else if s[p] == '{' then
      if p + 1 < |s| && s[p + 1] == '{' then SegmentAt(s, p + 2, text + ['{']) else Opened(text, p + 1)
    else if s[p] == '}' then
      if p + 1 < |s| && s[p + 1] == '}' then SegmentAt(s, p + 2, text + ['}']) else Broken(LoneClosingBrace)
    else SegmentAt(s, p + 1, text + [s[p]])
  }

  // ----- one token -----

  /** A token from `start` to `end` and the mode stack after it, or an error. */
  datatype Lexed =
    | Lexed(kind: TokenKind, start: nat, end: nat, modes: seq<Mode>)
    | Failed(at: nat, reason: Reason)

  /** A token or error lies at or after `p`, and any token but the last takes up some text. */
  ghost predicate Advances(s: string, p: nat, r: Lexed) {
    match r
    case Lexed(kind, start, end, _) => p <= start <= end <= |s| && (kind.Eof? || start < end)
    case Failed(at, _) => p <= at <= |s|
  }

  ghost function StringPart(s: string, start: nat, p: nat, modes: seq<Mode>, initial: bool): (r: Lexed)
    requires start <= p <= |s| && (initial || modes != [])
    ensures Advances(s, start, r)
  {
    match SegmentAt(s, p, "")
    case Closed(text, end) =>
      if initial then Lexed(StringLit(text), start, end, modes)
      else Lexed(InterpEnd(text), start, end, modes[..|modes| - 1])
    case Opened(text, end) =>
      if initial then Lexed(InterpStart(text), start, end, modes + [StringContinuation] + [Interpolation(0)])
      else Lexed(InterpMiddle(text), start, end, modes + [Interpolation(0)])
    case BadEscape(at, reason) => Failed(at, reason)
    case Broken(reason) => Failed(start, reason)
  }

  ghost function Number(s: string, p: nat, modes: seq<Mode>): (r: Lexed)
    requires p < |s| && Decimal.IsDigit(s[p])
    ensures Advances(s, p, r)
  {
    if s[p] == '0' && p + 1 < |s| && Decimal.IsDigit(s[p + 1]) then Failed(p, LeadingZero)
    else AfterDigits(s, p, Decimal.RunEnd(s, p), modes)
  }

  /** The number whose first run of digits is `[p, e)`: with a fraction, or an integer. */
  ghost function AfterDigits(s: string, p: nat, e: nat, modes: seq<Mode>): (r: Lexed)
    requires p < e <= |s| && e == Decimal.RunEnd(s, p)
    ensures Advances(s, p, r)
  {
    if e + 1 < |s| && s[e] == '.' && Decimal.IsDigit(s[e + 1]) then
      var f := Decimal.RunEnd(s, e + 1);
      Lexed(FloatLit(s[p..f]), p, f, modes)
    else
      var digits := Decimal.Run(s, p);
      if Decimal.Value(digits) <= I64_MAX then Lexed(IntLit(Decimal.Value(digits)), p, e, modes)
      else Failed(p, IntTooLarge(digits))
  }

  predicate IsLetter(c: char) { 'a' <= c <= 'z' || 'A' <= c <= 'Z' }

  predicate IsWordChar(c: char) { IsLetter(c) || Decimal.IsDigit(c) || c == '_' }

  ghost function WordEnd(s: string, p: nat): (e: nat)
    requires p <= |s|
    ensures p <= e <= |s|
    decreases |s| - p
  {
    if p < |s| && IsWordChar(s[p]) then WordEnd(s, p + 1) else p
  }

  const KEYWORDS: set<string> := {
    "fn", "let", "mut", "struct", "enum", "if", "else", "while", "for", "in", "match", "return", "try",
    "extern", "as", "and", "or", "not", "true", "false", "break", "continue", "use", "defer", "arena"
  }

  function WordKind(word: string): TokenKind {
    if word == "_" then Underscore else if word in KEYWORDS then Keyword(word) else Ident(word)
  }

  ghost function Word(s: string, p: nat, modes: seq<Mode>): (r: Lexed)
    requires p < |s| && IsWordChar(s[p])
    ensures Advances(s, p, r)
  {
    var e := WordEnd(s, p);
    if s[p..e] == "fn" && e < |s| && s[e] == '!' then Lexed(Keyword("fn!"), p, e + 1, modes)
    else Lexed(WordKind(s[p..e]), p, e, modes)
  }

  /** Operators and punctuation: two characters when they form an operator, else one. */
  predicate IsPair(a: char, b: char) {
    if b == '=' then IsArithmetic(a) || IsRelation(a) || a == '!'
    else (b == '>' && (a == '-' || a == '=')) || (b == ':' && a == ':') || (b == '.' && a == '.')
  }

  predicate IsArithmetic(c: char) { c == '+' || c == '-' || c == '*' || c == '/' || c == '%' }

  predicate IsRelation(c: char) { c == '=' || c == '<' || c == '>' }

  predicate IsMark(c: char) {
    IsArithmetic(c) || IsRelation(c) || c == '{' || c == '}' || c == '(' || c == ')' || c == '[' || c == ']' ||
    c == ',' || c == ':' || c == ';' || c == '.'
  }

  ghost function Operator(s: string, p: nat, modes: seq<Mode>): (r: Lexed)
    requires p < |s|
    ensures Advances(s, p, r)
  {
    if p + 1 < |s| && IsPair(s[p], s[p + 1]) then Lexed(Punct(s[p..p + 2]), p, p + 2, modes)
    else if IsMark(s[p]) then Lexed(Punct([s[p]]), p, p + 1, modes)
    else Failed(p, UnexpectedChar(s[p]))
  }

  /** The token outside string text, white space and comments skipped. */
  ghost function Normal(s: string, p: nat, modes: seq<Mode>): (r: Lexed)
    requires p <= |s|
    ensures Advances(s, p, r)
  {
    var t := Trivia(s, p);
    if t.Err? then Failed(t.error, UnterminatedComment) else NormalAt(s, t.value, modes)
  }

  ghost function NormalAt(s: string, q: nat, modes: seq<Mode>): (r: Lexed)
    requires q <= |s|
    ensures Advances(s, q, r)
  {
    if q == |s| then Lexed(Eof, q, q, modes)
    else if s[q] == '"' then StringPart(s, q, q + 1, modes, true)
    else if Decimal.IsDigit(s[q]) then Number(s, q, modes)
    else if IsWordChar(s[q]) then Word(s, q, modes)
    else Operator(s, q, modes)
  }

  ghost function Next(s: string, p: nat, modes: seq<Mode>): (r: Lexed)
    requires p <= |s|
    ensures Advances(s, p, r)
    decreases |s| - p
  {
    if modes == [] then Normal(s, p, modes)
    else
      var top, below := modes[|modes| - 1], modes[..|modes| - 1];
      if top.StringContinuation? then StringPart(s, p, p, modes, false)
      else
        var t := Trivia(s, p);
        if t.Err? then Failed(t.error, UnterminatedComment)
        else
          var q := t.value;
          if q < |s| && s[q] == '}' && top.braceDepth == 0 then Next(s, q + 1, below)
          else if q < |s| && s[q] == '{' then
            Lexed(Punct("{"), q, q + 1, below + [Interpolation(top.braceDepth + 1)])
          else if q < |s| && s[q] == '}' then
            Lexed(Punct("}"), q, q + 1, below + [Interpolation(top.braceDepth - 1)])
          else NormalAt(s, q, modes)
  }

  // ----- all tokens -----

  /** Where a token lies. */
  datatype Extent = Extent(start: nat, end: nat)

  datatype Failure = Failure(at: nat, reason: Reason)

  /** The tokens up to the end of the source or the first error, and that error. */
  datatype Reading = Reading(tokens: seq<Token>, extents: seq<Extent>, failure: Option<Failure>)

  ghost function Read(s: string, p: nat, modes: seq<Mode>): (r: Reading)
    requires p <= |s|
    ensures r.failure.Some? ==> p <= r.failure.value.at <= |s|
    decreases |s| - p, 1
  {
    ReadOn(s, p, Next(s, p, modes))
  }

  /** The reading that begins with the given token or error. */
  ghost function ReadOn(s: string, p: nat, next: Lexed): (r: Reading)
    requires p <= |s| && Advances(s, p, next)
    ensures r.failure.Some? ==> p <= r.failure.value.at <= |s|
    decreases |s| - p, 0
  {
    match next
    case Failed(at, reason) => Reading([], [], Some(Failure(at, reason)))
    case Lexed(kind, start, end, modes) =>
      Cons(Token(kind, SpanAt(s, start)), Extent(start, end),
           if kind.Eof? then Reading([], [], None) else Read(s, end, modes))
  }

  ghost function Cons(token: Token, extent: Extent, rest: Reading): Reading {
    Reading([token] + rest.tokens, [extent] + rest.extents, rest.failure)
  }

  /** All tokens, or the first error. */
  ghost function Tokens(s: string, p: nat, modes: seq<Mode>): Result<seq<Token>, LexError>
    requires p <= |s|
  {
    var r := Read(s, p, modes);
    if r.failure.None? then Ok(r.tokens) else Err(LexError(SpanAt(s, r.failure.value.at), r.failure.value.reason))
  }

  // ----- the mode stack -----

  /** String text and embedded expressions alternate, text at the bottom. */
  ghost predicate Alternates(modes: seq<Mode>) {
    forall i :: 0 <= i < |modes| ==> (modes[i].StringContinuation? <==> i % 2 == 0)
  }

  /** Between tokens the lexer is never in string text. */
  ghost predicate BetweenTokens(modes: seq<Mode>) { Alternates(modes) && |modes| % 2 == 0 }

  /** How a token changes the number of open interpolated strings. */
  function Opens(kind: TokenKind): int {
    if kind.InterpStart? then 1 else if kind.InterpEnd? then -1 else 0
  }

  /** The token at `q` of an embedded expression, where a closing brace may end it. */
  ghost function Embedded(s: string, q: nat, modes: seq<Mode>): (r: Lexed)
    requires q <= |s| && BetweenTokens(modes) && modes != []
  {
    var top, below := modes[|modes| - 1], modes[..|modes| - 1];
    if q < |s| && s[q] == '}' && top.braceDepth == 0 then StringPart(s, q + 1, q + 1, below, false)
    else if q < |s| && s[q] == '{' then Lexed(Punct("{"), q, q + 1, below + [Interpolation(top.braceDepth + 1)])
    else if q < |s| && s[q] == '}' then Lexed(Punct("}"), q, q + 1, below + [Interpolation(top.braceDepth - 1)])
    else NormalAt(s, q, modes)
  }

  /** After a token from a given stack: still alternating, with the right height. */
  ghost predicate KeepsModes(modes: seq<Mode>, r: Lexed) {
    r.Lexed? ==>
      BetweenTokens(r.modes) && |r.modes| == |modes| + 2 * Opens(r.kind) &&
      (r.kind.InterpMiddle? || r.kind.InterpEnd? ==> modes != [])
  }

  lemma InitialKeepsModes(s: string, q: nat, modes: seq<Mode>)
    requires q <= |s| && BetweenTokens(modes)
    ensures KeepsModes(modes, NormalAt(s, q, modes))
  {
  }

  lemma ContinuationKeepsModes(s: string, q: nat, modes: seq<Mode>)
    requires q <= |s| && BetweenTokens(modes) && modes != []
    ensures modes[|modes| - 2].StringContinuation?
    ensures KeepsModes(modes, StringPart(s, q, q, modes[..|modes| - 1], false))
  {
  }

  lemma BraceKeepsModes(modes: seq<Mode>, depth: nat)
    requires BetweenTokens(modes) && modes != []
    ensures BetweenTokens(modes[..|modes| - 1] + [Interpolation(depth)])
  {
  }

  /** The mode stack stays alternating, its height is twice the number of open strings,
      and a string is continued or ended only if one is open. */
  lemma NextKeepsModes(s: string, p: nat, modes: seq<Mode>)
    requires p <= |s| && BetweenTokens(modes)
    ensures KeepsModes(modes, Next(s, p, modes))
  {
    var t := Trivia(s, p);
    if t.Err? { return; }
    var q := t.value;
    if modes == [] {
      InitialKeepsModes(s, q, modes);
    } else {
      NextEmbedded(s, p, modes, q);
      EmbeddedKeepsModes(s, q, modes);
    }
  }

  lemma NextEmbedded(s: string, p: nat, modes: seq<Mode>, q: nat)
    requires p <= |s| && BetweenTokens(modes) && modes != [] && Trivia(s, p) == Ok(q)
    ensures Next(s, p, modes) == Embedded(s, q, modes)
  {
    ContinuationKeepsModes(s, q, modes);
  }

  lemma EmbeddedKeepsModes(s: string, q: nat, modes: seq<Mode>)
    requires q <= |s| && BetweenTokens(modes) && modes != []
    ensures KeepsModes(modes, Embedded(s, q, modes))
  {
    var top := modes[|modes| - 1];
    if q < |s| && s[q] == '}' && top.braceDepth == 0 {
      ContinuationKeepsModes(s, q + 1, modes);
    } else if q < |s| && s[q] == '{' {
      BraceKeepsModes(modes, top.braceDepth + 1);
    } else if q < |s| && s[q] == '}' {
      BraceKeepsModes(modes, top.braceDepth - 1);
    } else {
      InitialKeepsModes(s, q, modes);
    }
  }

  // ----- nesting of whole runs -----

  ghost function Depth(kinds: seq<TokenKind>): int {
    if kinds == [] then 0 else Depth(kinds[..|kinds| - 1]) + Opens(kinds[|kinds| - 1])
  }

  /** A prefix of a well-nested word over string starts, middles and ends. */
  ghost predicate NestedPrefix(kinds: seq<TokenKind>) {
    (forall k :: 0 <= k <= |kinds| ==> Depth(kinds[..k]) >= 0) &&
    forall k :: 0 <= k < |kinds| && (kinds[k].InterpMiddle? || kinds[k].InterpEnd?) ==> Depth(kinds[..k]) > 0
  }

  ghost function Kinds(tokens: seq<Token>): (kinds: seq<TokenKind>)
    ensures |kinds| == |tokens| && forall i :: 0 <= i < |kinds| ==> kinds[i] == tokens[i].kind
  {
    seq(|tokens|, i requires 0 <= i < |tokens| => tokens[i].kind)
  }

  lemma NestedStep(kinds: seq<TokenKind>, kind: TokenKind)
    requires NestedPrefix(kinds) && Depth(kinds) + Opens(kind) >= 0
    requires kind.InterpMiddle? || kind.InterpEnd? ==> Depth(kinds) > 0
    ensures NestedPrefix(kinds + [kind]) && Depth(kinds + [kind]) == Depth(kinds) + Opens(kind)
  {
    var more := kinds + [kind];
    assert more[..|kinds|] == kinds && more[..|more|] == more;
    assert Depth(more) == Depth(kinds) + Opens(kind);
    forall k | 0 <= k <= |more| ensures Depth(more[..k]) >= 0 { PrefixOfSnoc(kinds, kind, k); }
    forall k | 0 <= k < |more| && (more[k].InterpMiddle? || more[k].InterpEnd?) ensures Depth(more[..k]) > 0 {
      PrefixOfSnoc(kinds, kind, k);
    }
  }

  lemma PrefixOfSnoc(kinds: seq<TokenKind>, kind: TokenKind, k: nat)
    requires k <= |kinds| + 1
    ensures (kinds + [kind])[..k] == if k <= |kinds| then kinds[..k] else kinds + [kind]
  {
  }

  /** Continuing a nested run gives a nested run. */
  lemma {:induction false} ReadNested(s: string, p: nat, modes: seq<Mode>, before: seq<TokenKind>)
    requires p <= |s| && BetweenTokens(modes) && |modes| == 2 * Depth(before) && NestedPrefix(before)
    ensures NestedPrefix(before + Kinds(Read(s, p, modes).tokens))
    decreases |s| - p, 1
  {
    NextKeepsModes(s, p, modes);
    ReadOnNested(s, p, modes, Next(s, p, modes), before);
  }

  lemma {:induction false} ReadOnNested(s: string, p: nat, modes: seq<Mode>, next: Lexed, before: seq<TokenKind>)
    requires p <= |s| && Advances(s, p, next) && BetweenTokens(modes) && KeepsModes(modes, next)
    requires |modes| == 2 * Depth(before) && NestedPrefix(before)
    ensures NestedPrefix(before + Kinds(ReadOn(s, p, next).tokens))
    decreases |s| - p, 0
  {
    if next.Failed? {
      assert before + Kinds([]) == before;
    } else {
      NestedStep(before, next.kind);
      var rest := if next.kind.Eof? then [] else Read(s, next.end, next.modes).tokens;
      KindsCons(before, Token(next.kind, SpanAt(s, next.start)), rest);
      if !next.kind.Eof? { ReadNested(s, next.end, next.modes, before + [next.kind]); }
    }
  }

  lemma KindsCons(before: seq<TokenKind>, token: Token, rest: seq<Token>)
    ensures before + Kinds([token] + rest) == before + [token.kind] + Kinds(rest)
    ensures rest == [] ==> before + Kinds([token] + rest) == before + [token.kind]
  {
  }

  /** In any source, the string tokens up to the end or the first error form a prefix of a
      well-nested word. */
  lemma SourceNested(s: string)
    ensures NestedPrefix(Kinds(Read(s, 0, []).tokens))
  {
    ReadNested(s, 0, [], []);
    assert [] + Kinds(Read(s, 0, []).tokens) == Kinds(Read(s, 0, []).tokens);
  }

  // ----- braces in embedded expressions -----

  /** The brace depths of the open embedded expressions, the innermost last. */
  ghost function Depths(modes: seq<Mode>): seq<nat>
    requires BetweenTokens(modes)
  {
    if modes == [] then []
    else Depths(modes[..|modes| - 2]) + [modes[|modes| - 1].braceDepth]
  }

  /** Unclosed braces, expression by expression, after one more token. */
  ghost function CountBraces(open: seq<int>, kind: TokenKind): seq<int> {
    if kind.InterpStart? then open + [0]
    else if open == [] then []
    else
      var below, top := open[..|open| - 1], open[|open| - 1];
      match kind
      case InterpEnd(_) => below
      case InterpMiddle(_) => below + [0]
      case Punct(text) => below + [if text == "{" then top + 1 else if text == "}" then top - 1 else top]
      case _ => open
  }

  ghost function OpenBraces(kinds: seq<TokenKind>): seq<int> {
    if kinds == [] then [] else CountBraces(OpenBraces(kinds[..|kinds| - 1]), kinds[|kinds| - 1])
  }

  /** An expression is left only with its braces closed, and no brace closes too early. */
  ghost predicate BraceMatches(open: seq<int>, kind: TokenKind) {
    (kind.InterpMiddle? || kind.InterpEnd? ==> open != [] && open[|open| - 1] == 0) &&
    (kind == Punct("}") && open != [] ==> open[|open| - 1] > 0)
  }

  ghost predicate BracesBalance(kinds: seq<TokenKind>) {
    forall k :: 0 <= k < |kinds| ==> BraceMatches(OpenBraces(kinds[..k]), kinds[k])
  }

  /** The depths on the mode stack count the braces of the tokens. */
  ghost predicate KeepsBraces(modes: seq<Mode>, r: Lexed)
    requires BetweenTokens(modes) && KeepsModes(modes, r)
  {
    r.Lexed? ==> BraceMatches(Depths(modes), r.kind) && Depths(r.modes) == CountBraces(Depths(modes), r.kind)
  }

  lemma TokenKeepsBraces(s: string, q: nat, modes: seq<Mode>)
    requires q <= |s| && BetweenTokens(modes) && KeepsModes(modes, NormalAt(s, q, modes))
    requires modes != [] && q < |s| ==> s[q] != '{' && s[q] != '}'
    ensures KeepsBraces(modes, NormalAt(s, q, modes))
  {
    var r := NormalAt(s, q, modes);
    if r.Lexed? && r.kind.InterpStart? {
      assert r.modes[..|r.modes| - 2] == modes;
    }
  }

  lemma EmbeddedKeepsBraces(s: string, q: nat, modes: seq<Mode>)
    requires q <= |s| && BetweenTokens(modes) && modes != [] && KeepsModes(modes, Embedded(s, q, modes))
    ensures KeepsBraces(modes, Embedded(s, q, modes))
  {
    var r, top, below := Embedded(s, q, modes), modes[|modes| - 1], modes[..|modes| - 1];
    if q < |s| && (s[q] == '{' || s[q] == '}') {
      assert below[..|modes| - 2] == modes[..|modes| - 2];
      if r.Lexed? && !r.kind.InterpEnd? { assert r.modes[..|r.modes| - 2] == modes[..|modes| - 2]; }
    } else {
      TokenKeepsBraces(s, q, modes);
    }
  }

  lemma NextKeepsBraces(s: string, p: nat, modes: seq<Mode>)
    requires p <= |s| && BetweenTokens(modes) && KeepsModes(modes, Next(s, p, modes))
    ensures KeepsBraces(modes, Next(s, p, modes))
  {
    var t := Trivia(s, p);
    if t.Err? { return; }
    if modes == [] {
      TokenKeepsBraces(s, t.value, modes);
    } else {
      NextEmbedded(s, p, modes, t.value);
      EmbeddedKeepsBraces(s, t.value, modes);
    }
  }

  lemma BalanceStep(kinds: seq<TokenKind>, kind: TokenKind)
    requires BracesBalance(kinds) && BraceMatches(OpenBraces(kinds), kind)
    ensures BracesBalance(kinds + [kind]) && OpenBraces(kinds + [kind]) == CountBraces(OpenBraces(kinds), kind)
  {
    var more := kinds + [kind];
    assert more[..|more| - 1] == kinds;
    forall k | 0 <= k < |more| ensures BraceMatches(OpenBraces(more[..k]), more[k]) { PrefixOfSnoc(kinds, kind, k); }
  }

  lemma {:induction false} ReadBalances(s: string, p: nat, modes: seq<Mode>, before: seq<TokenKind>)
    requires p <= |s| && BetweenTokens(modes) && Depths(modes) == OpenBraces(before) && BracesBalance(before)
    ensures BracesBalance(before + Kinds(Read(s, p, modes).tokens))
    decreases |s| - p, 1
  {
    NextKeepsModes(s, p, modes);
    NextKeepsBraces(s, p, modes);
    ReadOnBalances(s, p, modes, Next(s, p, modes), before);
  }

  lemma {:induction false} ReadOnBalances(s: string, p: nat, modes: seq<Mode>, next: Lexed, before: seq<TokenKind>)
    requires p <= |s| && Advances(s, p, next) && BetweenTokens(modes)
    requires KeepsModes(modes, next) && KeepsBraces(modes, next)
    requires Depths(modes) == OpenBraces(before) && BracesBalance(before)
    ensures BracesBalance(before + Kinds(ReadOn(s, p, next).tokens))
    decreases |s| - p, 0
  {
    if next.Failed? {
      assert before + Kinds([]) == before;
    } else {
      BalanceStep(before, next.kind);
      var rest := if next.kind.Eof? then [] else Read(s, next.end, next.modes).tokens;
      KindsCons(before, Token(next.kind, SpanAt(s, next.start)), rest);
      if !next.kind.Eof? { ReadBalances(s, next.end, next.modes, before + [next.kind]); }
    }
  }

  /** In any source, the braces of every embedded expression balance, up to the end or the
      first error. */
  lemma SourceBalances(s: string)
    ensures BracesBalance(Kinds(Read(s, 0, []).tokens))
  {
    ReadBalances(s, 0, [], []);
    assert [] + Kinds(Read(s, 0, []).tokens) == Kinds(Read(s, 0, []).tokens);
  }

  // ----- where tokens lie -----

  /** From `p` on, tokens lie one after the other, each spans its own place, and each takes
      up some text unless it ends the file, which only the last one can do. */
  ghost predicate LaidOut(s: string, p: nat, tokens: seq<Token>, extents: seq<Extent>) {
    |tokens| == |extents| &&
    (forall i :: 0 <= i < |tokens| ==> p <= extents[i].start <= extents[i].end <= |s|) &&
    (forall i :: 0 <= i < |tokens| ==> tokens[i].span == SpanAt(s, extents[i].start)) &&
    (forall i :: 0 <= i < |tokens| ==> tokens[i].kind.Eof? || extents[i].start < extents[i].end) &&
    (forall i, j :: 0 <= i < j < |tokens| ==> extents[i].end <= extents[j].start && !tokens[i].kind.Eof?)
  }

  /** The token that ends the file comes, as the last one, exactly when there is no error;
      an error lies after all the tokens. */
  ghost predicate EndsRight(r: Reading) {
    (r.failure.None? <==> r.tokens != [] && r.tokens[|r.tokens| - 1].kind.Eof?) &&
    (r.failure.Some? ==> forall extent :: extent in r.extents ==> extent.end <= r.failure.value.at)
  }

  lemma {:induction false} ReadLaidOut(s: string, p: nat, modes: seq<Mode>)
    requires p <= |s|
    ensures var r := Read(s, p, modes); LaidOut(s, p, r.tokens, r.extents) && EndsRight(r)
    decreases |s| - p, 1
  {
    ReadOnLaidOut(s, p, Next(s, p, modes));
  }

  lemma {:induction false} ReadOnLaidOut(s: string, p: nat, next: Lexed)
    requires p <= |s| && Advances(s, p, next)
    ensures var r := ReadOn(s, p, next); LaidOut(s, p, r.tokens, r.extents) && EndsRight(r)
    decreases |s| - p, 0
  {
    if next.Lexed? && !next.kind.Eof? {
      var rest := Read(s, next.end, next.modes);
      ReadLaidOut(s, next.end, next.modes);
      var token, extent := Token(next.kind, SpanAt(s, next.start)), Extent(next.start, next.end);
      LaidOutCons(s, p, token, extent, rest.tokens, rest.extents);
      EndsRightCons(token, extent, rest);
    }
  }

  lemma LaidOutCons(s: string, p: nat, token: Token, extent: Extent, tokens: seq<Token>, extents: seq<Extent>)
    requires p <= extent.start < extent.end <= |s| && !token.kind.Eof? && token.span == SpanAt(s, extent.start)
    requires LaidOut(s, extent.end, tokens, extents)
    ensures LaidOut(s, p, [token] + tokens, [extent] + extents)
  {
    var ts, es := [token] + tokens, [extent] + extents;
    assert forall i :: 0 < i < |ts| ==> ts[i] == tokens[i - 1] && es[i] == extents[i - 1];
    forall i, j | 0 <= i < j < |ts| ensures es[i].end <= es[j].start && !ts[i].kind.Eof? {
      if i > 0 { assert extents[i - 1].end <= extents[j - 1].start; }
    }
  }

  lemma EndsRightCons(token: Token, extent: Extent, rest: Reading)
    requires EndsRight(rest) && !token.kind.Eof? && (rest.failure.Some? ==> extent.end <= rest.failure.value.at)
    ensures EndsRight(Cons(token, extent, rest))
  {
    var r := Cons(token, extent, rest);
    assert rest.tokens != [] ==> r.tokens[|r.tokens| - 1] == rest.tokens[|rest.tokens| - 1];
  }

  /** What every reading of a source from its beginning satisfies. */
  ghost predicate WellRead(s: string, r: Reading) {
    NestedPrefix(Kinds(r.tokens)) && BracesBalance(Kinds(r.tokens)) &&
    LaidOut(s, 0, r.tokens, r.extents) && EndsRight(r)
  }

  lemma SourceWellRead(s: string)
    ensures WellRead(s, Read(s, 0, []))
  {
    SourceNested(s);
    SourceBalances(s);
    ReadLaidOut(s, 0, []);
  }

  ghost predicate Before(a: Span, b: Span) { a.line < b.line || (a.line == b.line && a.column < b.column) }

  /** Later positions have later spans, so a span determines its position. */
  lemma {:induction false} SpansIncrease(s: string, p: nat, q: nat)
    requires p < q <= |s|
    ensures Before(SpanAt(s, p), SpanAt(s, q))
    decreases q - p
  {
    if p < q - 1 { SpansIncrease(s, p, q - 1); }
  }
}
