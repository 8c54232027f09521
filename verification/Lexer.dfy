/**
 The lexer object: it walks the source, keeping line, column and a stack of modes, and
 produces the tokens that LexSpec defines.
 */
module Lexer {
  import opened LexSpec
  import opened Wrappers
  import Decimal
  import opened Sequences

  class Lexer {
    const source: string
    var pos: nat
    var line: nat
    var column: nat
    var modes: seq<Mode>

    /** The line and column are those of the current position. */
    ghost predicate Valid()
      reads this
    {
      pos <= |source| && Span(line, column) == SpanAt(source, pos)
    }

    constructor (source: string)
      ensures Valid() && this.source == source && pos == 0 && modes == []
    {
      this.source := source;
      pos, line, column, modes := 0, 1, 1, [];
    }

    /** What was done is what was specified: the token or error, and the new state. */
    ghost predicate Did(spec: Lexed, r: Result<Token, LexError>)
      requires Valid() && Advances(source, 0, spec)
      reads this
    {
      match spec
      case Lexed(kind, start, end, modes') =>
        r == Ok(Token(kind, SpanAt(source, start))) && pos == end && modes == modes'
      case Failed(at, reason) =>
        r == Err(LexError(SpanAt(source, at), reason))
    }

    function Peek(): Option<char>
      requires pos <= |source|
      reads this
    {
      if pos < |source| then Some(source[pos]) else None
    }

    function PeekAhead(offset: nat): Option<char>
      reads this
    {
      if pos + offset < |source| then Some(source[pos + offset]) else None
    }

    function Here(): Span
      reads this
    {
      Span(line, column)
    }

    method Advance() returns (ch: Option<char>)
      requires Valid()
      modifies `pos, `line, `column
      ensures Valid() && ch == old(Peek())
      ensures pos == if old(pos) < |source| then old(pos) + 1 else old(pos)
    {
      if pos == |source| { return None; }
      ch := Some(source[pos]);
      pos := pos + 1;
      if ch.value == '\n' {
        line := line + 1;
        column := 1;
      } else {
        column := column + 1;
      }
    }

    // ----- white space and comments -----

    method SkipWhitespace()
      requires Valid()
      modifies `pos, `line, `column
      ensures Valid() && pos == SpaceEnd(source, old(pos))
    {
      while pos < |source| && IsSpace(source[pos])
        invariant Valid() && SpaceEnd(source, pos) == SpaceEnd(source, old(pos))
        decreases |source| - pos
      {
        var _ := Advance();
      }
    }

    method SkipLineComment()
      requires Valid()
      modifies `pos, `line, `column
      ensures Valid() && pos == LineEnd(source, old(pos))
    {
      while pos < |source| && source[pos] != '\n'
        invariant Valid() && LineEnd(source, pos) == LineEnd(source, old(pos))
        decreases |source| - pos
      {
        var _ := Advance();
      }
    }

    method SkipBlockComment() returns (error: Option<LexError>)
      requires Valid()
      modifies `pos, `line, `column
      ensures Valid()
      ensures error.None? ==> CommentEnd(source, old(pos)) == Some(pos)
      ensures error.Some? ==> CommentEnd(source, old(pos)).None? &&
                              error.value == LexError(SpanAt(source, old(pos)), UnterminatedComment)
    {
      var startSpan := Here();
      while true
        invariant Valid() && CommentEnd(source, pos) == CommentEnd(source, old(pos))
        decreases |source| - pos
      {
        var ch := Advance();
        if ch == None { return Some(LexError(startSpan, UnterminatedComment)); }
        if ch == Some('*') && Peek() == Some('/') {
          var _ := Advance();
          return None;
        }
      }
    }

    /** Skips one comment, if there is one here. */
    method SkipComment() returns (more: bool, error: Option<LexError>)
      requires Valid() && (pos < |source| ==> !IsSpace(source[pos]))
      modifies `pos, `line, `column
      ensures Valid()
      ensures error.None? && !more ==> pos == old(pos) && Trivia(source, pos) == Ok(pos)
      ensures error.None? && more ==> pos > old(pos) && Trivia(source, old(pos)) == Trivia(source, pos)
      ensures error.Some? ==> UnfinishedComment(old(pos), error.value)
    {
      if Peek() == Some('/') && PeekAhead(1) == Some('/') {
        var _ := Advance();
        var _ := Advance();
        SkipLineComment();
        return true, None;
      } else if Peek() == Some('/') && PeekAhead(1) == Some('*') {
        var _ := Advance();
        var _ := Advance();
        error := SkipBlockComment();
        return true, error;
      }
      return false, None;
    }

    ghost predicate UnfinishedComment(p: nat, error: LexError)
      requires p <= |source|
    {
      var t := Trivia(source, p);
      t.Err? && error == LexError(SpanAt(source, t.error), UnterminatedComment)
    }

    /** Skips white space and comments. */
    method SkipTrivia() returns (error: Option<LexError>)
      requires Valid()
      modifies `pos, `line, `column
      ensures Valid()
      ensures error.None? ==> Trivia(source, old(pos)) == Ok(pos)
      ensures error.Some? ==> UnfinishedComment(old(pos), error.value)
    {
      var more := true;
      while more
        invariant Valid() && Trivia(source, pos) == Trivia(source, old(pos))
        invariant !more ==> Trivia(source, pos) == Ok(pos)
        decreases |source| - pos, more
      {
        TriviaAfterSpace(source, pos);
        SkipWhitespace();
        more, error := SkipComment();
        if error.Some? { return; }
      }
      error := None;
    }

    // ----- strings -----

    /** Decodes the escape after a backslash onto the text read so far. */
    method ReadStringEscape(text: string, escSpan: Span) returns (r: Result<string, LexError>)
      requires Valid() && escSpan == SpanAt(source, pos)
      modifies `pos, `line, `column
      ensures Valid() && old(pos) <= pos
      ensures r.Ok? <==> old(pos) < |source| && Unescape(source[old(pos)]).Some?
      ensures r.Ok? ==> pos == old(pos) + 1 && r.value == text + [Unescape(source[old(pos)]).value]
      ensures r.Err? ==> r.error == LexError(escSpan, if old(pos) == |source| then UnterminatedString
                                                      else InvalidEscape(source[old(pos)]))
    {
      var ch := Advance();
      match ch
      case Some('n') => r := Ok(text + ['\n']);
      case Some('t') => r := Ok(text + ['\t']);
      case Some('r') => r := Ok(text + ['\r']);
      case Some('\\') => r := Ok(text + ['\\']);
      case Some('"') => r := Ok(text + ['"']);
      case Some('0') => r := Ok(text + ['\0']);
      case Some(c) => r := Err(LexError(escSpan, InvalidEscape(c)));
      case None => r := Err(LexError(escSpan, UnterminatedString));
    }

    method ReadStringSegment(startSpan: Span, isInitial: bool, ghost start: nat) returns (r: Result<Token, LexError>)
      requires Valid() && start <= pos && startSpan == SpanAt(source, start)
      requires !isInitial ==> modes != [] && modes[|modes| - 1].StringContinuation?
      modifies this
      ensures Valid() && Did(StringPart(source, start, old(pos), old(modes), isInitial), r)
    {
      var text := "";
      ghost var whole := SegmentAt(source, pos, "");
      while true
        invariant Valid() && start <= pos && modes == old(modes) && SegmentAt(source, pos, text) == whole
        decreases |source| - pos
      {
        var ch := Advance();
        if ch == None || ch == Some('\n') {
          return Err(LexError(startSpan, UnterminatedString));
        } else if ch == Some('"') {
          if isInitial { return Ok(Token(StringLit(text), startSpan)); }
          var mode := modes[|modes| - 1];
          modes := modes[..|modes| - 1];
          assert mode.StringContinuation?;
          return Ok(Token(InterpEnd(text), startSpan));
        } else if ch == Some('\\') {
          var escSpan := Here();
          var escaped := ReadStringEscape(text, escSpan);
          if escaped.Err? { return Err(escaped.error); }
          text := escaped.value;
        } else if ch == Some('{') {
          if Peek() == Some('{') {
            var _ := Advance();
            text := text + ['{'];
          } else {
            if isInitial { modes := modes + [StringContinuation]; }
            modes := modes + [Interpolation(0)];
            return Ok(Token(if isInitial then InterpStart(text) else InterpMiddle(text), startSpan));
          }
        } else if ch == Some('}') {
          if Peek() == Some('}') {
            var _ := Advance();
            text := text + ['}'];
          } else {
            return Err(LexError(startSpan, LoneClosingBrace));
          }
        } else {
          text := text + [ch.value];
        }
      }
    }

    // ----- numbers and words -----

    /** Collects a run of digits onto the text read so far. */
    method ReadDigits(text: string) returns (more: string)
      requires Valid()
      modifies `pos, `line, `column
      ensures Valid() && pos == Decimal.RunEnd(source, old(pos)) && more == text + source[old(pos)..pos]
    {
      more := text;
      while pos < |source| && Decimal.IsDigit(source[pos])
        invariant Valid() && old(pos) <= pos && Decimal.RunEnd(source, pos) == Decimal.RunEnd(source, old(pos))
        invariant more == text + source[old(pos)..pos]
        decreases |source| - pos
      {
        SliceSnoc(source, old(pos), pos);
        Associative(text, source[old(pos)..pos], [source[pos]]);
        more := more + [source[pos]];
        var _ := Advance();
      }
    }

    method ReadNumber() returns (r: Result<Token, LexError>)
      requires Valid() && pos < |source| && Decimal.IsDigit(source[pos])
      modifies `pos, `line, `column
      ensures Valid() && Did(Number(source, old(pos), modes), r)
    {
      ghost var p := pos;
      var startSpan := Here();
      var firstDigit := Advance();
      if firstDigit == Some('0') && pos < |source| && Decimal.IsDigit(source[pos]) {
        return Err(LexError(startSpan, LeadingZero));
      }
      var numStr := ReadDigits([firstDigit.value]);
      assert pos == Decimal.RunEnd(source, p) && numStr == source[p..pos];
      r := FinishNumber(numStr, startSpan, p);
    }

    method FinishNumber(digits: string, startSpan: Span, ghost p: nat) returns (r: Result<Token, LexError>)
      requires Valid() && p < pos == Decimal.RunEnd(source, p) && digits == source[p..pos]
      requires startSpan == SpanAt(source, p)
      modifies `pos, `line, `column
      ensures Valid() && Did(AfterDigits(source, p, old(pos), modes), r)
    {
      ghost var e := pos;
      if Peek() == Some('.') && PeekAhead(1).Some? && Decimal.IsDigit(PeekAhead(1).value) {
        var _ := Advance();
        var numStr := ReadDigits(digits + ['.']);
        assert numStr == source[p..pos] by { Joined(source, p, e, pos); }
        return Ok(Token(FloatLit(numStr), startSpan));
      }
      assert digits == Decimal.Run(source, p);
      var value := Decimal.Value(digits);
      if value > I64_MAX { return Err(LexError(startSpan, IntTooLarge(digits))); }
      return Ok(Token(IntLit(value), startSpan));
    }

    method ReadIdentifierOrKeyword() returns (token: Token)
      requires Valid() && pos < |source| && IsWordChar(source[pos])
      modifies `pos, `line, `column
      ensures Valid() && Did(Word(source, old(pos), modes), Ok(token))
    {
      var startSpan := Here();
      var ident := ReadWord();
      if ident == "fn" && Peek() == Some('!') {
        var _ := Advance();
        return Token(Keyword("fn!"), startSpan);
      }
      return Token(WordKind(ident), startSpan);
    }

    /** Collects a run of letters, digits and underscores. */
    method ReadWord() returns (ident: string)
      requires Valid()
      modifies `pos, `line, `column
      ensures Valid() && pos == WordEnd(source, old(pos)) && ident == source[old(pos)..pos]
    {
      ident := "";
      while pos < |source| && IsWordChar(source[pos])
        invariant Valid() && old(pos) <= pos && WordEnd(source, pos) == WordEnd(source, old(pos))
        invariant ident == source[old(pos)..pos]
        decreases |source| - pos
      {
        SliceSnoc(source, old(pos), pos);
        ident := ident + [source[pos]];
        var _ := Advance();
      }
    }

    // ----- tokens -----

    /** An operator or punctuation mark, branch by branch. */
    method ReadOperator() returns (r: Result<Token, LexError>)
      requires Valid() && pos < |source|
      modifies `pos, `line, `column
      ensures Valid() && Did(Operator(source, old(pos), modes), r)
    {
      ghost var p := pos;
      var span := Here();
      var first := Advance();
      var c := first.value;
      var equals := Peek() == Some('=');
      assert c == source[p] && (equals <==> p + 1 < |source| && source[p + 1] == '=');
      var pair := false;
      if c == '+' || c == '*' || c == '/' || c == '%' || c == '!' || c == '<' || c == '>' {
        pair := equals;
      } else if c == '-' || c == '=' {
        pair := equals || Peek() == Some('>');
      } else if c == ':' || c == '.' {
        pair := Peek() == Some(c);
      }
      assert pair <==> p + 1 < |source| && IsPair(c, source[p + 1]);
      if pair {
        var second := Advance();
        assert source[p..p + 2] == [c, second.value];
        return Ok(Token(Punct([c, second.value]), span));
      }
      if IsMark(c) { return Ok(Token(Punct([c]), span)); }
      return Err(LexError(span, UnexpectedChar(c)));
    }

    method LexNormalToken() returns (r: Result<Token, LexError>)
      requires Valid()
      modifies this
      ensures Valid() && Did(Normal(source, old(pos), old(modes)), r)
    {
      var error := SkipTrivia();
      if error.Some? { return Err(error.value); }
      var span := Here();
      if pos == |source| { return Ok(Token(Eof, span)); }
      var c := source[pos];
      if c == '"' {
        ghost var start := pos;
        var _ := Advance();
        r := ReadStringSegment(span, true, start);
      } else if Decimal.IsDigit(c) {
        r := ReadNumber();
      } else if IsWordChar(c) {
        var token := ReadIdentifierOrKeyword();
        r := Ok(token);
      } else {
        r := ReadOperator();
      }
    }

    method NextToken() returns (r: Result<Token, LexError>)
      requires Valid()
      modifies this
      ensures Valid() && Did(Next(source, old(pos), old(modes)), r)
      decreases |source| - pos
    {
      if modes == [] {
        r := LexNormalToken();
        return;
      }
      var top := modes[|modes| - 1];
      if top.StringContinuation? {
        var span := Here();
        r := ReadStringSegment(span, false, pos);
        return;
      }
      var error := SkipTrivia();
      if error.Some? { return Err(error.value); }
      ghost var q := pos;
      var below := modes[..|modes| - 1];
      if top.braceDepth == 0 && Peek() == Some('}') {
        var _ := Advance();
        modes := below;
        r := NextToken();
      } else if Peek() == Some('{') {
        var span := Here();
        var _ := Advance();
        modes := below + [Interpolation(top.braceDepth + 1)];
        r := Ok(Token(Punct("{"), span));
      } else if Peek() == Some('}') {
        var span := Here();
        var _ := Advance();
        modes := below + [Interpolation(top.braceDepth - 1)];
        r := Ok(Token(Punct("}"), span));
      } else {
        TriviaDone(source, q);
        r := LexNormalToken();
      }
    }

    /** All tokens up to the end of the source, or the first error.  Of the tokens read until
        then, the string tokens nest, braces balance in embedded expressions, and they lie one
        after the other with their own spans, before the error. */
    method Tokenize() returns (r: Result<seq<Token>, LexError>, ghost read: Reading)
      requires Valid() && pos == 0 && modes == []
      modifies this
      ensures Valid() && read == Read(source, 0, []) && r == Tokens(source, 0, [])
      ensures WellRead(source, read)
      ensures r.Ok? ==> r.value == read.tokens && BetweenTokens(modes) && |modes| == 2 * Depth(Kinds(r.value))
    {
      read := Read(source, 0, []);
      var tokens := [];
      ghost var extents := [];
      PrependNothing(read);
      while true
        invariant Valid() && BetweenTokens(modes) && |modes| == 2 * Depth(Kinds(tokens))
        invariant read == Prepend(tokens, extents, Read(source, pos, modes))
        decreases |source| - pos
      {
        ghost var next := Next(source, pos, modes);
        assert StepsTo(source, next, tokens, extents, read) by { ReadStep(source, pos, modes, tokens, extents); }
        assert KeepsModes(modes, next) by { NextKeepsModes(source, pos, modes); }
        var token := NextToken();
        if token.Err? {
          SourceWellRead(source);
          return Err(token.error), read;
        }
        KindsSnoc(tokens, token.value);
        tokens := tokens + [token.value];
        extents := extents + [Extent(next.start, next.end)];
        if token.value.kind == Eof {
          SourceWellRead(source);
          return Ok(tokens), read;
        }
      }
    }
  }

  /** Digits, a point and more digits, side by side. */
  lemma Joined(s: string, p: nat, e: nat, f: nat)
    requires p <= e < f <= |s|
    ensures s[p..e] + [s[e]] + s[e + 1..f] == s[p..f]
  {
  }

  /** Skipping again from where skipping ended changes nothing. */
  lemma TriviaDone(s: string, q: nat)
    requires q <= |s| && (q < |s| ==> !IsSpace(s[q]))
    requires !StartsWith2(s, q, '/', '/') && !StartsWith2(s, q, '/', '*')
    ensures Trivia(s, q) == Ok(q)
  {
  }

  ghost function Prepend(tokens: seq<Token>, extents: seq<Extent>, rest: Reading): Reading {
    Reading(tokens + rest.tokens, extents + rest.extents, rest.failure)
  }

  lemma PrependNothing(r: Reading)
    ensures Prepend([], [], r) == r
  {
    assert [] + r.tokens == r.tokens && [] + r.extents == r.extents;
  }

  /** The reading as a whole, once one more token or error is known. */
  ghost predicate StepsTo(s: string, next: Lexed, tokens: seq<Token>, extents: seq<Extent>, whole: Reading)
    requires Advances(s, 0, next)
  {
    match next
    case Failed(at, reason) => whole == Reading(tokens, extents, Some(Failure(at, reason)))
    case Lexed(kind, start, end, modes) =>
      var more, moreExtents := tokens + [Token(kind, SpanAt(s, start))], extents + [Extent(start, end)];
      whole == if kind.Eof? then Reading(more, moreExtents, None) else Prepend(more, moreExtents, Read(s, end, modes))
  }

  lemma ReadStep(s: string, p: nat, modes: seq<Mode>, tokens: seq<Token>, extents: seq<Extent>)
    requires p <= |s|
    ensures StepsTo(s, Next(s, p, modes), tokens, extents, Prepend(tokens, extents, Read(s, p, modes)))
  {
    var next := Next(s, p, modes);
    if next.Failed? {
      assert tokens + [] == tokens && extents + [] == extents;
    } else {
      var rest := if next.kind.Eof? then Reading([], [], None) else Read(s, next.end, next.modes);
      Associative(tokens, [Token(next.kind, SpanAt(s, next.start))], rest.tokens);
      Associative(extents, [Extent(next.start, next.end)], rest.extents);
    }
  }

  lemma KindsSnoc(tokens: seq<Token>, token: Token)
    ensures Kinds(tokens + [token]) == Kinds(tokens) + [token.kind]
    ensures Depth(Kinds(tokens + [token])) == Depth(Kinds(tokens)) + Opens(token.kind)
  {
    var kinds := Kinds(tokens + [token]);
    assert kinds[..|kinds| - 1] == Kinds(tokens);
  }
}
