/**
 Writing a string as a literal and lexing it back.  The escapes that the C back end
 produces are exactly those the lexer decodes.
 */
module LexRoundTrip {
  import opened LexSpec
  import opened Sequences
  import opened Wrappers

  // ----- escaping -----

  function EscapeChar(c: char): string {
    if c == '\n' then "\\n"
    else if c == '\t' then "\\t"
    else if c == '\r' then "\\r"
    else if c == '\\' then "\\\\"
    else if c == '"' then "\\\""
    else if c == '\0' then "\\0"
    else [c]
  }

  ghost function Escape(s: string): string {
    if s == "" then "" else EscapeChar(s[0]) + Escape(s[1..])
  }

  lemma {:induction false} EscapeSnoc(s: string, c: char)
    ensures Escape(s + [c]) == Escape(s) + EscapeChar(c)
  {
    if s == "" {
      assert (s + [c])[1..] == "";
    } else {
      assert (s + [c])[1..] == s[1..] + [c];
      EscapeSnoc(s[1..], c);
    }
  }

  lemma {:induction false} EscapeConcat(s: string, t: string)
    ensures Escape(s + t) == Escape(s) + Escape(t)
  {
    if t == "" {
      assert s + t == s;
    } else {
      var front, last := t[..|t| - 1], t[|t| - 1];
      assert s + t == s + front + [last] && t == front + [last];
      EscapeConcat(s, front);
      EscapeSnoc(s + front, last);
      EscapeSnoc(front, last);
    }
  }

  /** The characters written for one character, by code: line feed, tab, carriage return,
      backslash, quote and zero get a backslash and a letter, all others stand for themselves. */
  lemma EscapedCodes(c: char)
    ensures Escape([c]) ==
            match c as int
            case 10 => ['\\', 'n']
            case 9 => ['\\', 't']
            case 13 => ['\\', 'r']
            case 92 => ['\\', '\\']
            case 34 => ['\\', '"']
            case 0 => ['\\', '0']
            case _ => [c]
  {
    assert [c][1..] == "" && Escape("") == "";
    assert Escape([c]) == EscapeChar(c) + "" == EscapeChar(c);
  }

  method EscapeCString(s: string) returns (out: string)
    ensures out == Escape(s)
  {
    out := "";
    for i := 0 to |s|
      invariant out == Escape(s[..i])
    {
      assert s[..i + 1] == s[..i] + [s[i]];
      EscapeSnoc(s[..i], s[i]);
      match s[i]
      case '\n' => out := out + "\\n";
      case '\t' => out := out + "\\t";
      case '\r' => out := out + "\\r";
      case '\\' => out := out + "\\\\";
      case '"' => out := out + "\\\"";
      case '\0' => out := out + "\\0";
      case c => out := out + [c];
    }
    assert s[..|s|] == s;
  }

  /** A character is written as a backslash and a letter exactly when the lexer decodes
      that letter to it, and as itself exactly when no letter decodes to it. */
  lemma EscapesAreDecoded(c: char)
    ensures forall x :: EscapeChar(c) == ['\\', x] <==> Unescape(x) == Some(c)
    ensures EscapeChar(c) == [c] <==> forall x :: Unescape(x) != Some(c)
  {
    forall x ensures EscapeChar(c) == ['\\', x] <==> Unescape(x) == Some(c) {
      assert EscapeChar(c) == [c] || EscapeChar(c)[0] == '\\';
      if |EscapeChar(c)| == 2 {
        assert EscapeChar(c) == ['\\', EscapeChar(c)[1]] && Unescape(EscapeChar(c)[1]) == Some(c);
      }
    }
    if EscapeChar(c) != [c] { assert Unescape(EscapeChar(c)[1]) == Some(c); }
  }

  // ----- braces -----

  function BraceChar(c: char): string { if c == '{' || c == '}' then [c, c] else [c] }

  ghost function DoubleBraces(s: string): string {
    if s == "" then "" else BraceChar(s[0]) + DoubleBraces(s[1..])
  }

  lemma {:induction false} DoubleBracesConcat(a: string, b: string)
    ensures DoubleBraces(a + b) == DoubleBraces(a) + DoubleBraces(b)
  {
    if a == "" {
      assert a + b == b;
    } else {
      assert (a + b)[1..] == a[1..] + b;
      DoubleBracesConcat(a[1..], b);
    }
  }

  /** What stands for one character in a literal: an escape, a doubled brace, or itself. */
  ghost function Piece(c: char): string {
    if |EscapeChar(c)| == 2 then EscapeChar(c) else BraceChar(c)
  }

  ghost function Body(s: string): string { DoubleBraces(Escape(s)) }

  lemma BodyStep(s: string)
    requires s != ""
    ensures Body(s) == Piece(s[0]) + Body(s[1..])
  {
    var e := EscapeChar(s[0]);
    DoubleBracesConcat(e, Escape(s[1..]));
    assert DoubleBraces(e) == Piece(s[0]) by {
      assert e[1..] == "" || e == ['\\', e[1]];
      if |e| == 2 {
        assert e[1..] == [e[1]] && e[1..][1..] == "";
        assert DoubleBraces(e) == [e[0]] + DoubleBraces(e[1..]) == [e[0]] + [e[1]];
      }
    }
  }

  // ----- reading back -----

  /** One piece is read as the character it stands for. */
  lemma ReadPiece(src: string, p: nat, c: char, rest: string, text: string)
    requires p <= |src| && src[p..] == Piece(c) + rest && rest != ""
    ensures p + |Piece(c)| <= |src| && src[p + |Piece(c)|..] == rest
    ensures SegmentAt(src, p, text) == SegmentAt(src, p + |Piece(c)|, text + [c])
  {
    var n := |Piece(c)|;
    assert forall i :: 0 <= i < n ==> src[p + i] == src[p..][i] == Piece(c)[i];
    assert src[p..][n..] == src[p + n..];
    assert src[p + 0] == Piece(c)[0];
    if n == 2 { assert src[p + 1] == Piece(c)[1]; }
  }

  /** A whole body up to the closing quote is read back. */
  lemma {:induction false} ReadBody(src: string, p: nat, s: string, text: string)
    requires p <= |src| && src[p..] == Body(s) + "\""
    ensures SegmentAt(src, p, text) == Closed(text + s, |src|)
    decreases |s|
  {
    if s == "" {
      assert src[p..] == "\"" && src[p] == src[p..][0];
      assert text + s == text;
    } else {
      BodyStep(s);
      var c, rest := s[0], Body(s[1..]) + "\"";
      var q := p + |Piece(c)|;
      assert src[p..] == Piece(c) + rest by { Associative(Piece(c), Body(s[1..]), "\""); }
      assert q <= |src| && src[q..] == rest && SegmentAt(src, p, text) == SegmentAt(src, q, text + [c]) by {
        ReadPiece(src, p, c, rest, text);
      }
      ReadBody(src, q, s[1..], text + [c]);
      assert text + [c] + s[1..] == text + s by {
        Associative(text, [c], s[1..]);
        assert [c] + s[1..] == s;
      }
    }
  }

  ghost function Literal(s: string): string { "\"" + Body(s) + "\"" }

  /** Lexing the literal of any string gives that string, and nothing else. */
  lemma LiteralReadsBack(s: string)
    ensures var src := Literal(s);
            Tokens(src, 0, []) == Ok([Token(StringLit(s), Span(1, 1)), Token(Eof, SpanAt(src, |src|))])
  {
    var src := Literal(s);
    var end := |src|;
    assert SegmentAt(src, 1, "") == Closed(s, end) by {
      assert src[1..] == Body(s) + "\"";
      ReadBody(src, 1, s, "");
      assert "" + s == s;
    }
    assert src[0] == '"' && Trivia(src, 0) == Ok(0);
    assert Next(src, 0, []) == Lexed(StringLit(s), 0, end, []);
    assert Next(src, end, []) == Lexed(Eof, end, end, []);
    assert SpanAt(src, 0) == Span(1, 1) by { assert src[..0] == ""; }
    var first, last := Token(StringLit(s), Span(1, 1)), Token(Eof, SpanAt(src, end));
    var rest := Read(src, end, []);
    assert rest == ReadOn(src, end, Lexed(Eof, end, end, [])) == Cons(last, Extent(end, end), Reading([], [], None));
    assert Read(src, 0, []) == ReadOn(src, 0, Lexed(StringLit(s), 0, end, [])) == Cons(first, Extent(0, end), rest);
    assert rest.tokens == [last] && rest.failure.None?;
    assert [first] + [last] == [first, last];
  }
}
