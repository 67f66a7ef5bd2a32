/**
 * What the draft lexer (src/text/lexer.rs) does with its narrower token set:
 * which tokens it can emit, where it fails, and that whenever it succeeds
 * the live lexer produces the same tokens.
 */
module DraftProperties {
  import opened Wrappers
  import opened CharClasses
  import opened Numerals
  import opened Tokens
  import opened DraftLexer
  import Lexer
  import LexerProperties

  /** The only tokens the draft builds. */
  predicate IsDraftToken(t: Token) {
    t.Unsigned? || t == LeftParen || t == RightParen
  }

  /**
   * The draft's next token is a paren when the input starts with one and the
   * unsigned reading otherwise; both can never match at once.
   */
  lemma DraftTokenIsUnsignedOrParen(s: seq<char>)
    ensures LexToken(s) ==
      if s != [] && s[0] == '(' then Some((LeftParen, 1))
      else if s != [] && s[0] == ')' then Some((RightParen, 1))
      else Lexer.LexUnsigned(s)
    ensures s != [] && IsParen(s[0]) ==> Lexer.LexUnsigned(s).None?
  {
    if s != [] && IsParen(s[0]) {
      assert Lexer.LexUnsignedDec(s).None? by {
        assert Span(Digit, s) == 0;
      }
    }
  }

  /** Every token of a successful draft pass is an unsigned integer or a paren. */
  lemma {:induction false} DraftTokens(tokens: seq<Token>, s: seq<char>)
    requires forall i | 0 <= i < |tokens| :: IsDraftToken(tokens[i])
    ensures LexLoop(tokens, s).Ok? ==>
      forall i | 0 <= i < |LexLoop(tokens, s).value| :: IsDraftToken(LexLoop(tokens, s).value[i])
    decreases |s|
  {
    if s != [] {
      var token := LexToken(s);
      if token.Some? {
        var (t, n) := token.value;
        TokenStep(tokens, s, t, n);
        DraftTokenIsUnsignedOrParen(s);
        DraftTokens(tokens + [t], s[n..]);
      } else if Lexer.LexSpace(s).Some? {
        var n := Lexer.LexSpace(s).value.1;
        SpaceStep(tokens, s, n);
        DraftTokens(tokens, s[n..]);
      } else {
        StuckStep(tokens, s);
      }
    }
  }

  /**
   * Reaching a character that is not a digit, a paren or whitespace fails
   * the pass: a letter or a `$`, for instance.
   */
  lemma StartFails(tokens: seq<Token>, s: seq<char>)
    requires s != [] && !IsDigit(s[0]) && !IsParen(s[0]) && !IsSpace(s[0])
    ensures LexLoop(tokens, s) == Err
  {
    StuckStep(tokens, s);
  }

  /** A character the draft can consume: hex digits and `x` for integers, parens and whitespace. */
  predicate IsDraftChar(c: char) {
    IsHexDigit(c) || c == 'x' || IsParen(c) || IsSpace(c)
  }

  /** A draft token consumes only digits, `x`, hex digits and parens. */
  lemma DraftTokenChars(s: seq<char>, t: Token, n: nat)
    requires LexToken(s) == Some((t, n))
    ensures forall i | 0 <= i < n :: IsHexDigit(s[i]) || s[i] == 'x' || IsParen(s[i])
  {
    DraftTokenIsUnsignedOrParen(s);
    var hex := Lexer.LexUnsignedHex(s);
    if hex.Some? && LexToken(s) == Lexer.LexUnsigned(s) {
      assert forall i | 2 <= i < n :: s[i] == s[2..][i - 2];
    }
  }

  /** A character the draft cannot consume anywhere in the input fails the pass. */
  lemma {:induction false} ForeignCharFails(tokens: seq<Token>, s: seq<char>, i: nat)
    requires i < |s| && !IsDraftChar(s[i])
    ensures LexLoop(tokens, s) == Err
    decreases |s|
  {
    var token := LexToken(s);
    if token.Some? {
      var (t, n) := token.value;
      TokenStep(tokens, s, t, n);
      DraftTokenChars(s, t, n);
      ForeignCharFails(tokens + [t], s[n..], i - n);
    } else if Lexer.LexSpace(s).Some? {
      var n := Lexer.LexSpace(s).value.1;
      SpaceStep(tokens, s, n);
      ForeignCharFails(tokens, s[n..], i - n);
    } else {
      StuckStep(tokens, s);
    }
  }

  /**
   * A decimal run that does not fit in 32 bits fails the pass: the draft has
   * no reserved production to fall back on.
   */
  lemma DecimalOverflowFails(tokens: seq<Token>, s: seq<char>)
    requires s != [] && IsDigit(s[0]) && Value(s[..Span(Digit, s)], 10) >= U32_LIMIT
    ensures LexLoop(tokens, s) == Err
  {
    LargeValueHasTwoDigits(s[..Span(Digit, s)]);
    assert IsDigit(s[1]);
    assert Lexer.LexUnsignedHex(s).None?;
    DraftTokenIsUnsignedOrParen(s);
    StuckStep(tokens, s);
  }

  /** "0xff" is one unsigned integer of value 255 and length 4. */
  lemma HexExample()
    ensures LexToken("0xff") == Some((Unsigned(255), 4))
  {
    var s := "0xff";
    assert Span(HexDigit, s[2..]) == 2 by {
      assert s[2..] == "ff";
      MaximalRunIsSpan(HexDigit, s[2..], 2);
    }
    assert s[2..][..2] == "ff" && "ff"[..1] == "f";
    DraftTokenIsUnsignedOrParen(s);
  }

  /** "0x" is `0` followed by an `x` that nothing matches. */
  lemma PrefixExample(tokens: seq<Token>)
    ensures LexToken("0x") == Some((Unsigned(0), 1))
    ensures LexLoop(tokens, "0x") == Err
  {
    var s := "0x";
    assert Span(Digit, s) == 1 by {
      MaximalRunIsSpan(Digit, s, 1);
    }
    assert s[..1] == "0";
    DraftTokenIsUnsignedOrParen(s);
    TokenStep(tokens, s, Unsigned(0), 1);
    assert s[1..] == "x";
    StartFails(tokens + [Unsigned(0)], "x");
  }

  /** A whitespace run is skipped as a whole and emits nothing. */
  lemma SkipsWhitespace(tokens: seq<Token>, s: seq<char>)
    requires s != [] && IsSpace(s[0])
    ensures LexLoop(tokens, s) == LexLoop(tokens, s[Span(Space, s)..])
  {
    SpaceStep(tokens, s, Span(Space, s));
  }

  /**
   * An unsigned match covers idchars only and ends where the digits end: the
   * character after it is never a decimal digit.
   */
  lemma UnsignedRunEnd(s: seq<char>, v: u32, n: nat)
    requires Lexer.LexUnsigned(s) == Some((Unsigned(v), n))
    ensures n <= |s| && (forall i | 0 <= i < n :: IsIdChar(s[i]))
    ensures n < |s| ==> !IsDigit(s[n])
  {
    var hex := Lexer.LexUnsignedHex(s);
    if hex.Some? {
      assert forall i | 2 <= i < n :: s[i] == s[2..][i - 2];
      if n < |s| {
        assert s[n] == s[2..][n - 2];
      }
    }
  }

  /** A successful draft pass over a non-empty rest starts with a digit, a paren or whitespace. */
  lemma DraftOkStart(tokens: seq<Token>, s: seq<char>)
    requires s != [] && LexLoop(tokens, s).Ok?
    ensures IsDigit(s[0]) || IsParen(s[0]) || IsSpace(s[0])
  {
    if LexToken(s).None? && Lexer.LexSpace(s).None? {
      StuckStep(tokens, s);
    }
  }

  /**
   * An unsigned match that the draft continues from is the whole word, so
   * the live lexer reads the same token there.
   */
  lemma UnsignedIsLiveToken(s: seq<char>, v: u32, n: nat)
    requires s != [] && IsDigit(s[0])
    requires Lexer.LexUnsigned(s) == Some((Unsigned(v), n))
    requires n < |s| ==> !IsIdChar(s[n])
    ensures Lexer.LexToken(s) == Some((Unsigned(v), n))
  {
    UnsignedRunEnd(s, v, n);
    MaximalRunIsSpan(IdChar, s, n);
    LexerProperties.UnsignedOnWord(s);
    LexerProperties.LexTokenClassify(s);
  }

  /**
   * Whatever the draft lexes, the live lexer lexes to the same tokens: the
   * live lexer only adds productions for inputs on which the draft fails.
   */
  lemma {:induction false} DraftRefinesLive(tokens: seq<Token>, s: seq<char>)
    ensures LexLoop(tokens, s).Ok? ==> Lexer.LexLoop(tokens, s) == LexLoop(tokens, s)
    decreases |s|
  {
    if s == [] {
      assert Lexer.LexLoop(tokens, s) == Ok(tokens);
    } else {
      var token := LexToken(s);
      if token.Some? {
        var (t, n) := token.value;
        TokenStep(tokens, s, t, n);
        DraftRefinesLive(tokens + [t], s[n..]);
        DraftTokenIsUnsignedOrParen(s);
        if IsParen(s[0]) {
          LexerProperties.ParenStep(tokens, s);
        } else if LexLoop(tokens, s).Ok? {
          var v := t.value;
          UnsignedRunEnd(s, v, n);
          if n < |s| {
            DraftOkStart(tokens + [t], s[n..]);
            assert s[n..][0] == s[n];
          }
          UnsignedIsLiveToken(s, v, n);
          Lexer.TokenStep(tokens, s, t, n);
        }
      } else if Lexer.LexSpace(s).Some? {
        var n := Lexer.LexSpace(s).value.1;
        SpaceStep(tokens, s, n);
        DraftRefinesLive(tokens, s[n..]);
        Lexer.SpaceStep(tokens, s, n);
      } else {
        StuckStep(tokens, s);
      }
    }
  }
}
