/**
 * What the live lexer (src/text/lexer/mod.rs) promises: the longest match
 * with ties broken by call order, a word-by-word reference classification of
 * the next token, when a whole pass fails, and the values of literals.
 */
module LexerProperties {
  import opened Wrappers
  import opened CharClasses
  import opened Numerals
  import opened Tokens
  import opened Lexer

  /** The productions of `lex_token` in the order it tries them. */
  function Candidates(s: seq<char>): seq<Lexed<Token>> {
    [LexKeyword(s), LexUnsigned(s), LexId(s), LexLeftParen(s), LexRightParen(s), LexReserved(s)]
  }

  /** `choose` applied to each candidate in turn, starting from no match. */
  function ChooseAll<A>(cands: seq<Lexed<A>>): Lexed<A> {
    if cands == [] then None else Choose(ChooseAll(cands[..|cands| - 1]), cands[|cands| - 1])
  }

  /**
   * `r` is the first of the longest candidates: no match only when nothing
   * matches, otherwise a candidate at least as long as every other one and
   * strictly longer than every one before it.
   */
  ghost predicate IsFirstLongest<A>(cands: seq<Lexed<A>>, r: Lexed<A>) {
    && (r.None? <==> forall i | 0 <= i < |cands| :: cands[i].None?)
    && (r.Some? ==>
          exists i | 0 <= i < |cands| ::
            && cands[i] == r
            && (forall j | 0 <= j < |cands| && cands[j].Some? :: cands[j].value.1 <= r.value.1)
            && (forall j | 0 <= j < i && cands[j].Some? :: cands[j].value.1 < r.value.1))
  }

  /** Folding `choose` over any list of candidates picks the first longest. */
  lemma {:induction false} ChooseAllFirstLongest<A>(cands: seq<Lexed<A>>)
    ensures IsFirstLongest(cands, ChooseAll(cands))
  {
    if cands != [] {
      var k := |cands| - 1;
      var init, last := cands[..k], cands[k];
      ChooseAllFirstLongest(init);
      var acc := ChooseAll(init);
      var r := ChooseAll(cands);
      assert r == Choose(acc, last);
      assert forall j | 0 <= j < k :: cands[j] == init[j];
      if acc.None? {
        if last.Some? {
          assert cands[k] == r;
        }
      } else {
        var i :| 0 <= i < k && init[i] == acc
          && (forall j | 0 <= j < k && init[j].Some? :: init[j].value.1 <= acc.value.1)
          && (forall j | 0 <= j < i && init[j].Some? :: init[j].value.1 < acc.value.1);
        if r == acc {
          assert cands[i] == r;
        } else {
          assert cands[k] == r;
        }
      }
    }
  }

  /** `lex_token` is `choose` folded over its productions in call order. */
  lemma LexTokenIsChooseAll(s: seq<char>)
    ensures LexToken(s) == ChooseAll(Candidates(s))
  {
    var c := Candidates(s);
    assert ChooseAll(c[..1]) == Choose(ChooseAll(c[..0]), c[0]) by { assert c[..1][..0] == c[..0]; }
    assert ChooseAll(c[..2]) == Choose(ChooseAll(c[..1]), c[1]) by { assert c[..2][..1] == c[..1]; }
    assert ChooseAll(c[..3]) == Choose(ChooseAll(c[..2]), c[2]) by { assert c[..3][..2] == c[..2]; }
    assert ChooseAll(c[..4]) == Choose(ChooseAll(c[..3]), c[3]) by { assert c[..4][..3] == c[..3]; }
    assert ChooseAll(c[..5]) == Choose(ChooseAll(c[..4]), c[4]) by { assert c[..5][..4] == c[..4]; }
    assert ChooseAll(c) == Choose(ChooseAll(c[..5]), c[5]);
  }

  /**
   * Longest match, ties to the earliest production: keyword, unsigned, id,
   * left paren, right paren, reserved.
   */
  lemma LexTokenFirstLongest(s: seq<char>)
    ensures IsFirstLongest(Candidates(s), LexToken(s))
  {
    LexTokenIsChooseAll(s);
    ChooseAllFirstLongest(Candidates(s));
  }

  /** The idchar run at the start of `s`: the text a word-like token covers. */
  function Word(s: seq<char>): seq<char> {
    s[..Span(IdChar, s)]
  }

  /**
   * A whole word read as an unsigned integer literal: decimal digits, or
   * `0x` and hexadecimal digits. Nothing when it is neither or when the
   * value does not fit in 32 bits.
   */
  function WordValue(w: seq<char>): Option<u32> {
    if |w| >= 1 && IsNumeral(w, 10) then
      if Value(w, 10) < U32_LIMIT then Some(Value(w, 10)) else None
    else if |w| >= 3 && w[0] == '0' && w[1] == 'x' && IsNumeral(w[2..], 16) then
      if Value(w[2..], 16) < U32_LIMIT then Some(Value(w[2..], 16)) else None
    else
      None
  }

  /**
   * A reference reading of the next token: a paren on its own, otherwise the
   * whole word at the start of the input, which is a keyword when it starts
   * with a lower-case letter, an unsigned integer when all of it reads as
   * one, an identifier when it is `$` and more, and reserved otherwise.
   */
  function Classify(s: seq<char>): Lexed<Token> {
    if s == [] then None
    else if s[0] == '(' then Some((LeftParen, 1))
    else if s[0] == ')' then Some((RightParen, 1))
    else if !IsIdChar(s[0]) then None
    else
      var w := Word(s);
      var t :=
        if IsLower(w[0]) then Keyword(w)
        else if WordValue(w).Some? then Unsigned(WordValue(w).value)
        else if w[0] == '$' && |w| >= 2 then Id(w)
        else Reserved(w);
      Some((t, |w|))
  }

  /** A decimal match covers the word exactly when the word is all digits. */
  lemma DecimalOnWord(s: seq<char>)
    requires s != [] && IsIdChar(s[0])
    ensures var d := Span(Digit, s); var w := Word(s);
      d <= |w| && (d == |w| <==> IsNumeral(w, 10))
  {
    var w := Word(s);
    SpanMonotone(Digit, IdChar, s);
    if IsNumeral(w, 10) {
      MaximalRunIsSpan(Digit, s, |w|);
    }
  }

  /** After `0x`, a hexadecimal match covers the word exactly when the rest of it is hex digits. */
  lemma HexOnWord(s: seq<char>)
    requires |s| >= 2 && s[0] == '0' && s[1] == 'x'
    ensures var h := Span(HexDigit, s[2..]); var w := Word(s);
      |w| == 2 + Span(IdChar, s[2..]) && w[2..] == s[2..][..|w| - 2]
      && h <= |w| - 2 && (h == |w| - 2 <==> IsNumeral(w[2..], 16))
  {
    var w := Word(s);
    assert Span(IdChar, s) == 2 + Span(IdChar, s[2..]) by {
      assert s[1..][1..] == s[2..];
    }
    SpanMonotone(HexDigit, IdChar, s[2..]);
    if IsNumeral(w[2..], 16) {
      MaximalRunIsSpan(HexDigit, s[2..], |w| - 2);
    }
  }

  /**
   * `lex_unsigned` never reaches past the word, and it covers the whole word
   * exactly when the word reads as an unsigned integer, with that value.
   */
  lemma UnsignedOnWord(s: seq<char>)
    requires s != [] && IsIdChar(s[0])
    ensures var u := LexUnsigned(s); var w := Word(s);
      && (u.Some? ==> u.value.1 <= |w|)
      && (u.Some? && u.value.1 == |w| <==> WordValue(w).Some?)
      && (WordValue(w).Some? ==> u.value.0 == Unsigned(WordValue(w).value))
  {
    var w := Word(s);
    DecimalOnWord(s);
    if |s| >= 2 && s[0] == '0' && s[1] == 'x' {
      HexOnWord(s);
      assert !IsNumeral(w, 10) by { assert !IsDigit(w[1]); }
    } else {
      assert LexUnsignedHex(s).None?;
    }
  }

  /**
   * `lex_token` agrees with the reference reading: the longest match is the
   * whole word (or the paren), and call order decides what it becomes.
   */
  lemma LexTokenClassify(s: seq<char>)
    ensures LexToken(s) == Classify(s)
  {
    if s != [] && IsIdChar(s[0]) {
      UnsignedOnWord(s);
      assert |Word(s)| == 1 + Span(IdChar, s[1..]);
    }
  }

  /**
   * A numeral that does not fit in 32 bits is no unsigned token: the same
   * word falls through to the reserved production.
   */
  lemma OverflowIsReserved(s: seq<char>)
    requires s != [] && IsDigit(s[0])
    requires var w := Word(s);
      || (IsNumeral(w, 10) && Value(w, 10) >= U32_LIMIT)
      || (|w| >= 3 && w[1] == 'x' && IsNumeral(w[2..], 16) && Value(w[2..], 16) >= U32_LIMIT)
    ensures LexToken(s) == Some((Reserved(Word(s)), |Word(s)|))
  {
    LexTokenClassify(s);
    var w := Word(s);
    if |w| >= 2 && w[1] == 'x' {
      assert !IsNumeral(w, 10) by { assert !IsDigit(w[1]); }
    }
  }

  /** A character that a token or a whitespace run can start with. */
  predicate IsScannable(c: char) {
    IsIdChar(c) || IsParen(c) || IsSpace(c)
  }

  /** A token consumes only idchars and parens. */
  lemma TokenIsScannable(s: seq<char>, t: Token, n: nat)
    requires LexToken(s) == Some((t, n))
    ensures forall i | 0 <= i < n :: IsIdChar(s[i]) || IsParen(s[i])
  {
    LexTokenClassify(s);
  }

  /** Every character of `s` is scannable. */
  ghost predicate AllScannable(s: seq<char>) {
    forall i | 0 <= i < |s| :: IsScannable(s[i])
  }

  lemma ScannableSplit(s: seq<char>, n: nat)
    requires n <= |s|
    ensures AllScannable(s) <==> AllScannable(s[..n]) && AllScannable(s[n..])
  {
    assert forall i | n <= i < |s| :: s[i] == s[n..][i - n];
  }

  /**
   * A pass fails exactly when the input holds a character that no token and
   * no whitespace can contain: every other character is eventually consumed.
   */
  lemma {:induction false} LexLoopOkIff(tokens: seq<Token>, s: seq<char>)
    ensures LexLoop(tokens, s).Ok? <==> AllScannable(s)
    decreases |s|
  {
    if s != [] {
      var token := LexToken(s);
      if token.Some? {
        var (t, n) := token.value;
        TokenStep(tokens, s, t, n);
        TokenIsScannable(s, t, n);
        LexLoopOkIff(tokens + [t], s[n..]);
        ScannableSplit(s, n);
      } else if LexSpace(s).Some? {
        var n := LexSpace(s).value.1;
        SpaceStep(tokens, s, n);
        LexLoopOkIff(tokens, s[n..]);
        ScannableSplit(s, n);
      } else {
        StuckStep(tokens, s);
      }
    }
  }

  /** Outside string literals and comments, which are not lexed, the text format is ASCII. */
  lemma NonAsciiFails(s: seq<char>, i: nat)
    requires i < |s| && !IsAscii(s[i])
    ensures LexLoop([], s) == Err
  {
    if IsScannable(s[i]) {
      ClassesAreAscii(s[i]);
    }
    LexLoopOkIff([], s);
    assert !AllScannable(s);
  }

  /** A whitespace run is skipped as a whole and emits nothing. */
  lemma SkipsWhitespace(tokens: seq<Token>, s: seq<char>)
    requires s != [] && IsSpace(s[0])
    ensures LexLoop(tokens, s) == LexLoop(tokens, s[Span(Space, s)..])
  {
    assert LexLoop(tokens, s) == LexLoopStep(tokens, s);
  }

  /** Input that is one whole token lexes to that token alone. */
  lemma SingleToken(s: seq<char>, t: Token)
    requires LexToken(s) == Some((t, |s|))
    ensures LexLoop([], s) == Ok([t])
  {
    TokenStep([], s, t, |s|);
    var empty: seq<Token> := [];
    assert empty + [t] == [t];
    assert s[|s|..] == [];
    assert LexLoop([t], []) == Ok([t]);
  }

  /** Input made only of idchars is one word. */
  lemma WholeWord(s: seq<char>)
    requires forall i | 0 <= i < |s| :: IsIdChar(s[i])
    ensures Word(s) == s
  {
    MaximalRunIsSpan(IdChar, s, |s|);
  }

  /** A whole word that reads as an unsigned integer is one unsigned token. */
  lemma UnsignedWordToken(s: seq<char>, v: u32)
    requires forall i | 0 <= i < |s| :: IsIdChar(s[i])
    requires WordValue(s) == Some(v)
    ensures LexToken(s) == Some((Unsigned(v), |s|))
  {
    WholeWord(s);
    LexTokenClassify(s);
  }

  /** A decimal literal lexes back to its value. */
  lemma DecimalRoundTrip(n: u32)
    ensures LexLoop([], Digits(n, 10)) == Ok([Unsigned(n)])
  {
    var s := Digits(n, 10);
    ValueOfDigits(n, 10);
    assert forall i | 0 <= i < |s| :: IsIdChar(s[i]) by {
      assert forall i | 0 <= i < |s| :: IsDigitOf(10, s[i]);
    }
    UnsignedWordToken(s, n);
    SingleToken(s, Unsigned(n));
  }

  /** A hexadecimal literal lexes back to its value. */
  lemma HexRoundTrip(n: u32)
    ensures LexLoop([], "0x" + Digits(n, 16)) == Ok([Unsigned(n)])
  {
    var d := Digits(n, 16);
    var s := "0x" + d;
    ValueOfDigits(n, 16);
    assert forall i | 2 <= i < |s| :: s[i] == d[i - 2] && IsIdChar(s[i]) by {
      assert forall i | 0 <= i < |d| :: IsDigitOf(16, d[i]);
    }
    assert s[2..] == d;
    assert !IsNumeral(s, 10) by { assert !IsDigit(s[1]); }
    UnsignedWordToken(s, n);
    SingleToken(s, Unsigned(n));
  }

  /** "12" is an unsigned integer rather than a reserved word: call order breaks the tie. */
  lemma DecimalExample()
    ensures LexLoop([], "12") == Ok([Unsigned(12)])
  {
    assert "12"[..1] == "1";
    UnsignedWordToken("12", 12);
    SingleToken("12", Unsigned(12));
  }

  /** "0x1A" is one unsigned integer of value 26 and length 4. */
  lemma HexExample()
    ensures LexToken("0x1A") == Some((Unsigned(26), 4))
    ensures LexLoop([], "0x1A") == Ok([Unsigned(26)])
  {
    var s := "0x1A";
    assert s[2..] == "1A" && "1A"[..1] == "1";
    assert !IsNumeral(s, 10) by { assert !IsDigit(s[1]); }
    UnsignedWordToken(s, 26);
    SingleToken(s, Unsigned(26));
  }

  /** "module" is a keyword: it starts with a lower-case letter. */
  lemma KeywordExample()
    ensures LexLoop([], "module") == Ok([Keyword("module")])
  {
    var s := "module";
    WholeWord(s);
    assert IsLower(s[0]);
    LexTokenClassify(s);
    SingleToken(s, Keyword(s));
  }

  /** "$a" is an identifier, and its text keeps the `$`. */
  lemma IdExample()
    ensures LexLoop([], "$a") == Ok([Id("$a")])
  {
    var s := "$a";
    WholeWord(s);
    assert WordValue(s).None? by { assert !IsDigit(s[0]); }
    LexTokenClassify(s);
    SingleToken(s, Id(s));
  }

  /** "0x" and "0xfg" are not numbers: the reserved production covers more. */
  lemma PrefixExamples()
    ensures LexLoop([], "0x") == Ok([Reserved("0x")])
    ensures LexLoop([], "0xfg") == Ok([Reserved("0xfg")])
  {
    WholeWord("0x");
    assert !IsNumeral("0x", 10) by { assert !IsDigit("0x"[1]); }
    LexTokenClassify("0x");
    SingleToken("0x", Reserved("0x"));
    var s := "0xfg";
    WholeWord(s);
    assert !IsNumeral(s, 10) by { assert !IsDigit(s[1]); }
    assert !IsNumeral(s[2..], 16) by { assert !IsHexDigit(s[2..][1]); }
    LexTokenClassify(s);
    SingleToken(s, Reserved(s));
  }

  /**
   * A decimal literal of 2^32 or more, such as "4294967296", lexes as one
   * reserved word rather than failing.
   */
  lemma DecimalOverflowRoundTrip(n: nat)
    requires n >= U32_LIMIT
    ensures LexLoop([], Digits(n, 10)) == Ok([Reserved(Digits(n, 10))])
  {
    var s := Digits(n, 10);
    ValueOfDigits(n, 10);
    assert forall i | 0 <= i < |s| :: IsIdChar(s[i]) by {
      assert forall i | 0 <= i < |s| :: IsDigitOf(10, s[i]);
    }
    WholeWord(s);
    OverflowIsReserved(s);
    SingleToken(s, Reserved(s));
  }

  /** "4294967296" is 2^32, one past the largest `u32`, so it is a single reserved word. */
  lemma OverflowLiteral()
    ensures LexLoop([], "4294967296") == Ok([Reserved("4294967296")])
  {
    assert Digits(U32_LIMIT, 10) == "4294967296";
    DecimalOverflowRoundTrip(U32_LIMIT);
  }

  /** A paren is a token of length one. */
  lemma ParenToken(s: seq<char>)
    requires s != [] && IsParen(s[0])
    ensures LexToken(s) == Some((if s[0] == '(' then LeftParen else RightParen, 1))
  {
    LexTokenClassify(s);
  }

  /** A run of left parens is one token per paren: a paren never extends. */
  lemma {:induction false} LeftParenRun(tokens: seq<Token>, s: seq<char>)
    requires forall i | 0 <= i < |s| :: s[i] == '('
    ensures LexLoop(tokens, s) == Ok(tokens + seq(|s|, _ => LeftParen))
    decreases |s|
  {
    if s == [] {
      assert tokens + seq(0, _ => LeftParen) == tokens;
    } else {
      ParenToken(s);
      TokenStep(tokens, s, LeftParen, 1);
      LeftParenRun(tokens + [LeftParen], s[1..]);
      assert tokens + [LeftParen] + seq(|s| - 1, _ => LeftParen) == tokens + seq(|s|, _ => LeftParen);
    }
  }

  /** "(((" adds three tokens to whatever came before it, and "" none. */
  lemma ParensExample(tokens: seq<Token>)
    ensures LexLoop(tokens, "(((") == Ok(tokens + [LeftParen, LeftParen, LeftParen])
    ensures LexLoop(tokens, "") == Ok(tokens)
  {
    LeftParenRun(tokens, "(((");
    ThreeLeftParens();
  }

  lemma ThreeLeftParens()
    ensures seq(3, _ => LeftParen) == [LeftParen, LeftParen, LeftParen]
  {
  }

  /** A word that starts with a lower-case letter is one keyword token. */
  lemma KeywordToken(s: seq<char>)
    requires s != [] && IsLower(s[0])
    ensures LexToken(s) == Some((Keyword(Word(s)), |Word(s)|))
  {
    LexTokenClassify(s);
  }

  /** A paren emits its token and moves one character on. */
  lemma ParenStep(tokens: seq<Token>, s: seq<char>)
    requires s != [] && IsParen(s[0])
    ensures LexLoop(tokens, s) == LexLoop(tokens + [if s[0] == '(' then LeftParen else RightParen], s[1..])
  {
    ParenToken(s);
    TokenStep(tokens, s, if s[0] == '(' then LeftParen else RightParen, 1);
  }

  /** A word that starts with a lower-case letter emits one keyword and moves past the word. */
  lemma KeywordStep(tokens: seq<Token>, s: seq<char>)
    requires s != [] && IsLower(s[0])
    ensures LexLoop(tokens, s) == LexLoop(tokens + [Keyword(Word(s))], s[|Word(s)|..])
  {
    KeywordToken(s);
    TokenStep(tokens, s, Keyword(Word(s)), |Word(s)|);
  }
}
