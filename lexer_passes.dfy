/**
 * Properties of whole passes of the live lexer (src/text/lexer/mod.rs):
 * whitespace between tokens only separates them, and a few passes over
 * several tokens.
 */
module LexerPasses {
  import opened Wrappers
  import opened CharClasses
  import opened Numerals
  import opened Tokens
  import opened Lexer
  import opened LexerProperties

  /** Dropping a prefix of `a` from `a + c`. */
  lemma DropAppend(a: seq<char>, c: seq<char>, n: nat)
    requires n <= |a|
    ensures (a + c)[n..] == a[n..] + c
  {
  }

  /** Regrouping `a + w + b`, and the last character of a suffix of `a`. */
  lemma Regroup(a: seq<char>, w: seq<char>, b: seq<char>, n: nat)
    requires n <= |a|
    ensures a + w + b == a + (w + b)
    ensures a[n..] + (w + b) == a[n..] + w + b
    ensures n < |a| ==> a[n..][|a[n..]| - 1] == a[|a| - 1]
  {
  }

  /** The characters after a one-character head. */
  lemma DropHead(c: char, w: seq<char>, d: seq<char>)
    ensures ([c] + w + d)[1..] == w + d
  {
  }

  /** Appending two tokens one at a time, and a third after them. */
  lemma Snoc(tokens: seq<Token>, t1: Token, t2: Token, t3: Token)
    ensures tokens + [t1] + [t2] == tokens + [t1, t2]
    ensures tokens + [t1, t2] + [t3] == tokens + [t1, t2, t3]
  {
  }

  /** Regrouping three words and the spaces between them. */
  lemma RegroupWords(w1: seq<char>, w2: seq<char>, w3: seq<char>, sp: seq<char>)
    ensures w1 + sp + w2 + sp + w3 == w1 + (sp + (w2 + (sp + w3)))
    ensures w3 + [] == w3
  {
  }

  /** The run of a class over `a + c` stops inside `a` or runs on into `c`. */
  lemma SpanAppend(k: CharClass, a: seq<char>, c: seq<char>)
    ensures Span(k, a + c) == if Span(k, a) < |a| then Span(k, a) else |a| + Span(k, c)
  {
    var m, p := Span(k, a), Span(k, c);
    var s := a + c;
    assert forall i | 0 <= i < |a| :: s[i] == a[i];
    if m < |a| {
      MaximalRunIsSpan(k, s, m);
    } else {
      assert forall i | |a| <= i < |s| :: s[i] == c[i - |a|];
      MaximalRunIsSpan(k, s, |a| + p);
    }
  }

  /** The next token depends only on the first character and the word it starts. */
  lemma SameWordSameToken(s1: seq<char>, s2: seq<char>)
    requires s1 != [] && s2 != [] && s1[0] == s2[0] && Word(s1) == Word(s2)
    ensures LexToken(s1) == LexToken(s2)
  {
    LexTokenClassify(s1);
    LexTokenClassify(s2);
  }

  /** A word followed by anything but an idchar is `w`'s own token, and the pass moves past it. */
  lemma WordStep(tokens: seq<Token>, w: seq<char>, c: seq<char>)
    requires w != [] && forall i | 0 <= i < |w| :: IsIdChar(w[i])
    requires c == [] || !IsIdChar(c[0])
    ensures LexToken(w).Some? && LexToken(w).value.1 == |w|
    ensures LexLoop(tokens, w + c) == LexLoop(tokens + [LexToken(w).value.0], c)
  {
    WholeWord(w);
    SpanAppend(IdChar, w, c);
    assert Word(w + c) == w;
    SameWordSameToken(w + c, w);
    LexTokenClassify(w);
    TokenStep(tokens, w + c, LexToken(w).value.0, |w|);
    assert (w + c)[|w|..] == c;
  }

  /** A whitespace run emits nothing, whatever follows it. */
  lemma SpaceRun(tokens: seq<Token>, w: seq<char>, b: seq<char>)
    requires w != [] && forall i | 0 <= i < |w| :: IsSpace(w[i])
    ensures LexLoop(tokens, w + b) == LexLoop(tokens, b)
  {
    var s := w + b;
    MaximalRunIsSpan(Space, w, |w|);
    SpanAppend(Space, w, b);
    var n := Span(Space, s);
    SpaceStep(tokens, s, n);
    assert s[n..] == b[Span(Space, b)..];
    if b != [] && IsSpace(b[0]) {
      SkipsWhitespace(tokens, b);
    } else {
      assert b[0..] == b;
    }
  }

  /**
   * A token that starts inside `a` and, by the boundary condition, ends
   * inside it is read the same whatever follows `a`.
   */
  lemma TokenWithinPrefix(a: seq<char>, c: seq<char>)
    requires a != [] && (IsIdChar(a[0]) || IsParen(a[0]))
    requires c == [] || !IsIdChar(c[0]) || !IsIdChar(a[|a| - 1])
    ensures LexToken(a + c) == LexToken(a) && LexToken(a).Some?
  {
    SpanAppend(IdChar, a, c);
    assert Span(IdChar, a) == |a| ==> IsIdChar(a[|a| - 1]);
    assert Word(a + c) == Word(a) by {
      assert forall i | 0 <= i < |a| :: (a + c)[i] == a[i];
    }
    SameWordSameToken(a + c, a);
  }

  /** A token inside `a` is emitted and the pass continues in `a`, whatever follows. */
  lemma PrefixTokenStep(tokens: seq<Token>, a: seq<char>, c: seq<char>)
    requires a != [] && (IsIdChar(a[0]) || IsParen(a[0]))
    requires c == [] || !IsIdChar(c[0]) || !IsIdChar(a[|a| - 1])
    ensures LexToken(a).Some? && LexToken(a).value.1 <= |a|
    ensures LexLoop(tokens, a + c) ==
      LexLoop(tokens + [LexToken(a).value.0], a[LexToken(a).value.1..] + c)
  {
    TokenWithinPrefix(a, c);
    var (t, n) := LexToken(a).value;
    TokenStep(tokens, a + c, t, n);
    DropAppend(a, c, n);
  }

  /** A whitespace run that ends inside `a` is skipped, whatever follows. */
  lemma PrefixSpaceStep(tokens: seq<Token>, a: seq<char>, c: seq<char>)
    requires a != [] && IsSpace(a[0]) && Span(Space, a) < |a|
    ensures LexLoop(tokens, a + c) == LexLoop(tokens, a[Span(Space, a)..] + c)
  {
    var m := Span(Space, a);
    SpanAppend(Space, a, c);
    SpaceStep(tokens, a + c, m);
    DropAppend(a, c, m);
  }

  /**
   * With a token at the start of `a`, the passes over `a + w + b` and
   * `a + b` both emit it and go on with the rest of `a`, where the
   * boundary condition still holds.
   */
  lemma TokenCase(tokens: seq<Token>, a: seq<char>, w: seq<char>, b: seq<char>) returns (t: Token, n: nat)
    requires a != [] && (IsIdChar(a[0]) || IsParen(a[0]))
    requires w != [] && IsSpace(w[0])
    requires b == [] || !IsIdChar(a[|a| - 1]) || !IsIdChar(b[0])
    ensures 1 <= n <= |a|
    ensures LexLoop(tokens, a + w + b) == LexLoop(tokens + [t], a[n..] + w + b)
    ensures LexLoop(tokens, a + b) == LexLoop(tokens + [t], a[n..] + b)
    ensures a[n..] == [] || b == [] || !IsIdChar(a[n..][|a[n..]| - 1]) || !IsIdChar(b[0])
  {
    PrefixTokenStep(tokens, a, w + b);
    PrefixTokenStep(tokens, a, b);
    t, n := LexToken(a).value.0, LexToken(a).value.1;
    Regroup(a, w, b, n);
  }

  /**
   * With a whitespace run that ends inside `a`, both passes skip it and go
   * on with the rest of `a`, where the boundary condition still holds.
   */
  lemma SpaceCase(tokens: seq<Token>, a: seq<char>, w: seq<char>, b: seq<char>) returns (m: nat)
    requires a != [] && IsSpace(a[0]) && Span(Space, a) < |a|
    requires b == [] || !IsIdChar(a[|a| - 1]) || !IsIdChar(b[0])
    ensures 1 <= m <= |a|
    ensures LexLoop(tokens, a + w + b) == LexLoop(tokens, a[m..] + w + b)
    ensures LexLoop(tokens, a + b) == LexLoop(tokens, a[m..] + b)
    ensures a[m..] == [] || b == [] || !IsIdChar(a[m..][|a[m..]| - 1]) || !IsIdChar(b[0])
  {
    m := Span(Space, a);
    PrefixSpaceStep(tokens, a, w + b);
    PrefixSpaceStep(tokens, a, b);
    Regroup(a, w, b, m);
  }

  /** When `a` is all whitespace, it merges with `w` and both passes skip to `b`. */
  lemma AllSpaceCase(tokens: seq<Token>, a: seq<char>, w: seq<char>, b: seq<char>)
    requires a != [] && IsSpace(a[0]) && Span(Space, a) == |a|
    requires w != [] && forall i | 0 <= i < |w| :: IsSpace(w[i])
    ensures LexLoop(tokens, a + w + b) == LexLoop(tokens, a + b)
  {
    assert forall i | 0 <= i < |a| :: IsSpace(a[i]);
    assert forall i | 0 <= i < |a + w| :: IsSpace((a + w)[i]);
    SpaceRun(tokens, a + w, b);
    SpaceRun(tokens, a, b);
  }

  /**
   * Inserting whitespace where it does not split a word changes nothing:
   * every token longer than one character is a maximal idchar run, so
   * whitespace only ever separates tokens.
   */
  lemma {:induction false} InsertSpace(tokens: seq<Token>, a: seq<char>, w: seq<char>, b: seq<char>)
    requires w != [] && forall i | 0 <= i < |w| :: IsSpace(w[i])
    requires a == [] || b == [] || !IsIdChar(a[|a| - 1]) || !IsIdChar(b[0])
    ensures LexLoop(tokens, a + w + b) == LexLoop(tokens, a + b)
    decreases |a|
  {
    if a == [] {
      assert a + w + b == w + b && a + b == b;
      SpaceRun(tokens, w, b);
    } else if IsIdChar(a[0]) || IsParen(a[0]) {
      var t, n := TokenCase(tokens, a, w, b);
      InsertSpace(tokens + [t], a[n..], w, b);
    } else if IsSpace(a[0]) {
      if Span(Space, a) < |a| {
        var m := SpaceCase(tokens, a, w, b);
        InsertSpace(tokens, a[m..], w, b);
      } else {
        AllSpaceCase(tokens, a, w, b);
      }
    } else {
      StuckStep(tokens, a + w + b);
      StuckStep(tokens, a + b);
    }
  }

  /** A word between parens is a left paren, the word's token and a right paren. */
  lemma ParenWord(tokens: seq<Token>, w: seq<char>, t: Token)
    requires w != [] && forall i | 0 <= i < |w| :: IsIdChar(w[i])
    requires LexToken(w) == Some((t, |w|))
    ensures LexLoop(tokens, "(" + w + ")") == Ok(tokens + [LeftParen, t, RightParen])
  {
    var s := "(" + w + ")";
    ParenStep(tokens, s);
    DropHead('(', w, ")");
    WordStep(tokens + [LeftParen], w, ")");
    Snoc(tokens, LeftParen, t, RightParen);
    ParenStep(tokens + [LeftParen, t], ")");
    assert ")"[1..] == [];
  }

  /** A word and the single space after it emit the word's token and nothing else. */
  lemma WordSpaceStep(tokens: seq<Token>, w: seq<char>, t: Token, rest: seq<char>)
    requires w != [] && forall i | 0 <= i < |w| :: IsIdChar(w[i])
    requires LexToken(w) == Some((t, |w|))
    ensures LexLoop(tokens, w + (" " + rest)) == LexLoop(tokens + [t], rest)
  {
    WordStep(tokens, w, " " + rest);
    SpaceRun(tokens + [t], " ", rest);
  }

  /** Three words separated by single spaces are three tokens. */
  lemma ThreeWords(tokens: seq<Token>, w1: seq<char>, w2: seq<char>, w3: seq<char>, t1: Token, t2: Token, t3: Token)
    requires w1 != [] && forall i | 0 <= i < |w1| :: IsIdChar(w1[i])
    requires w2 != [] && forall i | 0 <= i < |w2| :: IsIdChar(w2[i])
    requires w3 != [] && forall i | 0 <= i < |w3| :: IsIdChar(w3[i])
    requires LexToken(w1) == Some((t1, |w1|))
    requires LexToken(w2) == Some((t2, |w2|))
    requires LexToken(w3) == Some((t3, |w3|))
    ensures LexLoop(tokens, w1 + " " + w2 + " " + w3) == Ok(tokens + [t1, t2, t3])
  {
    var rest2 := w2 + (" " + w3);
    RegroupWords(w1, w2, w3, " ");
    Snoc(tokens, t1, t2, t3);
    WordSpaceStep(tokens, w1, t1, rest2);
    WordSpaceStep(tokens + [t1], w2, t2, w3);
    WordStep(tokens + [t1, t2], w3, []);
  }

  /** "module" is one keyword token over the whole word. */
  lemma ModuleToken()
    ensures forall i | 0 <= i < |"module"| :: IsIdChar("module"[i])
    ensures LexToken("module") == Some((Keyword("module"), 6))
  {
    WholeWord("module");
    KeywordToken("module");
  }

  /** "(module)" is a left paren, the keyword `module` and a right paren. */
  lemma ModuleExample(tokens: seq<Token>)
    ensures LexLoop(tokens, "(module)") == Ok(tokens + [LeftParen, Keyword("module"), RightParen])
  {
    ModuleToken();
    ParenWord(tokens, "module", Keyword("module"));
    ModuleText();
  }

  /** The text "(module)" is "module" between parens. */
  lemma ModuleText()
    ensures "(" + "module" + ")" == "(module)"
  {
  }

  /** "$a" is one identifier token that keeps its `$`. */
  lemma IdToken()
    ensures forall i | 0 <= i < |"$a"| :: IsIdChar("$a"[i])
    ensures LexToken("$a") == Some((Id("$a"), 2))
  {
    var s := "$a";
    WholeWord(s);
    assert WordValue(s).None? by { assert !IsDigit(s[0]); }
    LexTokenClassify(s);
  }

  /** "12" is one unsigned token of value 12. */
  lemma TwelveToken()
    ensures forall i | 0 <= i < |"12"| :: IsIdChar("12"[i])
    ensures LexToken("12") == Some((Unsigned(12), 2))
  {
    assert "12"[..1] == "1";
    UnsignedWordToken("12", 12);
  }

  /** "0xFF": upper-case hexadecimal digits are read too. */
  lemma UpperHexToken()
    ensures forall i | 0 <= i < |"0xFF"| :: IsIdChar("0xFF"[i])
    ensures LexToken("0xFF") == Some((Unsigned(255), 4))
  {
    var s := "0xFF";
    assert s[2..] == "FF" && "FF"[..1] == "F";
    assert !IsNumeral(s, 10) by { assert !IsDigit(s[1]); }
    UnsignedWordToken(s, 255);
  }

  /** The text "$a 12 0xFF" is its three words with a space between each. */
  lemma MixedText()
    ensures "$a" + " " + "12" + " " + "0xFF" == "$a 12 0xFF"
  {
  }

  /**
   * "$a 12 0xFF" is an identifier that keeps its `$`, a decimal and an
   * upper-case hexadecimal integer, with the spaces dropped.
   */
  lemma MixedExample(tokens: seq<Token>)
    ensures LexLoop(tokens, "$a 12 0xFF") == Ok(tokens + [Id("$a"), Unsigned(12), Unsigned(255)])
  {
    IdToken();
    TwelveToken();
    UpperHexToken();
    ThreeWords(tokens, "$a", "12", "0xFF", Id("$a"), Unsigned(12), Unsigned(255));
    MixedText();
  }
}
