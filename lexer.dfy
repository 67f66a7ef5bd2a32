/**
 * The WebAssembly text-format lexer (src/text/lexer/mod.rs): one production
 * per kind of lexeme, each a function of the remaining input that returns
 * the lexeme and the number of characters it consumed; a combinator that
 * keeps the longer of two matches; and a cursor loop that emits tokens and
 * skips whitespace until the input is used up or nothing matches.
 */
module Lexer {
  import opened Wrappers
  import opened CharClasses
  import opened Numerals
  import opened Tokens

  /** A production's outcome: the lexeme and how many characters it consumed. */
  type Lexed<A> = Option<(A, nat)>

  /** The scanning state: the whole input and a cursor into it. */
  class State {
    const input: seq<char>
    var cursor: nat

    constructor (input: seq<char>)
      ensures this.input == input && cursor == 0
    {
      this.input := input;
      cursor := 0;
    }

    method Advance(offset: nat)
      modifies this
      ensures cursor == old(cursor) + offset
      ensures old(cursor) <= |input| && offset <= |old(Rest())| ==> Rest() == old(Rest())[offset..]
    {
      cursor := cursor + offset;
    }

    /** The input after the cursor; nothing once the cursor is past the end. */
    function Rest(): (r: seq<char>)
      reads this
      ensures cursor <= |input| ==> r == input[cursor..]
      ensures cursor > |input| ==> r == []
    {
      if cursor <= |input| then input[cursor..] else []
    }

    /** The end of the input is reached exactly when nothing remains. */
    function Eof(): (r: bool)
      reads this
      ensures cursor <= |input| ==> (r <==> Rest() == [])
    {
      cursor == |input|
    }
  }

  /**
   * The longest-match combinator: keeps the longer of two matches, and the
   * current one when they are equally long.
   */
  function Choose<A>(current: Lexed<A>, next: Lexed<A>): (r: Lexed<A>)
    ensures r.None? <==> current.None? && next.None?
    ensures r == current || r == next
    ensures current.Some? ==> r.Some? && r.value.1 >= current.value.1
    ensures next.Some? ==> r.Some? && r.value.1 >= next.value.1
    ensures current.Some? && r.Some? && r.value.1 == current.value.1 ==> r == current
  {
    match current
    case None => next
    case Some(c) =>
      match next
      case None => Some(c)
      case Some(n) => if c.1 >= n.1 then Some(c) else Some(n)
  }

  /** `^[\n\t\r ]+`: a whitespace run, which produces no token. */
  function LexSpace(s: seq<char>): (r: Lexed<()>)
    ensures r.Some? <==> s != [] && IsSpace(s[0])
    ensures r.Some? ==> IsMaximalRun(Space, s, r.value.1)
  {
    var n := Span(Space, s);
    if n == 0 then None else Some(((), n))
  }

  /** `^[a-z]` followed by idchars: a keyword, the whole idchar run. */
  function LexKeyword(s: seq<char>): (r: Lexed<Token>)
    ensures r.Some? <==> s != [] && IsLower(s[0])
    ensures r.Some? ==> IsMaximalRun(IdChar, s, r.value.1) && r.value.0 == Keyword(s[..r.value.1])
  {
    if s != [] && IsLower(s[0]) then
      var n := 1 + Span(IdChar, s[1..]);
      Some((Keyword(s[..n]), n))
    else
      None
  }

  function LexLeftParen(s: seq<char>): (r: Lexed<Token>)
    ensures r.Some? <==> s != [] && s[0] == '('
    ensures r.Some? ==> r.value == (LeftParen, 1)
  {
    if s != [] && s[0] == '(' then Some((LeftParen, 1)) else None
  }

  function LexRightParen(s: seq<char>): (r: Lexed<Token>)
    ensures r.Some? <==> s != [] && s[0] == ')'
    ensures r.Some? ==> r.value == (RightParen, 1)
  {
    if s != [] && s[0] == ')' then Some((RightParen, 1)) else None
  }

  /** `^` idchar`+`: the catch-all reserved token over the whole idchar run. */
  function LexReserved(s: seq<char>): (r: Lexed<Token>)
    ensures r.Some? <==> s != [] && IsIdChar(s[0])
    ensures r.Some? ==> IsMaximalRun(IdChar, s, r.value.1) && r.value.0 == Reserved(s[..r.value.1])
  {
    var n := Span(IdChar, s);
    if n == 0 then None else Some((Reserved(s[..n]), n))
  }

  /** `^\$` idchar`+`: an identifier; its text keeps the `$`. */
  function LexId(s: seq<char>): (r: Lexed<Token>)
    ensures r.Some? <==> |s| >= 2 && s[0] == '$' && IsIdChar(s[1])
    ensures r.Some? ==> IsMaximalRun(IdChar, s, r.value.1) && r.value.0 == Id(s[..r.value.1])
  {
    if s != [] && s[0] == '$' then
      var m := Span(IdChar, s[1..]);
      if m == 0 then None else Some((Id(s[..1 + m]), 1 + m))
    else
      None
  }

  /**
   * `^[0-9]+` read as a `u32`: the whole digit run, or no match when its
   * value does not fit in 32 bits.
   */
  function LexUnsignedDec(s: seq<char>): (r: Lexed<u32>)
    ensures r.Some? ==> IsMaximalRun(Digit, s, r.value.1) && r.value.1 >= 1
    ensures r.Some? ==> r.value.0 == Value(s[..r.value.1], 10)
    ensures r.None? && s != [] && IsDigit(s[0]) ==> Value(s[..Span(Digit, s)], 10) >= U32_LIMIT
  {
    var n := Span(Digit, s);
    if n == 0 then None
    else
      var v := Value(s[..n], 10);
      if v < U32_LIMIT then Some((v, n)) else None
  }

  /**
   * `^0x[0-9A-Fa-f]+` read as a `u32` from the digits after the prefix; the
   * length includes the prefix. No match when the value does not fit.
   */
  function LexUnsignedHex(s: seq<char>): (r: Lexed<u32>)
    ensures r.Some? ==> |s| >= 3 && s[0] == '0' && s[1] == 'x' && r.value.1 >= 3
    ensures r.Some? ==> IsMaximalRun(HexDigit, s[2..], r.value.1 - 2)
    ensures r.Some? ==> r.value.0 == Value(s[2..][..r.value.1 - 2], 16)
    ensures r.None? && |s| >= 3 && s[0] == '0' && s[1] == 'x' && IsHexDigit(s[2]) ==>
              Value(s[2..][..Span(HexDigit, s[2..])], 16) >= U32_LIMIT
  {
    if |s| >= 2 && s[0] == '0' && s[1] == 'x' then
      var m := Span(HexDigit, s[2..]);
      if m == 0 then None
      else
        var v := Value(s[2..][..m], 16);
        if v < U32_LIMIT then Some((v, 2 + m)) else None
    else
      None
  }

  /**
   * An unsigned integer: the longer of the decimal and the hexadecimal
   * readings. A hexadecimal match always wins, since the decimal reading of
   * `0x...` stops at the `0`.
   */
  function LexUnsigned(s: seq<char>): (r: Lexed<Token>)
    ensures LexUnsignedHex(s).Some? ==>
              r == Some((Unsigned(LexUnsignedHex(s).value.0), LexUnsignedHex(s).value.1))
    ensures LexUnsignedHex(s).None? && LexUnsignedDec(s).Some? ==>
              r == Some((Unsigned(LexUnsignedDec(s).value.0), LexUnsignedDec(s).value.1))
    ensures r.None? <==> LexUnsignedHex(s).None? && LexUnsignedDec(s).None?
  {
    var u := Choose(Choose(None, LexUnsignedDec(s)), LexUnsignedHex(s));
    match u
    case None => None
    case Some((v, n)) => Some((Unsigned(v), n))
  }

  /**
   * The next token: every production is tried in a fixed order and the
   * longest match is kept, the earliest one on a tie.
   */
  function LexToken(s: seq<char>): (r: Lexed<Token>)
    ensures r.Some? <==> s != [] && (IsIdChar(s[0]) || IsParen(s[0]))
    ensures r.Some? ==> 1 <= r.value.1 <= |s|
  {
    var token := None;
    var token := Choose(token, LexKeyword(s));
    var token := Choose(token, LexUnsigned(s));
    var token := Choose(token, LexId(s));
    var token := Choose(token, LexLeftParen(s));
    var token := Choose(token, LexRightParen(s));
    var token := Choose(token, LexReserved(s));
    token
  }

  /**
   * What the loop of `lex` computes from the tokens emitted so far and the
   * rest `s` of the input: nothing left means success, otherwise one step.
   */
  function LexLoop(tokens: seq<Token>, s: seq<char>): (r: Result<seq<Token>>)
    ensures r.Ok? ==> |tokens| <= |r.value| <= |tokens| + |s| && r.value[..|tokens|] == tokens
    decreases |s|, 1
  {
    if s == [] then Ok(tokens) else LexLoopStep(tokens, s)
  }

  /**
   * One iteration of the loop of `lex` on a non-empty rest `s`: a token if
   * one matches, else a whitespace run, else failure of the whole pass.
   */
  function LexLoopStep(tokens: seq<Token>, s: seq<char>): (r: Result<seq<Token>>)
    requires s != []
    ensures r.Ok? ==> |tokens| <= |r.value| <= |tokens| + |s| && r.value[..|tokens|] == tokens
    decreases |s|, 0
  {
    match LexToken(s)
    case Some((t, n)) => LexLoop(tokens + [t], s[n..])
    case None =>
      match LexSpace(s)
      case Some((_, n)) => LexLoop(tokens, s[n..])
      case None => Err
  }

  /** The loop invariant of `Lex` survives emitting a token. */
  lemma TokenStep(tokens: seq<Token>, rest: seq<char>, t: Token, n: nat)
    requires LexToken(rest) == Some((t, n))
    ensures n <= |rest| && LexLoop(tokens, rest) == LexLoop(tokens + [t], rest[n..])
  {
    assert LexLoop(tokens, rest) == LexLoopStep(tokens, rest);
  }

  /** The loop invariant of `Lex` survives skipping whitespace. */
  lemma SpaceStep(tokens: seq<Token>, rest: seq<char>, n: nat)
    requires LexToken(rest).None? && LexSpace(rest) == Some(((), n))
    ensures n <= |rest| && LexLoop(tokens, rest) == LexLoop(tokens, rest[n..])
  {
    assert LexLoop(tokens, rest) == LexLoopStep(tokens, rest);
  }

  /** The loop invariant of `Lex` turns into failure when nothing matches. */
  lemma StuckStep(tokens: seq<Token>, rest: seq<char>)
    requires rest != [] && LexToken(rest).None? && LexSpace(rest).None?
    ensures LexLoop(tokens, rest) == Err
  {
    assert LexLoop(tokens, rest) == LexLoopStep(tokens, rest);
  }

  /**
   * `lex`: repeatedly emits the token at the cursor or skips whitespace, and
   * fails as soon as neither applies.
   */
  method Lex(input: seq<char>) returns (r: Result<seq<Token>>)
    ensures r == LexLoop([], input)
  {
    var state := new State(input);
    var tokens: seq<Token> := [];
    var noMatch := false;
    while !state.Eof() && !noMatch
      invariant state.input == input && state.cursor <= |input|
      invariant !noMatch ==> LexLoop([], input) == LexLoop(tokens, state.Rest())
      invariant noMatch ==> LexLoop([], input) == Err
      decreases |input| - state.cursor, if noMatch then 0 else 1
    {
      var rest := state.Rest();
      match LexToken(rest) {
        case None =>
        case Some((t, n)) =>
          TokenStep(tokens, rest, t, n);
          tokens := tokens + [t];
          state.Advance(n);
          continue;
      }
      match LexSpace(rest) {
        case None =>
        case Some((_, n)) =>
          SpaceStep(tokens, rest, n);
          state.Advance(n);
          continue;
      }
      StuckStep(tokens, rest);
      noMatch := true;
    }
    if noMatch {
      r := Err;
    } else {
      r := Ok(tokens);
    }
  }
}
