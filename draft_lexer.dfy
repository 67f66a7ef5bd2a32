/**
 * The earlier draft of the lexer (src/text/lexer.rs). Its state, `choose`,
 * whitespace, paren and unsigned productions are the same code as the live
 * lexer's and are taken from module `Lexer`; what differs is `lex_token`,
 * which knows only unsigned integers and parens, and so the loop around it.
 */
module DraftLexer {
  import opened Wrappers
  import opened CharClasses
  import opened Tokens
  import Lexer

  /**
   * The draft's `lex_token`: the longest of an unsigned integer, a left
   * paren and a right paren, the earliest one on a tie.
   */
  function LexToken(s: seq<char>): (r: Lexer.Lexed<Token>)
    ensures r.Some? ==> s != [] && (IsDigit(s[0]) || IsParen(s[0])) && 1 <= r.value.1 <= |s|
  {
    var token := None;
    var token := Lexer.Choose(token, Lexer.LexUnsigned(s));
    var token := Lexer.Choose(token, Lexer.LexLeftParen(s));
    var token := Lexer.Choose(token, Lexer.LexRightParen(s));
    token
  }

  /**
   * What the loop of the draft's `lex` computes from the tokens emitted so
   * far and the rest `s` of the input.
   */
  function LexLoop(tokens: seq<Token>, s: seq<char>): (r: Result<seq<Token>>)
    ensures r.Ok? ==> |tokens| <= |r.value| <= |tokens| + |s| && r.value[..|tokens|] == tokens
    decreases |s|, 1
  {
    if s == [] then Ok(tokens) else LexLoopStep(tokens, s)
  }

  /** One iteration of the draft's loop on a non-empty rest `s`. */
  function LexLoopStep(tokens: seq<Token>, s: seq<char>): (r: Result<seq<Token>>)
    requires s != []
    ensures r.Ok? ==> |tokens| <= |r.value| <= |tokens| + |s| && r.value[..|tokens|] == tokens
    decreases |s|, 0
  {
    match LexToken(s)
    case Some((t, n)) => LexLoop(tokens + [t], s[n..])
    case None =>
      match Lexer.LexSpace(s)
      case Some((_, n)) => LexLoop(tokens, s[n..])
      case None => Err
  }

  /** The loop invariant of `Lex` survives emitting a token. */
  lemma TokenStep(tokens: seq<Token>, rest: seq<char>, t: Token, n: nat)
    requires LexToken(rest) == Some((t, n))
    ensures n <= |rest| && LexLoop(tokens, rest) == LexLoop(tokens + [t], rest[n..])
  {
    assert LexLoop(tokens, rest) == LexLoopStep(tokens, rest);
  }

  /** The loop invariant of `Lex` survives skipping whitespace. */
  lemma SpaceStep(tokens: seq<Token>, rest: seq<char>, n: nat)
    requires LexToken(rest).None? && Lexer.LexSpace(rest) == Some(((), n))
    ensures n <= |rest| && LexLoop(tokens, rest) == LexLoop(tokens, rest[n..])
  {
    assert LexLoop(tokens, rest) == LexLoopStep(tokens, rest);
  }

  /** The loop invariant of `Lex` turns into failure when nothing matches. */
  lemma StuckStep(tokens: seq<Token>, rest: seq<char>)
    requires rest != [] && LexToken(rest).None? && Lexer.LexSpace(rest).None?
    ensures LexLoop(tokens, rest) == Err
  {
    assert LexLoop(tokens, rest) == LexLoopStep(tokens, rest);
  }

  /** The draft's `lex`: the same cursor loop as the live one, over the draft's tokens. */
  method Lex(input: seq<char>) returns (r: Result<seq<Token>>)
    ensures r == LexLoop([], input)
  {
    var state := new Lexer.State(input);
    var tokens: seq<Token> := [];
    var noMatch := false;
    while !state.Eof() && !noMatch
      invariant state.input == input && state.cursor <= |input|
      invariant !noMatch ==> LexLoop([], input) == LexLoop(tokens, state.Rest())
      invariant noMatch ==> LexLoop([], input) == Err
      decreases |input| - state.cursor, if noMatch then 0 else 1
    {
      var rest := state.Rest();
      match LexToken(rest) {
        case None =>
        case Some((t, n)) =>
          TokenStep(tokens, rest, t, n);
          tokens := tokens + [t];
          state.Advance(n);
          continue;
      }
      match Lexer.LexSpace(rest) {
        case None =>
        case Some((_, n)) =>
          SpaceStep(tokens, rest, n);
          state.Advance(n);
          continue;
      }
      StuckStep(tokens, rest);
      noMatch := true;
    }
    if noMatch {
      r := Err;
    } else {
      r := Ok(tokens);
    }
  }
}
