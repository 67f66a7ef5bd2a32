# WebAssembly text-format lexer of wasmpack, in Dafny

wasmpack reads the WebAssembly text format. Its lexer turns a string into
tokens following section 6.2 (Lexical Format) of the WebAssembly Core
Specification 1.0:

- keywords;
- unsigned decimal and hexadecimal integers;
- identifiers (`$` and idchars);
- parentheses;
- reserved words (any other idchar run).

Whitespace separates tokens. The next token is the longest match over all
productions, and ties go to the production tried first. A pass fails as soon
as neither a token nor whitespace matches.

This project models two versions of that lexer:

- **The live lexer** (`src/text/lexer/mod.rs`, module `Lexer`):
  - the `State` class: a cursor into the input, with `advance`, `rest` and `eof`;
  - the combinator `choose`;
  - one function per production;
  - `lex_token`;
  - the `lex` loop, as a method over a `State`. It is proved equal to the
    function `LexLoop`, which computes what the loop computes from the
    tokens emitted so far and the rest of the input.
- **The earlier draft** (`src/text/lexer.rs`, module `DraftLexer`):
  - its own `lex_token`, which knows only unsigned integers and parentheses;
  - its own loop.

  Its `State`, `choose`, `lex_space`, paren and unsigned productions are the
  same code as the live lexer's, so they are defined once in `Lexer` and
  shared.

The `Token` enum of `src/text/mod.rs:6-17` is the datatype `Tokens.Token`.
It keeps `Keyword`, `Unsigned`, `Signed`, `Id`, `LeftParen`, `RightParen`
and `Reserved`, with the same payloads: text, a `u32`, an `i32`, text, none,
none and text. Both lexers emit values of this one type.

Each regular expression of the source is `^`-anchored and greedy over one
character class. It is modelled as the maximal run of that class:
`CharClasses.Span` and `CharClasses.IsMaximalRun`. Integer literals are read
left to right in `Numerals.Value`. A `u32` parse that fails because the value
does not fit in 32 bits is a production returning no match, as in the
source.

What is proved, beyond each production's own contract:

- `LexerProperties`:
  - `lex_token` picks the first of the longest candidates, in call order.
  - It agrees with a word-by-word reference classification, `Classify`.
  - A pass succeeds exactly when every character is an idchar, a paren or
    whitespace.
  - The tokens of a successful pass only ever grow.
  - Decimal and hexadecimal literals round-trip: the digits of any `u32`
    lex back to that value.
  - Numerals too large for 32 bits become one `Reserved` token. An example
    is "4294967296".
  - The concrete inputs "12", "0x1A", "module", "$a", "0x", "0xfg", "(((" and "".
- `LexerPasses`:
  - Inserting whitespace anywhere it does not split a word leaves the tokens unchanged.
  - The passes over "(module)" and "$a 12 0xFF".
- `DraftProperties`:
  - The draft only emits unsigned integers and parens.
  - It fails on any other character and on a decimal overflow.
  - Whenever it succeeds, the live lexer produces the same tokens.

The identifier token keeps its `$`: `lex_id` builds `Id` from the whole match
(`src/text/lexer/mod.rs:158-159`). So "$a 12 0xFF" gives `Id("$a")`: the model
follows the code.

## Model

| member | source | states |
|---|---|---|
| Lexer.State.constructor | src/text/lexer/mod.rs:40-43 | a new state holds the whole input with the cursor at 0 |
| Lexer.State.Advance | src/text/lexer/mod.rs:25-27 | moves the cursor forward by the offset; the new rest is the old rest with `offset` characters dropped; the draft's `advance` (src/text/lexer.rs:23-25) is the same code |
| Lexer.State.Rest | src/text/lexer/mod.rs:29-31 | the input from the cursor on, and nothing once the cursor is past the end; the draft's `rest` (src/text/lexer.rs:27-29) is the same code |
| Lexer.State.Eof | src/text/lexer/mod.rs:33-35 | end of input holds exactly when the rest is empty; the draft's `eof` (src/text/lexer.rs:31-33) is the same code |
| Lexer.Choose | src/text/lexer/mod.rs:77-89 | no match only when neither argument matches; the result is one of the two arguments; it is at least as long as each match present; on equal lengths it is the current one; the draft's `choose` (src/text/lexer.rs:105-117) is the same code |
| Lexer.LexSpace | src/text/lexer/mod.rs:92-102 | matches exactly when the input starts with a space, tab, newline or carriage return; the length is the whole whitespace run; the draft's `lex_space` (src/text/lexer.rs:93-103) is the same code |
| Lexer.LexKeyword | src/text/lexer/mod.rs:115-124 | matches exactly when the input starts with `a`-`z`; the keyword is the whole idchar run from there |
| Lexer.LexLeftParen | src/text/lexer/mod.rs:126-132 | matches exactly on a leading `(`, with length 1; the draft's `lex_left_paren` (src/text/lexer.rs:127-133) is the same code |
| Lexer.LexRightParen | src/text/lexer/mod.rs:134-140 | matches exactly on a leading `)`, with length 1; the draft's `lex_right_paren` (src/text/lexer.rs:135-141) is the same code |
| Lexer.LexReserved | src/text/lexer/mod.rs:142-151 | matches exactly when the input starts with an idchar; the token is the whole idchar run |
| Lexer.LexId | src/text/lexer/mod.rs:153-162 | matches exactly on `$` followed by an idchar; the identifier is the whole idchar run and keeps its `$` |
| Lexer.LexUnsignedDec | src/text/lexer/mod.rs:173-185 | a match is the whole digit run, at least one digit, with its decimal value; a leading digit with no match means the value does not fit in 32 bits; the draft's `lex_unsigned_dec` (src/text/lexer.rs:171-183) is the same code |
| Lexer.LexUnsignedHex | src/text/lexer/mod.rs:187-199 | a match is `0x` and the whole hex-digit run after it; its length includes the prefix and its value comes from the digits alone; `0x` then a hex digit with no match means the value does not fit in 32 bits; the draft's `lex_unsigned_hex` (src/text/lexer.rs:185-197) is the same code |
| Lexer.LexUnsigned | src/text/lexer/mod.rs:166-171 | a hexadecimal match wins, otherwise the decimal one; no match only when neither matches; the draft's `lex_unsigned` (src/text/lexer.rs:164-169) is the same code |
| Lexer.LexToken | src/text/lexer/mod.rs:104-113 | a token is found exactly when the input starts with an idchar or a paren; it consumes at least one character and no more than remain |
| Lexer.LexLoop | src/text/lexer/mod.rs:39-74 | on success, the tokens emitted so far are kept as a prefix and at most one token is added per remaining character |
| Lexer.LexLoopStep | src/text/lexer/mod.rs:47-66 | from a non-empty rest, a successful pass keeps the tokens emitted so far as a prefix and adds at most one token per remaining character |
| Lexer.TokenStep | src/text/lexer/mod.rs:48-54 | emitting a token and advancing past it leaves the outcome of the pass unchanged |
| Lexer.SpaceStep | src/text/lexer/mod.rs:57-63 | skipping whitespace when no token matches leaves the outcome unchanged |
| Lexer.StuckStep | src/text/lexer/mod.rs:65-73 | a position where neither a token nor whitespace matches makes the pass fail |
| Lexer.Lex | src/text/lexer/mod.rs:39-74 | the cursor loop terminates and returns what `LexLoop` computes from no tokens and the whole input |
| CharClasses.Span | src/text/lexer/mod.rs:143 | a greedy `^[class]+` match covers the maximal run of that class |
| CharClasses.MaximalRunIsSpan | src/text/lexer/mod.rs:143 | the maximal run is unique |
| CharClasses.IdCharIsListed | src/text/lexer/mod.rs:143 | the idchar class is exactly the characters the source's bracket expression lists |
| CharClasses.ClassesAreAscii | src/text/lexer/mod.rs:33-35 | every character a token or whitespace can hold is ASCII |
| CharClasses.SpanMonotone | src/text/lexer/mod.rs:174 | when every character of one class belongs to another, the run of the first is never longer than the run of the second, as for digits within hex digits within idchars |
| Numerals.DigitValue | src/text/lexer/mod.rs:179 | each digit is worth less than 16, and less than 10 exactly when it is a decimal digit; an upper-case hex digit is worth the same as its lower-case form |
| Numerals.Value | src/text/lexer/mod.rs:193 | a numeral of `k` digits is worth less than base to the power `k` |
| Numerals.Digits | src/text/lexer/mod.rs:179 | the digits of a number form a non-empty numeral in that base |
| Numerals.ValueOfDigits | src/text/lexer/mod.rs:179 | reading back the digits of a number gives the number |
| Numerals.LargeValueHasTwoDigits | src/text/lexer/mod.rs:179-181 | a numeral too large for 32 bits has more than one digit |
| LexerProperties.ChooseAllFirstLongest | src/text/lexer/mod.rs:77-89 | folding `choose` over any candidates gives no match only when none matches, otherwise the first candidate of the greatest length |
| LexerProperties.LexTokenIsChooseAll | src/text/lexer/mod.rs:104-113 | `lex_token` is `choose` folded over keyword, unsigned, id, left paren, right paren and reserved, in that order |
| LexerProperties.LexTokenFirstLongest | src/text/lexer/mod.rs:104-113 | the next token is the longest match, and the earliest production on a tie |
| LexerProperties.DecimalOnWord | src/text/lexer/mod.rs:173-185 | the digit run stays within the idchar word and covers it exactly when the word is all digits |
| LexerProperties.HexOnWord | src/text/lexer/mod.rs:187-199 | after `0x`, the hex-digit run stays within the word and covers it exactly when the rest of the word is hex digits |
| LexerProperties.UnsignedOnWord | src/text/lexer/mod.rs:166-171 | an unsigned match never reaches past the word; it covers the whole word exactly when the word reads as a 32-bit unsigned literal, with that value |
| LexerProperties.LexTokenClassify | src/text/lexer/mod.rs:104-113 | the next token is the reference reading: a paren, or the whole word as a keyword, an unsigned integer, an identifier or reserved, in that priority |
| LexerProperties.OverflowIsReserved | src/text/lexer/mod.rs:179-181 | a decimal or hexadecimal word too large for 32 bits becomes a reserved token over the same word |
| LexerProperties.TokenIsScannable | src/text/lexer/mod.rs:104-113 | a token consumes only idchars and parens |
| LexerProperties.LexLoopOkIff | src/text/lexer/mod.rs:47-74 | a pass succeeds exactly when every remaining character is an idchar, a paren or whitespace |
| LexerProperties.NonAsciiFails | src/text/lexer/mod.rs:29-35 | input with any non-ASCII character fails to lex |
| LexerProperties.SkipsWhitespace | src/text/lexer/mod.rs:57-63 | a whitespace run is skipped whole and emits nothing |
| LexerProperties.SingleToken | src/text/lexer/mod.rs:39-74 | input that is exactly one token lexes to that token alone |
| LexerProperties.WholeWord | src/text/lexer/mod.rs:143 | input made of idchars only is a single word |
| LexerProperties.UnsignedWordToken | src/text/lexer/mod.rs:166-171 | a word that reads as a 32-bit unsigned literal is one unsigned token of that value over the whole word |
| LexerProperties.DecimalRoundTrip | src/text/lexer/mod.rs:173-185 | the decimal digits of any `u32` lex to exactly that unsigned token |
| LexerProperties.HexRoundTrip | src/text/lexer/mod.rs:187-199 | `0x` and the hex digits of any `u32` lex to exactly that unsigned token |
| LexerProperties.DecimalOverflowRoundTrip | src/text/lexer/mod.rs:111 | the decimal digits of any number of at least 2^32 lex to one reserved token over those digits |
| LexerProperties.OverflowLiteral | src/text/lexer/mod.rs:111 | "4294967296", which is 2^32, lexes to one reserved token over the whole input |
| LexerProperties.DecimalExample | src/text/lexer/mod.rs:106-107 | "12" lexes to `Unsigned(12)`, not to a reserved token |
| LexerProperties.HexExample | src/text/lexer/mod.rs:187-199 | "0x1A" is `Unsigned(26)` of length 4 |
| LexerProperties.KeywordExample | src/text/lexer/mod.rs:115-124 | "module" lexes to `Keyword("module")` |
| LexerProperties.IdExample | src/text/lexer/mod.rs:153-162 | "$a" lexes to `Id("$a")`, which keeps the `$` |
| LexerProperties.PrefixExamples | src/text/lexer/mod.rs:142-151 | "0x" and "0xfg" each lex to one reserved token, because the reserved match is longer than the numeric ones |
| LexerProperties.ParenToken | src/text/lexer/mod.rs:126-140 | a paren is a token of length 1 |
| LexerProperties.LeftParenRun | src/text/lexer/mod.rs:47-54 | a run of `(` lexes to one `LeftParen` per character |
| LexerProperties.ParensExample | src/text/lexer/mod.rs:39-74 | "(((" adds three `LeftParen`, and empty input adds nothing |
| LexerProperties.KeywordToken | src/text/lexer/mod.rs:115-124 | a word starting with a lower-case letter is one keyword over the whole word |
| LexerProperties.ParenStep | src/text/lexer/mod.rs:48-54 | a paren emits its token and the pass moves one character on |
| LexerProperties.KeywordStep | src/text/lexer/mod.rs:48-54 | a keyword emits its token and the pass moves past the word |
| LexerPasses.SpanAppend | src/text/lexer/mod.rs:143 | the run of a class over `a + c` stops inside `a`, or covers all of `a` and continues as the run over `c` |
| LexerPasses.SameWordSameToken | src/text/lexer/mod.rs:104-113 | two inputs with the same first character and the same word have the same next token |
| LexerPasses.WordStep | src/text/lexer/mod.rs:48-54 | a word followed by a non-idchar is its own token of its full length, and the pass continues right after it |
| LexerPasses.SpaceRun | src/text/lexer/mod.rs:57-63 | a whitespace run emits nothing, whatever follows it |
| LexerPasses.TokenWithinPrefix | src/text/lexer/mod.rs:104-113 | a token that starts in `a` reads the same whatever follows, unless the idchar run of `a` continues into it |
| LexerPasses.PrefixTokenStep | src/text/lexer/mod.rs:48-54 | such a token is emitted, and the pass continues inside `a` with the same suffix |
| LexerPasses.PrefixSpaceStep | src/text/lexer/mod.rs:57-63 | a whitespace run that ends inside `a` is skipped, and the pass continues inside `a` with the same suffix |
| LexerPasses.TokenCase | src/text/lexer/mod.rs:48-54 | with a token at the start of `a`, the passes with and without inserted whitespace emit it and continue in the same state |
| LexerPasses.SpaceCase | src/text/lexer/mod.rs:57-63 | with whitespace at the start of `a`, both passes skip it and continue in the same state |
| LexerPasses.AllSpaceCase | src/text/lexer/mod.rs:57-63 | whitespace merges with the inserted whitespace, and both passes continue at the same point |
| LexerPasses.InsertSpace | src/text/lexer/mod.rs:39-74 | inserting whitespace between two parts of the input changes neither success nor the tokens, unless it splits an idchar run |
| LexerPasses.ParenWord | src/text/lexer/mod.rs:39-74 | a single-token word between parens lexes to a left paren, that token and a right paren |
| LexerPasses.WordSpaceStep | src/text/lexer/mod.rs:48-63 | a word followed by one space emits the word's token and nothing else |
| LexerPasses.ThreeWords | src/text/lexer/mod.rs:39-74 | three single-token words separated by single spaces lex to those three tokens |
| LexerPasses.ModuleToken | src/text/lexer/mod.rs:115-124 | "module" is one keyword of length 6 |
| LexerPasses.ModuleExample | src/text/lexer/mod.rs:39-74 | "(module)" lexes to `LeftParen`, `Keyword("module")`, `RightParen` |
| LexerPasses.IdToken | src/text/lexer/mod.rs:153-162 | "$a" is one identifier token whose text keeps the `$` |
| LexerPasses.TwelveToken | src/text/lexer/mod.rs:173-185 | "12" is one unsigned token of value 12 |
| LexerPasses.UpperHexToken | src/text/lexer/mod.rs:187-199 | "0xFF" with upper-case digits is one unsigned token of value 255 and length 4 |
| LexerPasses.MixedExample | src/text/lexer/mod.rs:39-74 | "$a 12 0xFF" lexes to `Id("$a")`, `Unsigned(12)`, `Unsigned(255)` |
| DraftLexer.LexToken | src/text/lexer.rs:119-125 | a token is found only where the input starts with a digit or a paren; it consumes at least one character and no more than remain |
| DraftLexer.LexLoop | src/text/lexer.rs:56-90 | on success, the tokens emitted so far are kept as a prefix and at most one token is added per remaining character |
| DraftLexer.LexLoopStep | src/text/lexer.rs:64-83 | from a non-empty rest, a successful pass keeps the tokens emitted so far as a prefix and adds at most one token per remaining character |
| DraftLexer.TokenStep | src/text/lexer.rs:65-71 | emitting a token and advancing past it leaves the outcome unchanged |
| DraftLexer.SpaceStep | src/text/lexer.rs:74-80 | skipping whitespace when no token matches leaves the outcome unchanged |
| DraftLexer.StuckStep | src/text/lexer.rs:82-89 | a position where neither a token nor whitespace matches makes the pass fail |
| DraftLexer.Lex | src/text/lexer.rs:56-90 | the cursor loop terminates and returns what the draft's `LexLoop` computes from no tokens and the whole input |
| DraftProperties.DraftTokenIsUnsignedOrParen | src/text/lexer.rs:119-125 | the next token is the paren when the input starts with one, and the unsigned reading otherwise; the two never both match |
| DraftProperties.DraftTokens | src/text/lexer.rs:119-125 | a successful pass emits only unsigned integers and parens |
| DraftProperties.StartFails | src/text/lexer.rs:64-89 | reaching a character that is not a digit, a paren or whitespace fails the pass |
| DraftProperties.DraftTokenChars | src/text/lexer.rs:164-169 | a token consumes only hex digits, `x` and parens |
| DraftProperties.ForeignCharFails | src/text/lexer.rs:64-89 | any character other than a hex digit, `x`, a paren or whitespace anywhere in the input fails the pass |
| DraftProperties.DecimalOverflowFails | src/text/lexer.rs:171-183 | a decimal run too large for 32 bits fails the pass, because there is no reserved fallback |
| DraftProperties.HexExample | src/text/lexer.rs:185-197 | "0xff" is `Unsigned(255)` of length 4 |
| DraftProperties.PrefixExample | src/text/lexer.rs:164-169 | "0x" starts with `Unsigned(0)` of length 1, and the pass then fails at `x` |
| DraftProperties.SkipsWhitespace | src/text/lexer.rs:74-80 | a whitespace run is skipped whole and emits nothing |
| DraftProperties.UnsignedRunEnd | src/text/lexer.rs:164-169 | an unsigned match covers idchars only, and the character after it is not a decimal digit |
| DraftProperties.DraftOkStart | src/text/lexer.rs:64-89 | a successful pass over non-empty input starts at a digit, a paren or whitespace |
| DraftProperties.UnsignedIsLiveToken | src/text/lexer/mod.rs:104-113 | an unsigned match followed by a non-idchar is also the live lexer's token there |
| DraftProperties.DraftRefinesLive | src/text/lexer.rs:56-90 | whenever the draft succeeds, the live lexer returns the same tokens |

## Left out

- The `regex` crate: each pattern is a hand-written maximal-run scanner over its character class.
- Token variants `Float` and `String` (`src/text/mod.rs:11-12`): no production builds them, and `Float` holds a float.
- The draft's own `Token` enum (`src/text/lexer.rs:37-49`) and its empty `Keyword` struct: the draft never builds a keyword, so both versions share the token type of `src/text/mod.rs`.
- The text of the error message: a failed pass is the single value `Err`.
- Lexer.State.Eof: compares the cursor with the character count, not the byte length. The source's `rest` skips characters and `eof` compares with the byte length. They differ only on non-ASCII input, and `NonAsciiFails` shows such input fails in the model. In the source it fails too: no production consumes a non-ASCII character.
- Lexer.State.Advance: `usize` overflow of the cursor is not modelled; the cursor never passes the input's length.
- The draft's stubs `lex_keyword` and `lex_reserved` (`src/text/lexer.rs:143-149`) return constants and are never called, and its `lex_id` (`src/text/lexer.rs:151-160`) is never called.
- The parser (`src/text/parser.rs`), the module and instruction declarations and the command-line driver are not part of this model.
