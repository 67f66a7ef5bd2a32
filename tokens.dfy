/** The lexemes of the WebAssembly text format that the lexer produces. */
module Tokens {
  import opened Numerals

  /**
   * A token carries its payload and no position. `Signed` is part of the
   * vocabulary but no production builds it.
   */
  datatype Token =
    | Keyword(text: string)
    | Unsigned(value: u32)
    | Signed(signed: i32)
    | Id(text: string)
    | LeftParen
    | RightParen
    | Reserved(text: string)
}
