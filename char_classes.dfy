/**
 * The character classes of the WebAssembly text format that the lexer uses,
 * and maximal runs of a class: the meaning of an anchored regex `^[class]+`
 * or `^[class]*` with a greedy quantifier.
 */
module CharClasses {

  /** `[0-9]` */
  predicate IsDigit(c: char) {
    '0' <= c <= '9'
  }

  /** `[0-9A-Fa-f]` */
  predicate IsHexDigit(c: char) {
    IsDigit(c) || 'a' <= c <= 'f' || 'A' <= c <= 'F'
  }

  /** `[a-z]`, the first character of a keyword. */
  predicate IsLower(c: char) {
    'a' <= c <= 'z'
  }

  /**
   * The idchar class `[0-9A-Za-z!#$%&'*+\-./:<=>?@\\^_`|~]`: the printable
   * ASCII characters other than `"`, `(`, `)`, `,`, `;`, `[`, `]`, `{`, `}`
   * (and other than space, which is not printable here).
   */
  predicate IsIdChar(c: char) {
    && '!' <= c <= '~'
    && c != '"' && c != '(' && c != ')' && c != ',' && c != ';'
    && c != '[' && c != ']' && c != '{' && c != '}'
  }

  /** The idchar class as the regex lists it. */
  predicate IsListedIdChar(c: char) {
    || IsDigit(c) || 'A' <= c <= 'Z' || IsLower(c)
    || c == '!' || c == '#' || c == '$' || c == '%' || c == '&' || c == '\''
    || c == '*' || c == '+' || c == '-' || c == '.' || c == '/' || c == ':'
    || c == '<' || c == '=' || c == '>' || c == '?' || c == '@' || c == '\\'
    || c == '^' || c == '_' || c == '`' || c == '|' || c == '~'
  }

  lemma IdCharIsListed(c: char)
    ensures IsIdChar(c) <==> IsListedIdChar(c)
  {
  }

  /** `[\n\t\r ]` */
  predicate IsSpace(c: char) {
    c == '\n' || c == '\t' || c == '\r' || c == ' '
  }

  predicate IsParen(c: char) {
    c == '(' || c == ')'
  }

  predicate IsAscii(c: char) {
    c < 128 as char
  }

  /** The classes over which a production takes a maximal run. */
  datatype CharClass = Digit | HexDigit | IdChar | Space

  predicate In(k: CharClass, c: char) {
    match k
    case Digit => IsDigit(c)
    case HexDigit => IsHexDigit(c)
    case IdChar => IsIdChar(c)
    case Space => IsSpace(c)
  }

  /** `s[..n]` is a run of class `k` that cannot be extended. */
  ghost predicate IsMaximalRun(k: CharClass, s: seq<char>, n: nat) {
    && n <= |s|
    && (forall i | 0 <= i < n :: In(k, s[i]))
    && (n < |s| ==> !In(k, s[n]))
  }

  /** The length of the longest prefix of `s` drawn from class `k`. */
  function Span(k: CharClass, s: seq<char>): (n: nat)
    ensures IsMaximalRun(k, s, n)
  {
    if s == [] || !In(k, s[0]) then 0 else 1 + Span(k, s[1..])
  }

  /** A maximal run is unique, so any run shown maximal is the one `Span` finds. */
  lemma {:induction false} MaximalRunIsSpan(k: CharClass, s: seq<char>, n: nat)
    requires IsMaximalRun(k, s, n)
    ensures Span(k, s) == n
  {
    if s != [] && In(k, s[0]) {
      MaximalRunIsSpan(k, s[1..], n - 1);
    }
  }

  /** Every class used by a production is ASCII. */
  lemma ClassesAreAscii(c: char)
    requires IsIdChar(c) || IsSpace(c) || IsParen(c)
    ensures IsAscii(c)
  {
  }

  /** Digits are hex digits and hex digits are idchars, so runs nest. */
  lemma {:induction false} SpanMonotone(k1: CharClass, k2: CharClass, s: seq<char>)
    requires forall c :: In(k1, c) ==> In(k2, c)
    ensures Span(k1, s) <= Span(k2, s)
  {
    if s != [] && In(k1, s[0]) {
      SpanMonotone(k1, k2, s[1..]);
    }
  }
}
