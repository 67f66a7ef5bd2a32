/**
 * Fixed-width integers and the digit strings of unsigned integer literals,
 * base 10 and base 16, as `u32::from_str_radix` reads them.
 */
module Numerals {
  import opened CharClasses

  const U32_LIMIT: nat := 0x1_0000_0000

  /** Rust's `u32`. */
  type u32 = x: nat | x < U32_LIMIT

  /** Rust's `i32`. */
  type i32 = x: int | -0x8000_0000 <= x < 0x8000_0000

  function Pow(base: nat, n: nat): (p: nat)
    ensures base >= 1 ==> p >= 1
  {
    if n == 0 then 1 else base * Pow(base, n - 1)
  }

  /** The numeric value of one hexadecimal digit, either case. */
  function DigitValue(c: char): (v: nat)
    requires IsHexDigit(c)
    ensures v < 16
    ensures IsDigit(c) <==> v < 10
    ensures 'A' <= c <= 'F' ==> v == DigitValue((c as int + 32) as char)
    decreases if 'A' <= c <= 'F' then 1 else 0
  {
    if IsDigit(c) then c as nat - '0' as nat
    else if 'a' <= c <= 'f' then c as nat - 'a' as nat + 10
    else c as nat - 'A' as nat + 10
  }

  /** A digit of radix `base`, which is 10 or 16. */
  predicate IsDigitOf(base: nat, c: char) {
    if base == 10 then IsDigit(c) else IsHexDigit(c)
  }

  predicate IsNumeral(s: seq<char>, base: nat) {
    (base == 10 || base == 16) && forall i | 0 <= i < |s| :: IsDigitOf(base, s[i])
  }

  /**
   * The value of a digit string read most significant digit first, the way
   * `from_str_radix` accumulates it, before any check against the width.
   */
  function Value(s: seq<char>, base: nat): (v: nat)
    requires IsNumeral(s, base)
    ensures v < Pow(base, |s|)
  {
    if s == [] then 0
    else
      var prefix := Value(s[..|s| - 1], base);
      var d := DigitValue(s[|s| - 1]);
      assert d < base;
      assert prefix * base + d < Pow(base, |s|) by {
        assert prefix + 1 <= Pow(base, |s| - 1);
        assert (prefix + 1) * base <= Pow(base, |s| - 1) * base;
      }
      prefix * base + d
  }

  /** The lower-case digit whose value is `d`. */
  function DigitChar(d: nat): (c: char)
    requires d < 16
    ensures IsHexDigit(c) && DigitValue(c) == d
    ensures d < 10 ==> IsDigit(c)
  {
    if d < 10 then ('0' as nat + d) as char else ('a' as nat + d - 10) as char
  }

  /** The shortest digit string of `n` in radix `base` (10 or 16). */
  function Digits(n: nat, base: nat): (s: seq<char>)
    requires base == 10 || base == 16
    ensures |s| >= 1 && IsNumeral(s, base)
    decreases n
  {
    if n < base then [DigitChar(n)]
    else Digits(n / base, base) + [DigitChar(n % base)]
  }

  /** Reading back the digits of `n` gives `n`. */
  lemma {:induction false} ValueOfDigits(n: nat, base: nat)
    requires base == 10 || base == 16
    ensures Value(Digits(n, base), base) == n
  {
    var s := Digits(n, base);
    if n >= base {
      ValueOfDigits(n / base, base);
      assert s[..|s| - 1] == Digits(n / base, base);
    }
  }

  /** A decimal value at or beyond 2^32 needs at least two digits. */
  lemma LargeValueHasTwoDigits(s: seq<char>)
    requires IsNumeral(s, 10) && Value(s, 10) >= U32_LIMIT
    ensures |s| >= 2
  {
    assert Pow(10, 0) == 1 && Pow(10, 1) == 10;
  }
}
