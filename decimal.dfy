/**
 * Rust's fixed-width integers as subset types of `int`, their decimal text
 * (`to_string`) and the decimal parsers `str::parse::<u8>` and
 * `str::parse::<i64>` (an optional sign, then ASCII digits, nothing else, and
 * a value that fits the type).
 */
module Decimal {
  import opened Wrappers

  type u8 = x: int | 0 <= x < 0x100
  type u16 = x: int | 0 <= x < 0x1_0000
  type i64 = x: int | -0x8000_0000_0000_0000 <= x < 0x8000_0000_0000_0000

  predicate IsDigit(c: char) {
    '0' <= c <= '9'
  }

  predicate AllDigits(s: string) {
    forall i :: 0 <= i < |s| ==> IsDigit(s[i])
  }

  function DigitChar(d: nat): (c: char)
    requires d < 10
    ensures IsDigit(c) && c as int - '0' as int == d
  {
    ('0' as int + d) as char
  }

  /** The value of a run of decimal digits; leading zeros are allowed. */
  function DigitsValue(s: string): nat
    requires AllDigits(s)
  {
    if s == [] then 0 else DigitsValue(s[..|s| - 1]) * 10 + (s[|s| - 1] as int - '0' as int)
  }

  /** Decimal text of a non-negative number, as `to_string` prints it: digits only, no leading zero. */
  function DecimalString(n: nat): (s: string)
    ensures |s| > 0 && AllDigits(s) && DigitsValue(s) == n
    ensures s[0] == '0' ==> s == "0"
  {
    if n < 10 then [DigitChar(n)]
    else
      var prefix := DecimalString(n / 10);
      var s := prefix + [DigitChar(n % 10)];
      assert s[..|s| - 1] == prefix;
      s
  }

  /** The texts of the patch numbers used in the examples. */
  lemma SmallNumberTexts()
    ensures DecimalString(1) == "1" && DecimalString(2) == "2" && DecimalString(10) == "10"
  {
  }

  /** `str::parse::<u8>`: an optional `+`, then at least one digit, and a value below 256. */
  function ParseU8(s: string): (r: Option<u8>)
    ensures r.Some? ==> |s| > 0 && (IsDigit(s[0]) || s[0] == '+') && AllDigits(s[1..])
    ensures r.Some? ==> var digits := if s[0] == '+' then s[1..] else s;
                        digits != [] && AllDigits(digits) && DigitsValue(digits) == r.value
    ensures r.None? ==> s == [] || var digits := if s[0] == '+' then s[1..] else s;
                        digits == [] || !AllDigits(digits) || DigitsValue(digits) >= 0x100
  {
    if s == [] then None
    else
      var digits := if s[0] == '+' then s[1..] else s;
      if digits == [] || !AllDigits(digits) then None
      else if DigitsValue(digits) < 0x100 then Some(DigitsValue(digits))
      else None
  }

  /** `str::parse::<i64>`: an optional `+` or `-`, then at least one digit, and a value in range. */
  function ParseI64(s: string): (r: Option<i64>)
    ensures r.Some? ==> |s| > 0 && (IsDigit(s[0]) || s[0] == '+' || s[0] == '-') && AllDigits(s[1..])
    ensures r.Some? ==> var digits := if s[0] == '+' || s[0] == '-' then s[1..] else s;
                        digits != [] && AllDigits(digits)
                        && r.value == (if s[0] == '-' then -(DigitsValue(digits) as int) else DigitsValue(digits))
    ensures r.None? ==> s == [] || var digits := if s[0] == '+' || s[0] == '-' then s[1..] else s;
                        digits == [] || !AllDigits(digits)
                        || !(-0x8000_0000_0000_0000 <= (if s[0] == '-' then -(DigitsValue(digits) as int) else DigitsValue(digits)) < 0x8000_0000_0000_0000)
  {
    if s == [] then None
    else
      var digits := if s[0] == '+' || s[0] == '-' then s[1..] else s;
      if digits == [] || !AllDigits(digits) then None
      else
        var v: int := if s[0] == '-' then -(DigitsValue(digits) as int) else DigitsValue(digits);
        if -0x8000_0000_0000_0000 <= v < 0x8000_0000_0000_0000 then Some(v) else None
  }

  /** Printing a `u8` and parsing the text back gives the same number. */
  lemma ParseU8DecimalString(n: u8)
    ensures ParseU8(DecimalString(n)) == Some(n)
  {
  }

  /** Distinct numbers print differently. */
  lemma DecimalStringInjective(m: nat, n: nat)
    requires DecimalString(m) == DecimalString(n)
    ensures m == n
  {
  }

  /** Printing a non-negative `i64` and parsing it back as `i64` gives the same number. */
  lemma ParseI64DecimalString(n: nat)
    requires n < 0x8000_0000_0000_0000
    ensures ParseI64(DecimalString(n)) == Some(n)
  {
  }

  /** A minus sign before the digits of `n` parses to `-n`, down to the least `i64`. */
  lemma ParseI64Negative(n: nat)
    requires n <= 0x8000_0000_0000_0000
    ensures ParseI64("-" + DecimalString(n)) == Some(-(n as int))
  {
    var s := "-" + DecimalString(n);
    assert s[1..] == DecimalString(n);
  }

  /** Neither parser trims: text with a character that is not a digit after its first position is rejected. */
  lemma ParsersRejectTrailingText(s: string, c: char)
    requires !IsDigit(c)
    ensures ParseU8(s + [c]) == None && ParseI64(s + [c]) == None
  {
    var t := s + [c];
    if |s| > 0 {
      assert t[1..][|s| - 1] == c;
    }
  }
}
