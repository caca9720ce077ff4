/** Natural numbers in decimal: `n.toString()` and its inverse. */
module Decimals {
  predicate IsDigit(c: char) {
    '0' <= c <= '9'
  }

  predicate Digits(s: string) {
    forall i | 0 <= i < |s| :: IsDigit(s[i])
  }

  function Digit(d: nat): char
    requires d < 10
  {
    ('0' as int + d) as char
  }

  /** `n.toString()`. */
  function Decimal(n: nat): (s: string)
    ensures Digits(s) && Value(s) == n && |s| >= 1
  {
    if n < 10 then
      assert Value([]) == 0 && [Digit(n)][..0] == [];
      [Digit(n)]
    else
      var high := Decimal(n / 10);
      assert (high + [Digit(n % 10)])[..|high|] == high;
      high + [Digit(n % 10)]
  }

  /** The number a string of digits denotes. */
  function Value(s: string): nat
    requires Digits(s)
  {
    if s == [] then 0 else 10 * Value(s[..|s| - 1]) + (s[|s| - 1] as int - '0' as int)
  }

  /** The run of digits a text begins with. */
  function LeadingDigits(text: string): (digits: string)
    ensures digits <= text && Digits(digits)
    ensures |digits| < |text| ==> !IsDigit(text[|digits|])
  {
    if text == [] || !IsDigit(text[0]) then [] else [text[0]] + LeadingDigits(text[1..])
  }

  lemma {:induction false} LeadingDigitsStop(digits: string, rest: string)
    requires Digits(digits) && (rest != [] ==> !IsDigit(rest[0]))
    ensures LeadingDigits(digits + rest) == digits
  {
    if digits == [] {
      assert digits + rest == rest;
    } else {
      assert (digits + rest)[1..] == digits[1..] + rest;
      LeadingDigitsStop(digits[1..], rest);
    }
  }
}
