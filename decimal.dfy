/** Decimal formatting of indices (`format!("{}", n)`) and Rust's
    `str::parse::<usize>()` on a 64-bit target, which the path resolver uses
    to read them back. */
module Decimal {
  import opened Wrappers

  const UsizeMax: nat := 0xFFFF_FFFF_FFFF_FFFF

  predicate IsDigit(c: char)
  {
    '0' <= c <= '9'
  }

  function DigitChar(d: nat): (c: char)
    requires d < 10
    ensures IsDigit(c) && c as int - '0' as int == d
  {
    (d + '0' as int) as char
  }

  /** `format!("{}", n)`: the digits of `n`, without leading zeros. */
  function Digits(n: nat): (s: string)
    ensures |s| > 0 && forall c <- s :: IsDigit(c)
    decreases n
  {
    if n < 10 then [DigitChar(n)] else Digits(n / 10) + [DigitChar(n % 10)]
  }

  /** The number a string of decimal digits denotes. */
  function DigitsValue(s: string): nat
    requires forall c <- s :: IsDigit(c)
    decreases |s|
  {
    if s == [] then 0
    else
      var last := s[|s| - 1];
      assert last in s;
      assert IsDigit(last);
      DigitsValue(s[..|s| - 1]) * 10 + (last as int - '0' as int)
  }

  /** `s.parse::<usize>().ok()`: an optional `+` sign, then one or more
      ASCII digits whose value fits in a `usize`; anything else fails. */
  function ParseUsize(s: string): (r: Option<nat>)
    ensures r.Some? ==> r.value <= UsizeMax
  {
    var digits := if |s| > 0 && s[0] == '+' then s[1..] else s;
    if digits == [] || !(forall c <- digits :: IsDigit(c)) then None
    else
      var v := DigitsValue(digits);
      if v <= UsizeMax then Some(v) else None
  }

  lemma {:induction false} DigitsValueOfDigits(n: nat)
    ensures DigitsValue(Digits(n)) == n
    decreases n
  {
    if n >= 10 {
      var s := Digits(n / 10) + [DigitChar(n % 10)];
      assert s[..|s| - 1] == Digits(n / 10);
      DigitsValueOfDigits(n / 10);
    }
  }

  /** Parsing a formatted index gives it back. */
  lemma ParseUsizeDigits(n: nat)
    requires n <= UsizeMax
    ensures ParseUsize(Digits(n)) == Some(n)
  {
    assert Digits(n)[0] in Digits(n);
    DigitsValueOfDigits(n);
  }

  /** An empty index, or a lone sign, does not parse. */
  lemma ParseUsizeRejectsEmpty()
    ensures ParseUsize("") == None && ParseUsize("+") == None
  {
    assert "+"[1..] == [];
  }

  /** Text with a non-digit after its first character does not parse. */
  lemma ParseUsizeRejectsNonDigit(s: string, i: nat)
    requires 0 < i < |s| && !IsDigit(s[i])
    ensures ParseUsize(s) == None
  {
    var digits := if |s| > 0 && s[0] == '+' then s[1..] else s;
    assert s[i] in digits by {
      if |s| > 0 && s[0] == '+' {
        assert s[i] == digits[i - 1];
      }
    }
  }
}
