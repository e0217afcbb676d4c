/** Decimal rendering and parsing of integers (Go's `%d` and strconv). */
module Decimal {
  import opened Strings

  predicate IsDigit(c: char) { '0' <= c <= '9' }

  function DigitChar(d: nat): char
    requires d < 10
  {
    ('0' as int + d) as char
  }

  function NatText(n: nat): (s: string)
    ensures |s| >= 1 && forall c :: c in s ==> IsDigit(c)
    decreases n
  {
    if n < 10 then [DigitChar(n)] else NatText(n / 10) + [DigitChar(n % 10)]
  }

  /** `%d`. */
  function IntText(n: int): string {
    if n < 0 then "-" + NatText(-n) else NatText(n)
  }

  function DigitsValue(s: string): nat
    requires forall c :: c in s ==> IsDigit(c)
  {
    if s == "" then 0
    else
      assert IsDigit(s[|s| - 1]);
      10 * DigitsValue(s[..|s| - 1]) + (s[|s| - 1] as int - '0' as int)
  }

  predicate AllDigits(s: string) {
    s != "" && forall c :: c in s ==> IsDigit(c)
  }

  /** Optional sign, then at least one digit. */
  function ParseInt(s: string): Option<int> {
    if s != "" && (s[0] == '+' || s[0] == '-') then
      if AllDigits(s[1..]) then
        var n: int := DigitsValue(s[1..]);
        Some(if s[0] == '-' then -n else n)
      else None
    else if AllDigits(s) then Some(DigitsValue(s))
    else None
  }

  lemma {:induction false} DigitsValueNatText(n: nat)
    ensures DigitsValue(NatText(n)) == n
    decreases n
  {
    if n < 10 {
      assert NatText(n)[..0] == "";
    } else {
      DigitsValueNatText(n / 10);
      assert NatText(n)[..|NatText(n)| - 1] == NatText(n / 10);
    }
  }

  lemma ParseIntText(n: int)
    ensures ParseInt(IntText(n)) == Some(n)
    ensures forall c :: c in IntText(n) ==> IsDigit(c) || c == '-'
  {
    DigitsValueNatText(if n < 0 then -n else n);
    var digits := NatText(if n < 0 then -n else n);
    assert digits[0] in digits;
    assert n < 0 ==> IntText(n)[1..] == digits;
  }
}
