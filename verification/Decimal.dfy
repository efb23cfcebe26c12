/** Decimal numerals as the system prints them. */
module Decimal {
  function Digit(d: int): char
    requires 0 <= d < 10
  {
    '0' + d as char
  }

  function ToString(n: nat): (s: string)
    ensures |s| > 0
  {
    if n < 10 then [Digit(n)] else ToString(n / 10) + [Digit(n % 10)]
  }

  predicate IsDigit(c: char) { '0' <= c <= '9' }

  predicate AllDigits(s: string) {
    forall i :: 0 <= i < |s| ==> IsDigit(s[i])
  }

  /** The number a digit string denotes. */
  function Value(s: string): nat
    requires AllDigits(s)
  {
    if s == "" then 0 else Value(s[..|s| - 1]) * 10 + (s[|s| - 1] - '0') as int
  }

  lemma {:induction false} ValueInvertsToString(n: nat)
    ensures AllDigits(ToString(n)) && Value(ToString(n)) == n
  {
    if n >= 10 {
      ValueInvertsToString(n / 10);
      assert ToString(n)[..|ToString(n)| - 1] == ToString(n / 10);
    } else {
      assert [Digit(n)][..0] == "";
    }
  }

  /** No numeral but "0" starts with a zero. */
  lemma {:induction false} NoLeadingZero(n: nat)
    ensures ToString(n)[0] == '0' <==> n == 0
  {
    if n >= 10 {
      NoLeadingZero(n / 10);
    }
  }

  lemma ToStringIsInjective(m: nat, n: nat)
    requires ToString(m) == ToString(n)
    ensures m == n
  {
    ValueInvertsToString(m);
    ValueInvertsToString(n);
  }
}
