/** Decimal numbers as Python prints and reads them. */
module Decimal {

  import opened Options

  function Digit(d: nat): char
    requires d < 10
  {
    "0123456789"[d]
  }

  predicate IsDigit(c: char) {
    '0' <= c <= '9'
  }

  function Dec(n: nat): string {
    if n < 10 then [Digit(n)] else Dec(n / 10) + [Digit(n % 10)]
  }

  function DigitValue(c: char): nat
    requires IsDigit(c)
  {
    c as int - '0' as int
  }

  predicate AllDigits(s: string) {
    forall k :: 0 <= k < |s| ==> IsDigit(s[k])
  }

  function ToNat(s: string): nat
    requires AllDigits(s)
  {
    if s == [] then 0 else 10 * ToNat(s[..|s| - 1]) + DigitValue(s[|s| - 1])
  }

  /** long(s) for a plain decimal number below `bound`, the range of the field it is stored in. */
  function ParseNat(s: string, bound: nat): Option<nat> {
    if s != [] && AllDigits(s) && ToNat(s) < bound then Some(ToNat(s)) else None
  }

  lemma {:induction false} DecFacts(n: nat)
    ensures Dec(n) != [] && AllDigits(Dec(n)) && ToNat(Dec(n)) == n
  {
    DigitFacts(n % 10);
    if n >= 10 {
      DecFacts(n / 10);
      assert Dec(n)[..|Dec(n)| - 1] == Dec(n / 10);
    }
  }

  lemma {:induction false} DigitFacts(d: nat)
    requires d < 10
    ensures IsDigit(Digit(d)) && DigitValue(Digit(d)) == d
  {
  }

  lemma {:induction false} ParseDec(n: nat, bound: nat)
    ensures ParseNat(Dec(n), bound) == if n < bound then Some(n) else None
  {
    DecFacts(n);
  }

  /** A longer number is a bigger number. */
  lemma {:induction false} DecLength(m: nat, n: nat)
    requires m <= n
    ensures |Dec(m)| <= |Dec(n)|
  {
    if m >= 10 {
      DecLength(m / 10, n / 10);
    }
  }
}
