/** Decimal notation of natural numbers. */
module Decimals {

  predicate IsDigit(c: char) {
    '0' <= c <= '9'
  }

  function Digit(c: char): nat
    requires IsDigit(c)
  {
    c as int - '0' as int
  }

  function Decimal(n: nat): (s: string)
    ensures s != "" && forall i | 0 <= i < |s| :: IsDigit(s[i])
  {
    if n < 10 then [('0' as int + n) as char] else Decimal(n / 10) + [('0' as int + n % 10) as char]
  }

  predicate AllDigits(s: string) {
    forall i | 0 <= i < |s| :: IsDigit(s[i])
  }

  function Value(s: string): nat
    requires AllDigits(s)
  {
    if s == "" then 0 else 10 * Value(s[..|s| - 1]) + Digit(s[|s| - 1])
  }

  lemma {:induction false} ValueOfDecimal(n: nat)
    ensures Value(Decimal(n)) == n
  {
    if n >= 10 {
      ValueOfDecimal(n / 10);
      assert Decimal(n)[..|Decimal(n)| - 1] == Decimal(n / 10);
    } else {
      assert Decimal(n)[..0] == "";
    }
  }

  function Pow10(k: nat): nat {
    if k == 0 then 1 else 10 * Pow10(k - 1)
  }

  lemma {:induction false} DecimalLength(n: nat, k: nat)
    requires n < Pow10(k) && k > 0
    ensures |Decimal(n)| <= k
  {
    if n < 10 {
    } else {
      DecimalLength(n / 10, k - 1);
    }
  }

  lemma {:induction false} DecimalReaches(n: nat, k: nat)
    requires n >= Pow10(k)
    ensures |Decimal(n)| > k
  {
    if k == 0 {
    } else {
      DecimalReaches(n / 10, k - 1);
    }
  }

  /** A digit string without a leading zero is the notation of its value. */
  lemma {:induction false} DecimalOfValue(s: string)
    requires AllDigits(s) && s != "" && s[0] != '0'
    ensures Decimal(Value(s)) == s && Value(s) > 0
  {
    var init := s[..|s| - 1];
    if init == "" {
      assert Value(s) == Digit(s[0]);
    } else {
      DecimalOfValue(init);
      assert Value(s) / 10 == Value(init) && Value(s) % 10 == Digit(s[|s| - 1]);
      assert s == init + [s[|s| - 1]];
    }
  }

  lemma {:induction false} ValueBound(s: string)
    requires AllDigits(s)
    ensures Value(s) < Pow10(|s|)
  {
    if s == "" {
    } else {
      ValueBound(s[..|s| - 1]);
    }
  }

  lemma {:induction false} NoLeadingZero(n: nat)
    requires n > 0
    ensures Decimal(n)[0] != '0'
  {
    if n < 10 {
    } else {
      NoLeadingZero(n / 10);
      assert Decimal(n)[0] == Decimal(n / 10)[0];
    }
  }
}
