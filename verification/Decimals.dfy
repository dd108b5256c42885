/** Decimal numerals of natural numbers, as `%zu` prints them and int() reads them. */
module Decimals {

  predicate IsDigit(c: char) { '0' <= c <= '9' }

  predicate AllDigits(s: string) { s != "" && forall k | 0 <= k < |s| :: IsDigit(s[k]) }

  function Digit(c: char): nat
    requires IsDigit(c)
  {
    c as int - '0' as int
  }

  function ToNat(s: string): nat
    requires forall k | 0 <= k < |s| :: IsDigit(s[k])
  {
    if s == "" then 0 else ToNat(s[..|s| - 1]) * 10 + Digit(s[|s| - 1])
  }

  function Print(n: nat): (s: string)
    ensures AllDigits(s)
  {
    if n < 10 then ['0' + n as char] else Print(n / 10) + ['0' + (n % 10) as char]
  }

  lemma {:induction false} PrintRoundTrip(n: nat)
    ensures ToNat(Print(n)) == n
  {
    if n < 10 {
      assert Print(n)[..0] == "";
    } else {
      PrintRoundTrip(n / 10);
      assert Print(n)[..|Print(n)| - 1] == Print(n / 10);
    }
  }

  function Pow10(k: nat): nat {
    if k == 0 then 1 else 10 * Pow10(k - 1)
  }

  lemma {:induction false} Pow10Grows(j: nat, k: nat)
    requires j <= k
    ensures 1 <= Pow10(j) <= Pow10(k)
    decreases k
  {
    if k == 0 {
    } else if j == k {
      Pow10Grows(j - 1, k - 1);
    } else {
      Pow10Grows(j, k - 1);
    }
  }

  /** Each digit counts ten times as much as the one after it: a numeral of k digits stays below 10 to the k,
      and putting numerals side by side shifts the first by as many places as the second has. */
  lemma {:induction false} Positional(a: string, b: string)
    requires (forall k | 0 <= k < |a| :: IsDigit(a[k])) && forall k | 0 <= k < |b| :: IsDigit(b[k])
    ensures ToNat(b) < Pow10(|b|)
    ensures forall k | 0 <= k < |a + b| :: IsDigit((a + b)[k])
    ensures ToNat(a + b) == ToNat(a) * Pow10(|b|) + ToNat(b)
    decreases |b|
  {
    if b == "" {
      assert a + b == a;
    } else {
      var front := b[..|b| - 1];
      Positional(a, front);
      assert (a + b)[..|a + b| - 1] == a + front;
      Shift(ToNat(a), Pow10(|front|), ToNat(front), Digit(b[|b| - 1]));
    }
  }

  lemma Shift(a: nat, p: nat, b: nat, d: nat)
    ensures (a * p + b) * 10 + d == a * (10 * p) + (b * 10 + d)
  {
  }

  /** The printed numeral has no leading zero and as many digits as the number needs. */
  lemma {:induction false} PrintIsShortest(n: nat)
    ensures n < Pow10(|Print(n)|) && (n > 0 ==> Pow10(|Print(n)| - 1) <= n)
    ensures Print(n)[0] == '0' <==> n == 0
    ensures n < 10 ==> Print(n) == ["0123456789"[n]]
  {
    if n < 10 {
      assert Pow10(1) == 10;
    } else {
      PrintIsShortest(n / 10);
      assert Print(n)[0] == Print(n / 10)[0];
    }
  }

  /** Four digits are enough exactly below ten thousand. */
  lemma FourDigits(n: nat)
    ensures |Print(n)| <= 4 <==> n < 10000
  {
    PrintIsShortest(n);
    assert Pow10(4) == 10000;
    if |Print(n)| <= 4 {
      Pow10Grows(|Print(n)|, 4);
    } else {
      Pow10Grows(4, |Print(n)| - 1);
    }
  }
}
