/** Decimal printing and reading of natural numbers, shared by the wire formats. */
module Decimals {

  predicate IsDigit(c: char) {
    '0' <= c <= '9'
  }

  function DigitValue(c: char): nat
    requires IsDigit(c)
  {
    c as int - '0' as int
  }

  predicate AllDigits(s: string) {
    forall i :: 0 <= i < |s| ==> IsDigit(s[i])
  }

  /** printf's %i of a natural number. */
  function Decimal(n: nat): (s: string)
    ensures s != "" && AllDigits(s)
    ensures n < 10 <==> |s| == 1
    ensures s[0] == '0' ==> n == 0
  {
    var d := ('0' as int + n % 10) as char;
    if n < 10 then [d] else Decimal(n / 10) + [d]
  }

  /** Reading digits from the left, starting from `acc`. */
  function ReadDigits(acc: nat, s: string): nat
    requires AllDigits(s)
    decreases s
  {
    if s == "" then acc else ReadDigits(acc * 10 + DigitValue(s[0]), s[1..])
  }

  lemma {:induction false} ReadDigitsAppend(acc: nat, s: string, c: char)
    requires AllDigits(s) && IsDigit(c)
    ensures AllDigits(s + [c])
    ensures ReadDigits(acc, s + [c]) == ReadDigits(acc, s) * 10 + DigitValue(c)
    decreases s
  {
    if s != "" {
      assert (s + [c])[1..] == s[1..] + [c];
      ReadDigitsAppend(acc * 10 + DigitValue(s[0]), s[1..], c);
    }
  }

  /** Reading what was printed gives the number back. */
  lemma {:induction false} ReadDecimal(n: nat)
    ensures ReadDigits(0, Decimal(n)) == n
  {
    if n >= 10 {
      ReadDecimal(n / 10);
      ReadDigitsAppend(0, Decimal(n / 10), ('0' as int + n % 10) as char);
    }
  }

  function PowerOfTen(k: nat): nat {
    if k == 0 then 1 else 10 * PowerOfTen(k - 1)
  }

  /** A number below the k-th power of ten has at most k digits. */
  lemma {:induction false} DecimalLength(n: nat, k: nat)
    requires k > 0 && n < PowerOfTen(k)
    ensures |Decimal(n)| <= k
  {
    if n >= 10 {
      DecimalLength(n / 10, k - 1);
    }
  }
}
