/** What the ISBN-10 and ISBN-13 checksum classes share. */
module Isbn {
  import opened PhpStrings

  /**
   * `getChecksum` returns PHP's `int|string`: an `int` from 1 to 9, or one of
   * the strings "0" and "X".
   */
  datatype Check = Number(n: int) | Text(s: string)

  /** The first `n` characters of `value` exist and are decimal digits. */
  predicate HasLeadingDigits(value: string, n: nat) {
    n <= |value| && forall i :: 0 <= i < n ==> IsDigit(value[i])
  }

  /** The numeric value of a check character: "X" reads as 10, "0" as 0. */
  function CheckValue(c: Check): int {
    match c
    case Number(n) => n
    case Text(t) => if t == "X" then 10 else 0
  }

  /** Two digit strings that agree on their first `n` characters except at index `k`. */
  predicate DifferOnlyAt(a: string, b: string, n: nat, k: nat) {
    HasLeadingDigits(a, n) && HasLeadingDigits(b, n) && k < n && a[k] != b[k] &&
    forall i :: 0 <= i < n && i != k ==> a[i] == b[i]
  }

  /** The sum over the first `n` digits of `weight(i) * digit[i]`. */
  function WeightedSum(value: string, n: nat, weight: nat -> int): int
    requires HasLeadingDigits(value, n)
  {
    if n == 0 then 0 else WeightedSum(value, n - 1, weight) + weight(n - 1) * DigitValue(value[n - 1])
  }

  /** With non-negative weights the sum is non-negative. */
  lemma {:induction false} SumNonNegative(value: string, n: nat, weight: nat -> int)
    requires HasLeadingDigits(value, n)
    requires forall i :: 0 <= i < n ==> weight(i) >= 0
    ensures WeightedSum(value, n, weight) >= 0
  {
    if n > 0 {
      SumNonNegative(value, n - 1, weight);
    }
  }

  /** The sum reads only the first `n` characters. */
  lemma {:induction false} SumReadsPrefix(a: string, b: string, n: nat, weight: nat -> int)
    requires HasLeadingDigits(a, n) && HasLeadingDigits(b, n)
    requires a[..n] == b[..n]
    ensures WeightedSum(a, n, weight) == WeightedSum(b, n, weight)
  {
    if n > 0 {
      assert a[n - 1] == a[..n][n - 1] == b[..n][n - 1] == b[n - 1];
      assert a[..n - 1] == a[..n][..n - 1];
      assert b[..n - 1] == b[..n][..n - 1];
      SumReadsPrefix(a, b, n - 1, weight);
    }
  }

  /** Changing the digit at index `k` shifts the sum by its weight times the change. */
  lemma {:induction false} SumDifference(a: string, b: string, n: nat, k: nat, weight: nat -> int)
    requires DifferOnlyAt(a, b, n, k)
    ensures WeightedSum(a, n, weight) - WeightedSum(b, n, weight) ==
            weight(k) * (DigitValue(a[k]) - DigitValue(b[k]))
  {
    if n - 1 > k {
      SumDifference(a, b, n - 1, k, weight);
    } else {
      SumReadsPrefix(a, b, n - 1, weight);
    }
  }
}
