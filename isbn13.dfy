/** The ISBN-13 check digit: weights 1 and 3 alternating on the first twelve digits, modulo 10. */
module Isbn13 {
  import opened PhpStrings
  import opened Isbn

  /** How many leading digits `_sum` reads. */
  const Digits := 12

  /** The weight `_sum` gives the digit at index `i`: 1 at even indices, 3 at odd ones. */
  function Weight(i: nat): int {
    if i % 2 == 0 then 1 else 3
  }

  /** The weighted sum `_sum` computes over the first twelve digits. */
  function Total(value: string): nat
    requires HasLeadingDigits(value, Digits)
  {
    SumNonNegative(value, Digits, Weight);
    WeightedSum(value, Digits, Weight)
  }

  /** The value `_checksum` computes before mapping 10 to "0". */
  function Raw(sum: nat): (raw: int)
    ensures 1 <= raw <= 10
  {
    10 - sum % 10
  }

  /** A result `getChecksum` can return: an int 1..9 or "0". */
  predicate IsCheck(c: Check) {
    match c
    case Number(n) => 1 <= n <= 9
    case Text(t) => t == "0"
  }

  /**
   * The check digit for a weighted sum: the one digit whose value, added to
   * the sum, makes it divisible by 10.
   */
  function CheckFor(sum: nat): (c: Check)
    ensures IsCheck(c)
    ensures (sum + CheckValue(c)) % 10 == 0
  {
    var raw := Raw(sum);
    if raw == 10 then Text("0") else Number(raw)
  }

  /** The two postconditions of `CheckFor` leave no other choice. */
  lemma CheckForUnique(sum: nat, c: Check)
    requires IsCheck(c) && (sum + CheckValue(c)) % 10 == 0
    ensures c == CheckFor(sum)
  {
  }

  /** `_sum`: the weighted sum of the first twelve digits. */
  method Sum(value: string) returns (sum: nat)
    requires HasLeadingDigits(value, Digits)
    ensures sum == Total(value)
  {
    sum := 0;
    for i := 0 to Digits
      invariant sum == WeightedSum(value, i, Weight)
    {
      if i % 2 == 0 {
        sum := sum + DigitValue(value[i]);
      } else {
        sum := sum + 3 * DigitValue(value[i]);
      }
    }
  }

  /** `_checksum`: 10 - (sum mod 10), with 10 read as "0". */
  method Checksum(sum: nat) returns (checksum: Check)
    ensures checksum == CheckFor(sum)
    ensures Raw(sum) == 10 ==> checksum == Text("0")
    ensures Raw(sum) <= 9 ==> checksum == Number(Raw(sum))
  {
    var raw := 10 - sum % 10;
    if raw == 10 {
      checksum := Text("0");
    } else {
      checksum := Number(raw);
    }
  }

  /** `getChecksum`: the check digit for the first twelve digits of `value`. */
  method GetChecksum(value: string) returns (checksum: Check)
    requires HasLeadingDigits(value, Digits)
    ensures checksum == CheckFor(Total(value))
    ensures IsCheck(checksum)
    ensures (Total(value) + CheckValue(checksum)) % 10 == 0
  {
    var sum := Sum(value);
    checksum := Checksum(sum);
  }

  /** So the check digit depends only on the first twelve characters. */
  lemma ChecksumReadsTwelveDigits(a: string, b: string)
    requires HasLeadingDigits(a, Digits) && HasLeadingDigits(b, Digits)
    requires a[..Digits] == b[..Digits]
    ensures CheckFor(Total(a)) == CheckFor(Total(b))
  {
    SumReadsPrefix(a, b, Digits, Weight);
  }

  /** Sums with the same check digit have the same remainder modulo 10. */
  lemma CheckForDeterminesRemainder(x: nat, y: nat)
    requires CheckFor(x) == CheckFor(y)
    ensures (x as int - y as int) % 10 == 0
  {
  }

  /** A single mistyped digit among the first twelve always changes the check digit. */
  lemma SingleDigitErrorDetected(a: string, b: string, k: nat)
    requires DifferOnlyAt(a, b, Digits, k)
    ensures CheckFor(Total(a)) != CheckFor(Total(b))
  {
    SumDifference(a, b, Digits, k, Weight);
    var d := DigitValue(a[k]) - DigitValue(b[k]);
    var sa, sb := Total(a), Total(b);
    assert (sa as int - sb as int) % 10 != 0 by {
      if Weight(k) == 1 {
        assert sa as int - sb as int == d;
      } else {
        assert sa as int - sb as int == 3 * d;
      }
    }
    if CheckFor(sa) == CheckFor(sb) {
      CheckForDeterminesRemainder(sa, sb);
    }
  }
}
