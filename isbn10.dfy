/** The ISBN-10 check character: weights 10 down to 2 on the first nine digits, modulo 11. */
module Isbn10 {
  import opened PhpStrings
  import opened Isbn

  /** How many leading digits `_sum` reads. */
  const Digits := 9

  /** The weight `_sum` gives the digit at index `i`. */
  function Weight(i: nat): int {
    10 - i
  }

  /** The weighted sum `_sum` computes over the first nine digits. */
  function Total(value: string): nat
    requires HasLeadingDigits(value, Digits)
  {
    SumNonNegative(value, Digits, Weight);
    WeightedSum(value, Digits, Weight)
  }

  /** The value `_checksum` computes before mapping 11 and 10 to strings. */
  function Raw(sum: nat): (raw: int)
    ensures 1 <= raw <= 11
  {
    11 - sum % 11
  }

  /** A result `getChecksum` can return: an int 1..9, "0" or "X". */
  predicate IsCheck(c: Check) {
    match c
    case Number(n) => 1 <= n <= 9
    case Text(t) => t == "0" || t == "X"
  }

  /**
   * The check character for a weighted sum: the one character whose value,
   * added to the sum, makes it divisible by 11.
   */
  function CheckFor(sum: nat): (c: Check)
    ensures IsCheck(c)
    ensures (sum + CheckValue(c)) % 11 == 0
  {
    var raw := Raw(sum);
    if raw == 11 then Text("0") else if raw == 10 then Text("X") else Number(raw)
  }

  /** The two postconditions of `CheckFor` leave no other choice. */
  lemma CheckForUnique(sum: nat, c: Check)
    requires IsCheck(c) && (sum + CheckValue(c)) % 11 == 0
    ensures c == CheckFor(sum)
  {
  }

  /** `_sum`: the weighted sum of the first nine digits. */
  method Sum(value: string) returns (sum: nat)
    requires HasLeadingDigits(value, Digits)
    ensures sum == Total(value)
  {
    sum := 0;
    for i := 0 to Digits
      invariant sum == WeightedSum(value, i, Weight)
    {
      sum := sum + (10 - i) * DigitValue(value[i]);
    }
  }

  /** `_checksum`: 11 - (sum mod 11), with 11 read as "0" and 10 as "X". */
  method Checksum(sum: nat) returns (checksum: Check)
    ensures checksum == CheckFor(sum)
    ensures Raw(sum) == 11 ==> checksum == Text("0")
    ensures Raw(sum) == 10 ==> checksum == Text("X")
    ensures Raw(sum) <= 9 ==> checksum == Number(Raw(sum))
  {
    var raw := 11 - sum % 11;
    if raw == 11 {
      checksum := Text("0");
    } else if raw == 10 {
      checksum := Text("X");
    } else {
      checksum := Number(raw);
    }
  }

  /** `getChecksum`: the check character for the first nine digits of `value`. */
  method GetChecksum(value: string) returns (checksum: Check)
    requires HasLeadingDigits(value, Digits)
    ensures checksum == CheckFor(Total(value))
    ensures IsCheck(checksum)
    ensures (Total(value) + CheckValue(checksum)) % 11 == 0
  {
    var sum := Sum(value);
    checksum := Checksum(sum);
  }

  /** So the check character depends only on the first nine characters. */
  lemma ChecksumReadsNineDigits(a: string, b: string)
    requires HasLeadingDigits(a, Digits) && HasLeadingDigits(b, Digits)
    requires a[..Digits] == b[..Digits]
    ensures CheckFor(Total(a)) == CheckFor(Total(b))
  {
    SumReadsPrefix(a, b, Digits, Weight);
  }

  /** 11 is prime: a weight 2..10 times a digit change -9..9 other than 0 is never a multiple of 11. */
  lemma NoMultipleOfEleven(w: int, d: int)
    requires 2 <= w <= 10 && -9 <= d <= 9 && d != 0
    ensures (w * d) % 11 != 0
  {
    // with the weight fixed, the product is linear in the digit change
    if w == 2 {} else if w == 3 {} else if w == 4 {} else if w == 5 {} else if w == 6 {}
    else if w == 7 {} else if w == 8 {} else if w == 9 {} else {}
  }

  /** A single mistyped digit among the first nine always changes the check character. */
  lemma SingleDigitErrorDetected(a: string, b: string, k: nat)
    requires DifferOnlyAt(a, b, Digits, k)
    ensures CheckFor(Total(a)) != CheckFor(Total(b))
  {
    SumDifference(a, b, Digits, k, Weight);
    var d := DigitValue(a[k]) - DigitValue(b[k]);
    NoMultipleOfEleven(Weight(k), d);
    var sa, sb := Total(a), Total(b);
    assert (sa as int - sb as int) % 11 != 0;
    if CheckFor(sa) == CheckFor(sb) {
      CheckForDeterminesRemainder(sa, sb);
    }
  }

  /** Sums with the same check character have the same remainder modulo 11. */
  lemma CheckForDeterminesRemainder(x: nat, y: nat)
    requires CheckFor(x) == CheckFor(y)
    ensures (x as int - y as int) % 11 == 0
  {
  }
}
