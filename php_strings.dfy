/**
 * The PHP string built-ins the validators rely on: `explode`, `implode`,
 * `substr`, `strtoupper`, the `(int)` cast of a string, and the coercion of a
 * digit character to its numeric value.
 */
module PhpStrings {

  predicate IsDigit(c: char) {
    '0' <= c <= '9'
  }

  /** The number a decimal digit character stands for in arithmetic. */
  function DigitValue(c: char): (d: nat)
    requires IsDigit(c)
    ensures d <= 9
  {
    c as int - '0' as int
  }

  function DigitChar(d: nat): (c: char)
    requires d <= 9
    ensures IsDigit(c) && DigitValue(c) == d
  {
    ('0' as int + d) as char
  }

  predicate AllDigits(s: string) {
    forall i :: 0 <= i < |s| ==> IsDigit(s[i])
  }

  // ---------------------------------------------------------------------------
  // implode / explode

  /** `implode($glue, $parts)`: the parts joined with `glue` between neighbours. */
  function Implode(parts: seq<string>, glue: string): string
  {
    if |parts| == 0 then ""
    else if |parts| == 1 then parts[0]
    else parts[0] + glue + Implode(parts[1..], glue)
  }

  /** `d` occurs in `s` starting at index `k`. */
  predicate OccursAt(s: string, d: string, k: nat) {
    k + |d| <= |s| && s[k..k + |d|] == d
  }

  predicate Contains(s: string, d: string) {
    exists k: nat | k <= |s| :: OccursAt(s, d, k)
  }

  /**
   * `explode($delim, $s)`: `s` cut at every occurrence of `delim`, scanning
   * from the left; occurrences do not overlap.  There is always at least one
   * part, and gluing the parts back together gives `s`.
   */
  function Explode(s: string, delim: string): (parts: seq<string>)
    requires |delim| > 0
    ensures |parts| >= 1
    ensures Implode(parts, delim) == s
    decreases |s|
  {
    if |s| < |delim| then [s]
    else if s[..|delim|] == delim then [""] + Explode(s[|delim|..], delim)
    else
      var rest := Explode(s[1..], delim);
      assert Implode([[s[0]] + rest[0]] + rest[1..], delim) == [s[0]] + Implode(rest, delim);
      [[s[0]] + rest[0]] + rest[1..]
  }

  lemma ImplodeStartsWithFirst(parts: seq<string>, glue: string)
    requires |parts| >= 1
    ensures parts[0] <= Implode(parts, glue)
  {
  }

  /** No part that `explode` returns contains the delimiter. */
  lemma {:induction false} ExplodePartsFree(s: string, delim: string)
    requires |delim| > 0
    ensures forall i :: 0 <= i < |Explode(s, delim)| ==> !Contains(Explode(s, delim)[i], delim)
    decreases |s|
  {
    if |s| < |delim| {
      assert forall k: nat :: !OccursAt(s, delim, k);
    } else if s[..|delim|] == delim {
      ExplodePartsFree(s[|delim|..], delim);
      assert forall k: nat :: !OccursAt("", delim, k);
    } else {
      var rest := Explode(s[1..], delim);
      ExplodePartsFree(s[1..], delim);
      var p := [s[0]] + rest[0];
      ImplodeStartsWithFirst(rest, delim);
      forall k: nat | OccursAt(p, delim, k)
        ensures false
      {
        if k > 0 {
          assert p[k..k + |delim|] == rest[0][k - 1..k - 1 + |delim|];
          assert OccursAt(rest[0], delim, k - 1);
        }
      }
      var parts := Explode(s, delim);
      assert parts == [p] + rest[1..];
      forall i | 0 <= i < |parts| ensures !Contains(parts[i], delim) {
        if i > 0 { assert parts[i] == rest[i]; }
      }
    }
  }

  /** A string that does not contain a one-character string holds no copy of that character. */
  lemma {:induction false} WithoutCharacter(s: string, c: char)
    requires !Contains(s, [c])
    ensures forall i :: 0 <= i < |s| ==> s[i] != c
  {
    forall i | 0 <= i < |s|
      ensures s[i] != c
    {
      assert s[i..i + 1] == [s[i]];
      assert !OccursAt(s, [c], i);
    }
  }

  /** A string without the delimiter's first character comes back whole. */
  lemma {:induction false} ExplodeWithoutDelimiter(s: string, delim: string)
    requires |delim| > 0
    requires forall i :: 0 <= i < |s| ==> s[i] != delim[0]
    ensures Explode(s, delim) == [s]
    decreases |s|
  {
    if |s| >= |delim| {
      assert s[..|delim|][0] != delim[0];
      ExplodeWithoutDelimiter(s[1..], delim);
      assert [s[0]] + s[1..] == s;
    }
  }

  /** A field free of the delimiter's first character, then the delimiter, splits off as the first part. */
  lemma {:induction false} ExplodeField(a: string, delim: string, b: string)
    requires |delim| > 0
    requires forall i :: 0 <= i < |a| ==> a[i] != delim[0]
    ensures Explode(a + delim + b, delim) == [a] + Explode(b, delim)
    decreases |a|
  {
    var s := a + delim + b;
    if a == [] {
      assert s[..|delim|] == delim;
      assert s[|delim|..] == b;
    } else {
      assert s[..|delim|][0] == a[0] != delim[0];
      assert s[1..] == a[1..] + delim + b;
      ExplodeField(a[1..], delim, b);
      assert [a[0]] + a[1..] == a;
    }
  }

  // ---------------------------------------------------------------------------
  // substr

  /** `substr($s, 0, $n)`: the first `n` characters, or all of `s` when it is shorter. */
  function SubstrHead(s: string, n: nat): (r: string)
    ensures r <= s
    ensures |r| == if |s| < n then |s| else n
  {
    if |s| < n then s else s[..n]
  }

  /** `substr($s, $start)`: everything from index `start` on, empty when `start` is past the end. */
  function SubstrFrom(s: string, start: nat): (r: string)
    ensures start <= |s| ==> SubstrHead(s, start) + r == s
    ensures start >= |s| ==> r == ""
  {
    if |s| < start then "" else s[start..]
  }

  /** `substr($s, $start, $length)` for a non-negative start and length. */
  function Substr(s: string, start: nat, length: nat): (r: string)
    ensures start + length <= |s| ==> r == s[start..start + length]
    ensures |r| <= length
    ensures start >= |s| ==> r == ""
  {
    SubstrHead(SubstrFrom(s, start), length)
  }

  // ---------------------------------------------------------------------------
  // strtoupper

  predicate IsLower(c: char) {
    'a' <= c <= 'z'
  }

  function UpperChar(c: char): (u: char)
    ensures !IsLower(u)
    ensures !IsLower(c) ==> u == c
    ensures IsLower(c) ==> u as int == c as int - 32
  {
    if IsLower(c) then (c as int - 32) as char else c
  }

  /** `strtoupper($s)`: every ASCII lower-case letter replaced by its capital. */
  function ToUpper(s: string): (r: string)
    ensures |r| == |s|
    ensures forall i :: 0 <= i < |s| ==> r[i] == UpperChar(s[i])
  {
    if s == [] then [] else [UpperChar(s[0])] + ToUpper(s[1..])
  }

  lemma ToUpperIdempotent(s: string)
    ensures ToUpper(ToUpper(s)) == ToUpper(s)
  {
  }

  // ---------------------------------------------------------------------------
  // (int) cast and %d formatting

  /** The longest run of digits at the start of `s`. */
  function DigitPrefix(s: string): (r: string)
    ensures r <= s && AllDigits(r)
    ensures |r| < |s| ==> !IsDigit(s[|r|])
  {
    if s != [] && IsDigit(s[0]) then [s[0]] + DigitPrefix(s[1..]) else []
  }

  /** The number a run of decimal digits denotes. */
  function DigitsValue(ds: string): nat
    requires AllDigits(ds)
  {
    if ds == [] then 0 else DigitsValue(ds[..|ds| - 1]) * 10 + DigitValue(ds[|ds| - 1])
  }

  /**
   * `(int) $s`: an optional sign followed by the leading digits; a string
   * that does not start with a number casts to 0.
   */
  function IntCast(s: string): (n: int)
    ensures (s == [] || s[0] != '-') ==> n >= 0
    ensures s != [] && s[0] == '-' ==> n <= 0
    ensures (s == [] || (s[0] != '-' && s[0] != '+' && !IsDigit(s[0]))) ==> n == 0
    ensures AllDigits(s) ==> n == DigitsValue(s)
  {
    if |s| > 0 && s[0] == '-' then -(DigitsValue(DigitPrefix(s[1..])) as int)
    else if |s| > 0 && s[0] == '+' then DigitsValue(DigitPrefix(s[1..]))
    else if AllDigits(s) then DigitPrefixOfDigits(s); DigitsValue(DigitPrefix(s))
    else DigitsValue(DigitPrefix(s))
  }

  /** `sprintf('%d', $n)` for a non-negative `n`. */
  function Decimal(n: nat): (s: string)
    ensures |s| >= 1 && AllDigits(s)
  {
    if n < 10 then [DigitChar(n)] else Decimal(n / 10) + [DigitChar(n % 10)]
  }

  lemma DigitPrefixOfDigits(s: string)
    requires AllDigits(s)
    ensures DigitPrefix(s) == s
  {
  }

  lemma {:induction false} DigitsValueOfDecimal(n: nat)
    ensures DigitsValue(Decimal(n)) == n
  {
    if n >= 10 {
      var s := Decimal(n);
      assert s[..|s| - 1] == Decimal(n / 10);
      DigitsValueOfDecimal(n / 10);
    }
  }

  /** Casting a formatted count back to `int` gives the count: `(int) sprintf('%d', $n) == $n`. */
  lemma IntCastOfDecimal(n: nat)
    ensures IntCast(Decimal(n)) == n
  {
    DigitPrefixOfDigits(Decimal(n));
    DigitsValueOfDecimal(n);
  }
}
