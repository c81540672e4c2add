# zend-validator: checksum, count and breached-password logic in Dafny

This project models the two ISBN checksum classes and two validators of
zend-validator, a PHP library of input validators, and proves properties of
the model:

- **Isbn10** and **Isbn13** compute the check character of an ISBN using the
  rules of ISO 2108. ISBN-10 weights the first nine digits 10 down to 2 and
  takes the sum modulo 11; a result of 10 is written "X". ISBN-13 weights the
  first twelve digits 1 and 3 in turn and takes the sum modulo 10.
  `_sum` and `_checksum` are methods: `_sum` has a loop, `_checksum`
  reassigns a variable. Each is proved against a recursive sum function and a
  check-character function. The proved properties include these: the check
  character is the one value that makes the sum divisible by 11 (or 10); it
  depends only on the leading digits; and a single mistyped digit always
  changes it.
- **IsCountable** is a class. Its `options` record (`count`, `min`, `max`) is
  changed by the fluent setters. `isValid` either returns a boolean and
  records at most one error key, or throws a RuntimeException for a value
  that cannot be counted. The decision is the function `Evaluate`, whose
  contract states the priority: an exact count first, then `max`, then
  `min`, with inclusive bounds.
- **UndisclosedPassword** checks a password against the "Have I Been Pwned"
  range service using k-anonymity. The password's SHA-1 hash is checked for
  length and upper-cased. Only its first five characters are sent as
  `GET /range/<prefix>`. The `\r\n`-separated `SUFFIX:COUNT` answer is then
  searched for the rest of the hash. SHA-1 and the HTTP client are supplied to
  the constructor as functions. The client either answers with a body or
  throws one of these: a PSR-18 client exception, one of the validator's own
  two exceptions, another `\Exception`, or an `\Error`. `isValid` catches
  every `\Exception` and turns it into exactly one error key. It does not
  catch an `\Error`, which escapes with no key recorded. `hashInResponse` is a
  loop over the answer's lines that keeps the count of the last matching
  line. The validator records each request it sends, so the contracts can
  state when no lookup takes place.

The PHP built-ins these depend on (`explode`, `implode`, `substr`,
`strtoupper`, the `(int)` cast, `sprintf('%d')`) are modelled in
`PhpStrings`. `Wrappers` holds `Option` and `Result`.

Two behaviours of the IsCountable code:
- It does not reject `count` set together with `min` or `max`
  (src/IsCountable.php:101-105). The count takes priority
  (`IsCountable.CountOverridesBounds`).
- A value that cannot be counted makes `isValid` throw a RuntimeException
  (src/IsCountable.php:57-59). The NOT_COUNTABLE key is never recorded; only
  its message is used.

## Model

| member | source | states |
|---|---|---|
| `Isbn.SumNonNegative` | src/Isbn/Isbn10.php:19-22 | a weighted digit sum with non-negative weights is non-negative, so `_checksum` only ever sees sums of 0 or more (also src/Isbn/Isbn13.php:19-26) |
| `Isbn.SumReadsPrefix` | src/Isbn/Isbn10.php:20-22 | the weighted sum over the first n digits depends on those n characters only (also src/Isbn/Isbn13.php:20-26) |
| `Isbn.SumDifference` | src/Isbn/Isbn10.php:20-22 | changing the digit at index k changes the weighted sum by the weight of k times the change (also src/Isbn/Isbn13.php:20-26) |
| `Isbn10.Sum` | src/Isbn/Isbn10.php:17-24 | the loop computes the weighted sum of the first nine digits, the sum for i < 9 of (10 - i) * digit[i] |
| `Isbn10.Raw` | src/Isbn/Isbn10.php:28 | 11 - (sum mod 11) always lies in 1..11 |
| `Isbn10.CheckFor` | src/Isbn/Isbn10.php:26-37 | the check character is an int 1..9, "0" or "X", and sum + its value (X = 10, "0" = 0) is divisible by 11 |
| `Isbn10.CheckForUnique` | src/Isbn/Isbn10.php:28-34 | no other check character satisfies those two conditions, so they characterise the result |
| `Isbn10.Checksum` | src/Isbn/Isbn10.php:26-37 | `_checksum` maps a raw value of 11 to "0" and 10 to "X", returns 1..9 as the number itself, and agrees with `CheckFor` |
| `Isbn10.GetChecksum` | src/Isbn/Isbn10.php:11-15 | `getChecksum(v)` is `_checksum(_sum(v))`: a valid check character that makes the weighted sum divisible by 11 |
| `Isbn10.ChecksumReadsNineDigits` | src/Isbn/Isbn10.php:11-24 | strings that agree on their first nine characters get the same check character |
| `Isbn10.NoMultipleOfEleven` | src/Isbn/Isbn10.php:28 | no weight 2..10 times a non-zero digit change is a multiple of 11 |
| `Isbn10.CheckForDeterminesRemainder` | src/Isbn/Isbn10.php:28-34 | sums with the same check character are congruent modulo 11 |
| `Isbn10.SingleDigitErrorDetected` | src/Isbn/Isbn10.php:17-37 | a single mistyped digit among the first nine always changes the check character |
| `Isbn13.Sum` | src/Isbn/Isbn13.php:17-28 | the loop computes the sum for i < 12 of digit[i] * (1 if i is even, else 3) |
| `Isbn13.Raw` | src/Isbn/Isbn13.php:32 | 10 - (sum mod 10) always lies in 1..10 |
| `Isbn13.CheckFor` | src/Isbn/Isbn13.php:30-39 | the check digit is an int 1..9 or "0", and sum + its value is divisible by 10 |
| `Isbn13.CheckForUnique` | src/Isbn/Isbn13.php:32-36 | no other check digit satisfies those two conditions |
| `Isbn13.Checksum` | src/Isbn/Isbn13.php:30-39 | `_checksum` maps a raw value of 10 to "0", returns 1..9 as the number itself, and agrees with `CheckFor` |
| `Isbn13.GetChecksum` | src/Isbn/Isbn13.php:11-15 | `getChecksum(v)` is `_checksum(_sum(v))`: a single digit that makes the weighted sum divisible by 10 |
| `Isbn13.ChecksumReadsTwelveDigits` | src/Isbn/Isbn13.php:11-28 | strings that agree on their first twelve characters get the same check digit |
| `Isbn13.CheckForDeterminesRemainder` | src/Isbn/Isbn13.php:32-36 | sums with the same check digit are congruent modulo 10 |
| `Isbn13.SingleDigitErrorDetected` | src/Isbn/Isbn13.php:17-39 | a single mistyped digit among the first twelve always changes the check digit |
| `IsCountable.Evaluate` | src/IsCountable.php:55-83 | an uncountable value throws with the NOT_COUNTABLE message; with `count` set, the call passes iff the size equals it and otherwise fails only with NOT_EQUALS; without `count`, it passes iff the size lies within the inclusive bounds; GREATER_THAN exactly when above `max`; LESS_THAN exactly when below `min` and not above `max` |
| `IsCountable.CountOverridesBounds` | src/IsCountable.php:63-70 | with `count` set, any `min` and `max` leave the outcome unchanged |
| `IsCountable.DefaultsAcceptEverything` | src/IsCountable.php:42-46 | with every option null, every countable value passes |
| `IsCountable.Recorded` | src/IsCountable.php:63-80 | a failing outcome records exactly one key, any other outcome none |
| `IsCountable.NamesIdentifyKeys` | src/IsCountable.php:9-12 | the four key strings are distinct, so the set of recorded keys matches the key set of the messages |
| `IsCountable.IsCountable.constructor` | src/IsCountable.php:42-46 | a new validator has all three options null and no recorded errors |
| `IsCountable.IsCountable.GetCount` | src/IsCountable.php:90-93 | (no ensures) returns the stored `count` option: null until set, then the last value given to `setCount` |
| `IsCountable.IsCountable.GetMin` | src/IsCountable.php:112-115 | (no ensures) returns the stored `min` option: null until set, then the last value given to `setMin` |
| `IsCountable.IsCountable.GetMax` | src/IsCountable.php:134-137 | (no ensures) returns the stored `max` option: null until set, then the last value given to `setMax` |
| `IsCountable.IsCountable.SetCount` | src/IsCountable.php:101-105 | sets `count` (seen through `GetCount`), leaves `min`, `max` and the errors unchanged, and returns the validator |
| `IsCountable.IsCountable.SetMin` | src/IsCountable.php:123-127 | sets `min` (seen through `GetMin`), leaves `count`, `max` and the errors unchanged, and returns the validator |
| `IsCountable.IsCountable.SetMax` | src/IsCountable.php:145-149 | sets `max` (seen through `GetMax`), leaves `count`, `min` and the errors unchanged, and returns the validator |
| `IsCountable.IsCountable.IsValid` | src/IsCountable.php:55-83 | throws a RuntimeException exactly for an uncountable value; otherwise returns whether `Evaluate` passes; adds the failing key, and only that one, to the recorded errors |
| `IsCountable.ValidateWithOptions` | test/IsCountableTest.php:18-87 | a new validator configured through the setters throws only for an uncountable value, returns the decision of `Evaluate`, and afterwards holds one message after a failure and none otherwise |
| `UndisclosedPassword.HashPassword` | src/UndisclosedPassword.php:115-122 | a digest whose length is not 40 raises InvalidArgumentException; otherwise the result is the upper-cased digest, 40 characters long |
| `UndisclosedPassword.NamesIdentifyKeys` | src/UndisclosedPassword.php:22-25 | the four key strings are distinct, so the set of recorded keys matches the key set of the messages |
| `UndisclosedPassword.RangeHash` | src/UndisclosedPassword.php:132-136 | `substr` from index 0 with length 5: for a hash of at least five characters, the range is exactly five characters long and the hash is the range followed by the suffix that is compared |
| `UndisclosedPassword.RequestPath` | src/UndisclosedPassword.php:150 | the request path is "/range/" followed by the range |
| `UndisclosedPassword.HashListFrom` | src/UndisclosedPassword.php:152-157 | a response yields its body; a client exception becomes a RuntimeException; anything else the client throws passes through unchanged |
| `UndisclosedPassword.HashSuffix` | src/UndisclosedPassword.php:173 | `substr($sha1Hash, 5)`: for a hash of at least five characters, the range followed by the suffix is the hash; a shorter hash has an empty suffix |
| `UndisclosedPassword.Lines` | src/UndisclosedPassword.php:169 | the body splits into at least one line, and joining the lines with "\r\n" gives the body back |
| `UndisclosedPassword.LineHash` | src/UndisclosedPassword.php:172 | the hash field is a prefix of the line without ':'; unless it is the whole line, a ':' follows it |
| `UndisclosedPassword.LineCount` | src/UndisclosedPassword.php:172-174 | a line without ':' has count 0 (`(int) null`); otherwise the count is the `(int)` of the text between the first ':' and the next ':' or the end |
| `UndisclosedPassword.LastMatchCountIsLastMatch` | src/UndisclosedPassword.php:171-178 | when line j is the last one listing the suffix, the recorded count is the `(int)` of line j's count field |
| `UndisclosedPassword.ScanStep` | src/UndisclosedPassword.php:171-178 | one step of the `array_filter` scan: the first i + 1 lines hold a match iff the first i do or line i matches, and the kept count becomes line i's count exactly when it matches |
| `UndisclosedPassword.LastMatchCountWithoutMatch` | src/UndisclosedPassword.php:170 | with no line listing the suffix, the running count stays at its base of 0 |
| `UndisclosedPassword.Lookup` | src/UndisclosedPassword.php:99-105 | a digest whose length is not 40 raises InvalidArgumentException; the lookup returns a boolean iff the digest has length 40 and the client answers with a body, and the boolean says whether some line of the body lists the suffix; a client exception becomes a RuntimeException; anything else the client throws is the result unchanged |
| `UndisclosedPassword.VerdictFor` | src/UndisclosedPassword.php:74-97 | a non-string gets WRONG_INPUT; a string passes iff the lookup returns "not found" and gets PASSWORD_BREACHED iff it returns "found"; the call throws exactly when the lookup ends in an `\Error` |
| `UndisclosedPassword.Recorded` | src/UndisclosedPassword.php:76-94 | a failing verdict records exactly one key, any other verdict none |
| `UndisclosedPassword.RequestsFor` | src/UndisclosedPassword.php:76-79 | a single `isValid` sends at most one request, and none for a non-string |
| `UndisclosedPassword.RequestCarriesOnlyRange` | src/UndisclosedPassword.php:118-121 | the request path is "/range/" followed by the first five characters of the upper-cased 40-character hash, and nothing more |
| `UndisclosedPassword.WrongLengthIsWrongInput` | src/UndisclosedPassword.php:82-84 | a digest whose length is not 40 ends in WRONG_INPUT |
| `UndisclosedPassword.TransportFailuresAreReported` | src/UndisclosedPassword.php:82-91 | a client exception ends in CONNECTION_FAILURE; the validator's own InvalidArgumentException thrown by the client in WRONG_INPUT, its RuntimeException in CONNECTION_FAILURE; any other `\Exception` in UNKNOWN_ERROR; an `\Error` escapes `isValid` |
| `UndisclosedPassword.HexSuffixHasNoDelimiters` | src/UndisclosedPassword.php:121 | the upper-cased suffix of a hexadecimal digest contains neither ':' nor '\r' |
| `UndisclosedPassword.ParseLine` | src/UndisclosedPassword.php:172-174 | a `SUFFIX:COUNT` line whose suffix has no ':' parses back to that suffix and that count |
| `UndisclosedPassword.SingleLine` | src/UndisclosedPassword.php:169 | a body without '\r' is a single line |
| `UndisclosedPassword.ListedPasswordIsBreached` | test/UndisclosedPasswordTest.php:134-149 | when the service answers with the password's own suffix and a count n, the password is breached and n is recorded |
| `UndisclosedPassword.UnlistedPasswordPasses` | test/UndisclosedPasswordTest.php:109-124 | when the service lists only a different suffix, the password passes with no key recorded |
| `UndisclosedPassword.UndisclosedPassword.constructor` | src/UndisclosedPassword.php:52-69 | a new validator stores its hash function and client, with count 0, no errors and no requests sent |
| `UndisclosedPassword.UndisclosedPassword.RetrieveHashList` | src/UndisclosedPassword.php:147-158 | sends exactly one request, to "/range/" followed by the range, and returns what `HashListFrom` makes of the client's answer |
| `UndisclosedPassword.UndisclosedPassword.HashInResponse` | src/UndisclosedPassword.php:167-184 | returns true iff some line's text before ':' equals the hash from index 5 on; when true, `count` becomes the count of the last matching line; when false, `count` is unchanged |
| `UndisclosedPassword.UndisclosedPassword.IsPwnedPassword` | src/UndisclosedPassword.php:99-105 | returns `Lookup`: the first exception of hashing or retrieval, else whether the suffix is listed; updates `count` and the requests accordingly |
| `UndisclosedPassword.UndisclosedPassword.IsValid` | src/UndisclosedPassword.php:74-97 | throws exactly when `VerdictFor` propagates, and then only an `\Error`; otherwise returns true iff the verdict passes; adds exactly the keys of `Recorded`; `count` changes only when the password is breached; requests are those of `RequestsFor` |
| `UndisclosedPassword.ValidateOnce` | test/UndisclosedPasswordTest.php:159-166 | a new validator's `isValid` lets an `\Error` escape with no message exactly when `VerdictFor` propagates; otherwise it returns and holds exactly the one message of the verdict iff it returns false, so a client `\Exception` leaves one message; a non-string sends no request; any request path is twelve characters long |
| `PhpStrings.Explode` | src/UndisclosedPassword.php:169 | `explode` returns at least one part, and `implode` with the same delimiter gives the input back |
| `PhpStrings.ExplodePartsFree` | src/UndisclosedPassword.php:169 | no part returned by `explode` contains the delimiter |
| `PhpStrings.ExplodeWithoutDelimiter` | src/UndisclosedPassword.php:169 | a string without the delimiter's first character comes back as the only part |
| `PhpStrings.ExplodeField` | src/UndisclosedPassword.php:172 | a delimiter-free field followed by the delimiter splits off as the first part |
| `PhpStrings.SubstrHead` | src/UndisclosedPassword.php:134 | `substr($s, 0, $n)` is a prefix of s of length min(n, \|s\|) |
| `PhpStrings.Substr` | src/UndisclosedPassword.php:134 | `substr($s, $start, $length)` is the slice of that length from start when it fits, never longer than length, and empty from past the end |
| `PhpStrings.SubstrFrom` | src/UndisclosedPassword.php:173 | `substr($s, 0, $k)` followed by `substr($s, $k)` is s, and `substr($s, $k)` is empty once k is at or past the end |
| `PhpStrings.ToUpper` | src/UndisclosedPassword.php:121 | `strtoupper` keeps the length and maps each character to its capital |
| `PhpStrings.UpperChar` | src/UndisclosedPassword.php:121 | no lower-case letter survives; other characters are unchanged; a lower-case letter moves 32 code points down |
| `PhpStrings.ToUpperIdempotent` | src/UndisclosedPassword.php:121 | upper-casing twice is the same as upper-casing once |
| `PhpStrings.IntCast` | src/UndisclosedPassword.php:174 | `(int)` of a string is not negative unless it starts with '-', and not positive when it does; it is 0 when the string starts with neither a sign nor a digit; for a string of digits it is the number they denote |
| `PhpStrings.IntCastOfDecimal` | src/UndisclosedPassword.php:174 | `(int)` of the decimal text of n is n, so a count that the service formats with `%d` reads back exactly |

Each ISBN method that only reads carries its properties in its `ensures`.
The class methods that change state state the whole new state in terms of
the specification functions (`Evaluate`, `Lookup`, `VerdictFor`, `CountAfter`,
`RequestsFor`).

## Left out

- src/Isbn.php, the validator that checks an ISBN's format and compares the
  check character with the last character, is not part of this model.
  `Sum` and `GetChecksum` require the leading nine or twelve characters to be
  decimal digits, which that validator's format check guarantees. PHP's
  coercion of a missing or non-digit character to 0 is not modelled.
- IsCountable options are modelled as an int or null. PHP accepts any value;
  one that `is_numeric` rejects counts as not set, while the getter still
  returns it. A float or numeric-string option, and the loose `!=`
  comparison with it, are not modelled.
- IsCountable's message templates and message variables, and
  AbstractValidator's constructor options and message handling, are not part
  of this model. Recorded errors are a set of keys. `error` adds one key;
  `isValid` clears nothing, because clearing is AbstractValidator's business
  and these classes do not call it.
- UndisclosedPassword: `\sha1` and the PSR-18 HTTP client are foreign calls.
  They are constructor parameters: a function returning the digest, and a
  function from request path to a response body or to what the client throws.
  The model treats the service as answering a given path the same way every
  time; each contract covers a single `isValid`, which sends at most one
  request. These pieces are not modelled: the construction of the request
  object, the API URI, the user-agent/accept/timeout constants, and the
  response stream object.
- `UndisclosedPassword.Transport`: `Raises(OtherException)` stands for any
  `\Exception` other than a PSR-18 client exception and the validator's own
  InvalidArgumentException and RuntimeException. `Raises(Error)` stands for
  any `\Error`. Which PHP class is thrown is not modelled beyond these
  cases. `ClientFailure` covers every PSR-18 client exception, whatever its
  base class, since `retrieveHashList` catches it by interface.
- `UndisclosedPassword.HexSuffixHasNoDelimiters`, `UndisclosedPassword.ListedPasswordIsBreached` and
  `UndisclosedPassword.UnlistedPasswordPasses` require the digest to be 40 hexadecimal
  characters. The model treats SHA-1 only as a function, so that property has
  to be assumed.
- PHP notices and warnings are treated as not interrupting execution. An
  example is the missing second field of a line without ':', where
  `(int) null` is 0. Under an error handler that turns them into exceptions,
  they would end in UNKNOWN_ERROR.
- `PhpStrings.IntCast` reads an optional sign and the leading digits. It does
  not model leading whitespace, exponent notation or saturation at PHP's
  integer width.
- `PhpStrings.SubstrFrom` and `PhpStrings.Substr` return "" for a start past
  the end. Under PHP 7, which this code needs (the ISBN validators use the
  `$value{$i}` offset syntax that PHP 8 removed), `substr` returns false
  there. Only 40-character hashes reach them, so that case does not arise.
- `PhpStrings.ToUpper` upper-cases ASCII letters only, as under the C locale
  and from PHP 8.2 on. Under PHP 7 `strtoupper` follows LC_CTYPE. Only hex
  digests reach it.
- src/GPSPoint.php and src/ValidatorPluginManager.php are not part of this
  model. GPSPoint relies on floating point and regular expressions, and the
  plugin manager is framework registration glue. The library's other
  validators are not part of this model.
