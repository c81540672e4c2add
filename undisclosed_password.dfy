/**
 * The UndisclosedPassword validator: a k-anonymity lookup of a password's
 * SHA-1 hash in the "Have I Been Pwned" range service.  SHA-1 and the HTTP
 * client are supplied as functions; only the decision logic is modelled.
 */
module UndisclosedPassword {
  import opened Wrappers
  import opened PhpStrings

  const RangeLength := 5
  const RangeBase := 0
  const CountBase := 0
  const Sha1Length := 40
  const LineDelimiter := "\r\n"
  const FieldDelimiter := ":"

  /** The failure keys `isValid` can record. */
  datatype ErrorKey = PasswordBreached | WrongInput | ConnectionFailure | UnknownError {
    /** The key string of the PHP constant. */
    function Name(): string {
      match this
      case PasswordBreached => "passwordBreached"
      case WrongInput => "wrongInput"
      case ConnectionFailure => "connFail"
      case UnknownError => "unknownError"
    }
  }

  /** Distinct keys have distinct key strings, so the recorded keys are the key set of the messages. */
  lemma NamesIdentifyKeys()
    ensures forall a: ErrorKey, b: ErrorKey :: a.Name() == b.Name() ==> a == b
  {
  }

  /** A value handed to `isValid`: a string, or anything else. */
  datatype Value = Str(s: string) | NotString

  /**
   * What can be thrown on the way to `isValid`'s catch clauses: the
   * validator's own InvalidArgumentException and RuntimeException, any other
   * `\Exception`, and an `\Error` (a TypeError, say), which no clause catches.
   */
  datatype Thrown = InvalidArgument | Runtime | OtherException | Error

  /** What the HTTP client's `sendRequest` does: answers with a body, or throws. */
  datatype Transport =
    | Response(body: string)
    | ClientFailure          // a ClientExceptionInterface
    | Raises(thrown: Thrown) // anything else, which `retrieveHashList` lets through

  // ---------------------------------------------------------------------------
  // The pure steps

  /** `hashPassword`, given the SHA-1 digest: only a 40-character digest is accepted, and it is upper-cased. */
  function HashPassword(digest: string): (r: Result<string, Thrown>)
    ensures r.Failure? <==> |digest| != Sha1Length
    ensures r.Failure? ==> r.error == InvalidArgument
    ensures r.Success? ==> r.value == ToUpper(digest) && |r.value| == Sha1Length
  {
    if |digest| != Sha1Length then Failure(InvalidArgument) else Success(ToUpper(digest))
  }

  /** `getRangeHash`: the first five characters of the hash, the only part sent to the service. */
  function RangeHash(hash: string): (range: string)
    ensures |hash| >= RangeLength ==> |range| == RangeLength && hash == range + SubstrFrom(hash, RangeLength)
  {
    Substr(hash, RangeBase, RangeLength)
  }

  /** The path of the GET request `retrieveHashList` sends. */
  function RequestPath(range: string): (path: string)
    ensures |path| == 7 + |range| && path[..7] == "/range/" && path[7..] == range
  {
    "/range/" + range
  }

  /**
   * The answer of `retrieveHashList`, given what `sendRequest` did: a client
   * failure becomes a RuntimeException, anything else thrown passes through.
   */
  function HashListFrom(t: Transport): (r: Result<string, Thrown>)
    ensures r.Success? <==> t.Response?
    ensures r.Success? ==> r.value == t.body
    ensures t == ClientFailure ==> r == Failure(Runtime)
    ensures t.Raises? ==> r == Failure(t.thrown)
  {
    match t
    case Response(body) => Success(body)
    case ClientFailure => Failure(Runtime)
    case Raises(thrown) => Failure(thrown)
  }

  /** The part of the hash the service lists: everything after the range prefix. */
  function HashSuffix(hash: string): (suffix: string)
    ensures |hash| >= RangeLength ==> RangeHash(hash) + suffix == hash
    ensures |hash| <= RangeLength ==> suffix == ""
  {
    SubstrFrom(hash, RangeLength)
  }

  /** The lines of a response body. */
  function Lines(body: string): (lines: seq<string>)
    ensures |lines| >= 1 && Implode(lines, LineDelimiter) == body
  {
    Explode(body, LineDelimiter)
  }

  /** `list($hash, $count) = explode(':', $line)`: the hash is the text before the first ':'. */
  function LineHash(line: string): (h: string)
    ensures h <= line
    ensures forall i :: 0 <= i < |h| ==> h[i] != ':'
    ensures |h| < |line| ==> line[|h|] == ':'
  {
    var fields := Explode(line, FieldDelimiter);
    ImplodeStartsWithFirst(fields, FieldDelimiter);
    ExplodePartsFree(line, FieldDelimiter);
    WithoutCharacter(fields[0], ':');
    fields[0]
  }

  /**
   * The `(int)` of the count field: the text between the first ':' and the
   * next one; 0 when the line has no ':', as `(int) null` is.
   */
  function LineCount(line: string): (c: int)
    ensures (forall i :: 0 <= i < |line| ==> line[i] != ':') ==> c == 0
    ensures |LineHash(line)| < |line| ==> c == IntCast(LineHash(line[|LineHash(line)| + 1..]))
  {
    CountField(line);
    var fields := Explode(line, FieldDelimiter);
    if |fields| >= 2 then IntCast(fields[1]) else 0
  }

  /** A line has a second field exactly when a ':' follows its hash, and that field is the text up to the next ':'. */
  lemma CountField(line: string)
    ensures |LineHash(line)| < |line| ==>
              |Explode(line, FieldDelimiter)| >= 2 &&
              Explode(line, FieldDelimiter)[1] == LineHash(line[|LineHash(line)| + 1..])
    ensures |LineHash(line)| == |line| ==> |Explode(line, FieldDelimiter)| == 1
  {
    var h := LineHash(line);
    if |h| < |line| {
      assert line == h + FieldDelimiter + line[|h| + 1..];
      ExplodeField(h, FieldDelimiter, line[|h| + 1..]);
    } else {
      assert line == h;
      ExplodeWithoutDelimiter(line, FieldDelimiter);
    }
  }

  /** The line lists the hash: its text before ':' equals the hash's suffix, case-sensitively. */
  predicate LineMatches(line: string, hash: string) {
    LineHash(line) == HashSuffix(hash)
  }

  /** Some line of the sequence lists the hash. */
  predicate SomeLineMatches(lines: seq<string>, hash: string) {
    exists i :: 0 <= i < |lines| && LineMatches(lines[i], hash)
  }

  /** Some line of the body lists the hash. */
  predicate InResponse(hash: string, body: string) {
    SomeLineMatches(Lines(body), hash)
  }

  /** The count on the last line that lists the hash, or the base 0 when none does. */
  function LastMatchCount(lines: seq<string>, hash: string): int {
    if lines == [] then CountBase
    else if LineMatches(lines[|lines| - 1], hash) then LineCount(lines[|lines| - 1])
    else LastMatchCount(lines[..|lines| - 1], hash)
  }

  /** When line `j` is the last to list the hash, its count is the one recorded. */
  lemma {:induction false} LastMatchCountIsLastMatch(lines: seq<string>, hash: string, j: nat)
    requires j < |lines| && LineMatches(lines[j], hash)
    requires forall i :: j < i < |lines| ==> !LineMatches(lines[i], hash)
    ensures LastMatchCount(lines, hash) == LineCount(lines[j])
  {
    if j < |lines| - 1 {
      LastMatchCountIsLastMatch(lines[..|lines| - 1], hash, j);
    }
  }

  /**
   * One step of the scan over the lines: the first `i + 1` lines hold a
   * match iff the first `i` do or line `i` matches, and their count is line
   * `i`'s when it matches and the earlier one otherwise.
   */
  lemma ScanStep(lines: seq<string>, hash: string, i: nat)
    requires i < |lines|
    ensures SomeLineMatches(lines[..i + 1], hash) == (SomeLineMatches(lines[..i], hash) || LineMatches(lines[i], hash))
    ensures LastMatchCount(lines[..i + 1], hash) ==
              if LineMatches(lines[i], hash) then LineCount(lines[i]) else LastMatchCount(lines[..i], hash)
  {
    assert lines[..i + 1][..i] == lines[..i];
    SomeLineMatchesStep(lines[..i + 1], hash);
  }

  /** The lines hold a match iff all but the last do or the last one matches. */
  lemma SomeLineMatchesStep(lines: seq<string>, hash: string)
    requires lines != []
    ensures SomeLineMatches(lines, hash) ==
              (SomeLineMatches(lines[..|lines| - 1], hash) || LineMatches(lines[|lines| - 1], hash))
  {
    ExistsStep(lines, lines[..|lines| - 1], line => LineMatches(line, hash));
  }

  /** Some element satisfies `p` iff one of all but the last does, or the last does. */
  lemma ExistsStep<T>(s: seq<T>, front: seq<T>, p: T -> bool)
    requires s != [] && front == s[..|s| - 1]
    ensures (exists j :: 0 <= j < |s| && p(s[j])) ==
            ((exists j :: 0 <= j < |front| && p(front[j])) || p(s[|s| - 1]))
  {
    if exists j :: 0 <= j < |front| && p(front[j]) {
      var j :| 0 <= j < |front| && p(front[j]);
      assert s[j] == front[j];
    }
    if (exists j :: 0 <= j < |s| && p(s[j])) && !p(s[|s| - 1]) {
      var j :| 0 <= j < |s| && p(s[j]);
      assert front[j] == s[j];
    }
  }

  /** No line lists the hash: the count stays at its base. */
  lemma {:induction false} LastMatchCountWithoutMatch(lines: seq<string>, hash: string)
    requires forall i :: 0 <= i < |lines| ==> !LineMatches(lines[i], hash)
    ensures LastMatchCount(lines, hash) == CountBase
  {
    if lines != [] {
      LastMatchCountWithoutMatch(lines[..|lines| - 1], hash);
    }
  }

  /** What the client does with the range request for a password whose digest has the right length. */
  function Sent(sha1: string -> string, client: string -> Transport, password: string): Transport
    requires |sha1(password)| == Sha1Length
  {
    client(RequestPath(RangeHash(ToUpper(sha1(password)))))
  }

  /**
   * `isPwnedPassword` on values: hash, take the range, ask the service, and
   * look for the suffix; the first exception raised is the result.
   */
  function Lookup(sha1: string -> string, client: string -> Transport, password: string): (r: Result<bool, Thrown>)
    ensures |sha1(password)| != Sha1Length ==> r == Failure(InvalidArgument)
    ensures r.Success? <==> |sha1(password)| == Sha1Length && Sent(sha1, client, password).Response?
    ensures r.Success? ==> r.value == InResponse(ToUpper(sha1(password)), Sent(sha1, client, password).body)
    ensures |sha1(password)| == Sha1Length && Sent(sha1, client, password) == ClientFailure ==> r == Failure(Runtime)
    ensures |sha1(password)| == Sha1Length && Sent(sha1, client, password).Raises? ==>
              r == Failure(Sent(sha1, client, password).thrown)
  {
    var hash :- HashPassword(sha1(password));
    var body :- HashListFrom(client(RequestPath(RangeHash(hash))));
    Success(InResponse(hash, body))
  }

  /** What `isValid` does: returns true, records one key and returns false, or lets an `\Error` escape. */
  datatype Verdict = Passes | Fails(key: ErrorKey) | Propagates

  /** The decision `isValid` makes: its catch clauses map each exception to a key, in order. */
  function VerdictFor(sha1: string -> string, client: string -> Transport, value: Value): (v: Verdict)
    ensures value.NotString? ==> v == Fails(WrongInput)
    ensures value.Str? ==> (v == Passes <==> Lookup(sha1, client, value.s) == Success(false))
    ensures value.Str? ==> (v == Fails(PasswordBreached) <==> Lookup(sha1, client, value.s) == Success(true))
    ensures v.Propagates? <==> value.Str? && Lookup(sha1, client, value.s) == Failure(Error)
  {
    match value
    case NotString => Fails(WrongInput)
    case Str(password) =>
      match Lookup(sha1, client, password)
      case Failure(InvalidArgument) => Fails(WrongInput)
      case Failure(Runtime) => Fails(ConnectionFailure)
      case Failure(OtherException) => Fails(UnknownError)
      case Failure(Error) => Propagates
      case Success(pwned) => if pwned then Fails(PasswordBreached) else Passes
  }

  /** The error keys one verdict records: exactly one for a failure, none otherwise. */
  function Recorded(v: Verdict): (keys: set<ErrorKey>)
    ensures |keys| == if v.Fails? then 1 else 0
  {
    if v.Fails? then {v.key} else {}
  }

  /** The requests `isValid` sends: one for the range of a string whose digest has the right length, else none. */
  function RequestsFor(sha1: string -> string, value: Value): (paths: seq<string>)
    ensures |paths| <= 1
    ensures value.NotString? ==> paths == []
  {
    if value.Str? && |sha1(value.s)| == Sha1Length then [RequestPath(RangeHash(ToUpper(sha1(value.s))))]
    else []
  }

  /** The count `isValid` leaves behind: the matched line's count when breached, else the old one. */
  function CountAfter(sha1: string -> string, client: string -> Transport, value: Value, count: int): int {
    if value.Str? && Lookup(sha1, client, value.s) == Success(true) then
      LastMatchCount(Lines(Sent(sha1, client, value.s).body), ToUpper(sha1(value.s)))
    else count
  }

  // ---------------------------------------------------------------------------
  // Properties of the decision

  /** A 40-character digest of hexadecimal digits, as SHA-1 produces. */
  predicate IsHexDigest(d: string) {
    |d| == Sha1Length && forall i :: 0 <= i < |d| ==> IsDigit(d[i]) || 'a' <= d[i] <= 'f' || 'A' <= d[i] <= 'F'
  }

  /**
   * The request leaks nothing but five characters: the path is "/range/"
   * followed by the first five characters of the upper-cased hash.
   */
  lemma RequestCarriesOnlyRange(digest: string)
    requires |digest| == Sha1Length
    ensures var hash := ToUpper(digest);
            var path := RequestPath(RangeHash(hash));
            |path| == 7 + RangeLength && path[7..] == hash[..RangeLength]
  {
  }

  /** A digest whose length is not 40 is reported as wrong input, before any request. */
  lemma WrongLengthIsWrongInput(sha1: string -> string, client: string -> Transport, password: string)
    requires |sha1(password)| != Sha1Length
    ensures VerdictFor(sha1, client, Str(password)) == Fails(WrongInput)
  {
  }

  /**
   * How each way the client can throw is reported: a client exception as a
   * connection failure, the validator's own exceptions by their catch
   * clauses, any other exception as an unknown error; an `\Error` escapes.
   */
  lemma TransportFailuresAreReported(sha1: string -> string, client: string -> Transport, password: string)
    requires |sha1(password)| == Sha1Length
    ensures var t := Sent(sha1, client, password);
            var v := VerdictFor(sha1, client, Str(password));
            (t == ClientFailure ==> v == Fails(ConnectionFailure)) &&
            (t == Raises(InvalidArgument) ==> v == Fails(WrongInput)) &&
            (t == Raises(Runtime) ==> v == Fails(ConnectionFailure)) &&
            (t == Raises(OtherException) ==> v == Fails(UnknownError)) &&
            (t == Raises(Error) ==> v == Propagates)
  {
  }

  /** The upper-cased suffix of a hex digest holds neither ':' nor a line break. */
  lemma HexSuffixHasNoDelimiters(digest: string)
    requires IsHexDigest(digest)
    ensures var suffix := HashSuffix(ToUpper(digest));
            forall i :: 0 <= i < |suffix| ==> suffix[i] != ':' && suffix[i] != '\r'
  {
  }

  /** A `SUFFIX:COUNT` line whose suffix holds no ':' splits into that suffix and that count. */
  lemma {:induction false} ParseLine(suffix: string, n: nat)
    requires forall i :: 0 <= i < |suffix| ==> suffix[i] != ':'
    ensures LineHash(suffix + FieldDelimiter + Decimal(n)) == suffix
    ensures LineCount(suffix + FieldDelimiter + Decimal(n)) == n
  {
    ExplodeField(suffix, FieldDelimiter, Decimal(n));
    ExplodeWithoutDelimiter(Decimal(n), FieldDelimiter);
    IntCastOfDecimal(n);
  }

  /** A one-line body without line breaks is a single line. */
  lemma {:induction false} SingleLine(body: string)
    requires forall i :: 0 <= i < |body| ==> body[i] != '\r'
    ensures Lines(body) == [body]
  {
    ExplodeWithoutDelimiter(body, LineDelimiter);
  }

  /**
   * When the service answers with the password's own suffix and a count,
   * the password is breached and that count is recorded.
   */
  lemma {:induction false} ListedPasswordIsBreached(sha1: string -> string, client: string -> Transport, password: string, n: nat)
    requires IsHexDigest(sha1(password))
    requires Sent(sha1, client, password) == Response(HashSuffix(ToUpper(sha1(password))) + FieldDelimiter + Decimal(n))
    ensures VerdictFor(sha1, client, Str(password)) == Fails(PasswordBreached)
    ensures CountAfter(sha1, client, Str(password), 0) == n
  {
    var hash := ToUpper(sha1(password));
    HexSuffixHasNoDelimiters(sha1(password));
    CountLine(HashSuffix(hash), n);
    var line := HashSuffix(hash) + FieldDelimiter + Decimal(n);
    assert LineMatches(Lines(line)[0], hash);
  }

  /**
   * When the service lists only a different suffix, the password is not
   * breached and `isValid` records nothing.
   */
  lemma {:induction false} UnlistedPasswordPasses(sha1: string -> string, client: string -> Transport, password: string, other: string, n: nat)
    requires IsHexDigest(sha1(password))
    requires forall i :: 0 <= i < |other| ==> other[i] != ':' && other[i] != '\r'
    requires other != HashSuffix(ToUpper(sha1(password)))
    requires Sent(sha1, client, password) == Response(other + FieldDelimiter + Decimal(n))
    ensures VerdictFor(sha1, client, Str(password)) == Passes
  {
    var hash := ToUpper(sha1(password));
    CountLine(other, n);
    UnmatchedSingleLine(hash, other + FieldDelimiter + Decimal(n));
    assert Lookup(sha1, client, password) == Success(false);
  }

  /** A body made of one `SUFFIX:COUNT` line, its suffix free of ':' and '\r', is that one line with that suffix and count. */
  lemma {:induction false} CountLine(suffix: string, n: nat)
    requires forall i :: 0 <= i < |suffix| ==> suffix[i] != ':' && suffix[i] != '\r'
    ensures var line := suffix + FieldDelimiter + Decimal(n);
            Lines(line) == [line] && LineHash(line) == suffix && LineCount(line) == n
  {
    var line := suffix + FieldDelimiter + Decimal(n);
    ParseLine(suffix, n);
    assert forall i :: 0 <= i < |line| ==> line[i] != '\r';
    SingleLine(line);
  }

  /** A body that is one line, and that line does not list the hash: the hash is not in the response. */
  lemma UnmatchedSingleLine(hash: string, body: string)
    requires Lines(body) == [body]
    requires !LineMatches(body, hash)
    ensures !InResponse(hash, body)
  {
  }

  // ---------------------------------------------------------------------------
  // The validator

  class UndisclosedPassword {
    /** SHA-1, as `\sha1` computes it. */
    const sha1: string -> string
    /** The HTTP client: what `sendRequest` does for a request path. */
    const client: string -> Transport
    /** The breach count of the last password found in the service's answer. */
    var count: int
    /** The error keys recorded so far, the key set of the validator's messages. */
    var errors: set<ErrorKey>
    /** The paths of the requests sent to the client so far. */
    var requests: seq<string>

    constructor (sha1: string -> string, client: string -> Transport)
      ensures this.sha1 == sha1 && this.client == client
      ensures count == CountBase && errors == {} && requests == []
    {
      this.sha1 := sha1;
      this.client := client;
      count := CountBase;
      errors := {};
      requests := [];
    }

    /** `retrieveHashList`: sends `GET /range/<range>` and returns the body, or fails. */
    method RetrieveHashList(passwordRange: string) returns (r: Result<string, Thrown>)
      modifies this`requests
      ensures requests == old(requests) + [RequestPath(passwordRange)]
      ensures r == HashListFrom(client(RequestPath(passwordRange)))
    {
      var path := "/range/" + passwordRange;
      requests := requests + [path];
      match client(path)
      case Response(body) =>
        return Success(body);
      case ClientFailure =>
        return Failure(Runtime);
      case Raises(thrown) =>
        return Failure(thrown);
    }

    /**
     * `hashInResponse`: whether some line of the body lists the hash's
     * suffix; when one does, the count of the last such line is stored.
     */
    method HashInResponse(sha1Hash: string, resultStream: string) returns (found: bool)
      modifies this`count
      ensures found == InResponse(sha1Hash, resultStream)
      ensures found ==> count == LastMatchCount(Lines(resultStream), sha1Hash)
      ensures !found ==> count == old(count)
    {
      var data := Explode(resultStream, LineDelimiter);
      var totalCount := CountBase;
      var any := false;
      for i := 0 to |data|
        invariant any == SomeLineMatches(data[..i], sha1Hash)
        invariant totalCount == LastMatchCount(data[..i], sha1Hash)
        invariant count == old(count)
      {
        var fields := Explode(data[i], FieldDelimiter);
        var hash := fields[0];
        var lineCount := if |fields| >= 2 then IntCast(fields[1]) else 0;
        assert hash == LineHash(data[i]) && lineCount == LineCount(data[i]);
        ScanStep(data, sha1Hash, i);
        if hash == SubstrFrom(sha1Hash, RangeLength) {
          totalCount := lineCount;
          any := true;
        }
      }
      assert data[..|data|] == data;
      assert data == Lines(resultStream);
      if !any {
        return false;
      }
      count := totalCount;
      return true;
    }

    /** `isPwnedPassword`: hash, ask for the range, and search the answer; exceptions become a Failure. */
    method IsPwnedPassword(password: string) returns (r: Result<bool, Thrown>)
      modifies this`count, this`requests
      ensures r == Lookup(sha1, client, password)
      ensures count == CountAfter(sha1, client, Str(password), old(count))
      ensures requests == old(requests) + RequestsFor(sha1, Str(password))
    {
      var sha1Hash :- HashPassword(sha1(password));
      var rangeHash := RangeHash(sha1Hash);
      var hashList :- RetrieveHashList(rangeHash);
      var pwned := HashInResponse(sha1Hash, hashList);
      return Success(pwned);
    }

    /**
     * `isValid`: true for an unbreached password; otherwise false with exactly
     * one recorded key; a Failure is an `\Error` thrown by the client, which
     * escapes with nothing recorded.
     */
    method IsValid(value: Value) returns (r: Result<bool, Thrown>)
      modifies this`count, this`errors, this`requests
      ensures r.Failure? <==> VerdictFor(sha1, client, value).Propagates?
      ensures r.Failure? ==> r.error == Error
      ensures r.Success? ==> (r.value <==> VerdictFor(sha1, client, value) == Passes)
      ensures errors == old(errors) + Recorded(VerdictFor(sha1, client, value))
      ensures count == CountAfter(sha1, client, value, old(count))
      ensures requests == old(requests) + RequestsFor(sha1, value)
    {
      if value.NotString? {
        errors := errors + {WrongInput};
        return Success(false);
      }
      var isPwnd := IsPwnedPassword(value.s);
      match isPwnd
      case Failure(InvalidArgument) =>
        errors := errors + {WrongInput};
        return Success(false);
      case Failure(Runtime) =>
        errors := errors + {ConnectionFailure};
        return Success(false);
      case Failure(OtherException) =>
        errors := errors + {UnknownError};
        return Success(false);
      case Failure(Error) =>
        return Failure(Error);
      case Success(pwned) =>
        if pwned {
          errors := errors + {PasswordBreached};
          return Success(false);
        }
        return Success(true);
    }
  }

  /**
   * A fresh validator's `isValid` either returns, false with exactly the one
   * key of the verdict or true with none, or lets an `\Error` from the client
   * escape with no key recorded.  It sends at most one request, whose path
   * carries five characters of the hash.
   */
  method ValidateOnce(sha1: string -> string, client: string -> Transport, value: Value)
    returns (r: Result<bool, Thrown>, errors: set<ErrorKey>, requests: seq<string>)
    ensures r.Failure? <==> VerdictFor(sha1, client, value).Propagates?
    ensures r.Failure? ==> r.error == Error && errors == {}
    ensures errors == Recorded(VerdictFor(sha1, client, value))
    ensures r.Success? ==> (r.value <==> errors == {})
    ensures r == Success(false) ==> |errors| == 1
    ensures value.NotString? ==> r == Success(false) && errors == {WrongInput} && requests == []
    ensures |requests| <= 1
    ensures forall i :: 0 <= i < |requests| ==> |requests[i]| == 7 + RangeLength
  {
    var v := new UndisclosedPassword(sha1, client);
    r := v.IsValid(value);
    errors := v.errors;
    requests := v.requests;
  }
}
