/** Request heads: finding the end, reading the lines, choosing the body framing. */
module RequestHead {
  import opened Wrappers
  import opened Text
  import opened HeaderFields

  const HEADER_LIMIT: nat := 64 * 1024
  const LINE_LIMIT: nat := 8 * 1024

  // ---------------------------------------------------------------- message vocabulary

  datatype Method = GET | HEAD | POST | PUT | DELETE | CONNECT | OPTIONS | TRACE | PATCH | Extension(token: string)

  function MethodText(m: Method): string {
    match m
    case GET => "GET" case HEAD => "HEAD" case POST => "POST" case PUT => "PUT" case DELETE => "DELETE"
    case CONNECT => "CONNECT" case OPTIONS => "OPTIONS" case TRACE => "TRACE" case PATCH => "PATCH"
    case Extension(token) => token
  }

  function ParseMethod(s: string): Option<Method> {
    if s == "GET" then Some(GET)
    else if s == "HEAD" then Some(HEAD)
    else if s == "POST" then Some(POST)
    else if s == "PUT" then Some(PUT)
    else if s == "DELETE" then Some(DELETE)
    else if s == "CONNECT" then Some(CONNECT)
    else if s == "OPTIONS" then Some(OPTIONS)
    else if s == "TRACE" then Some(TRACE)
    else if s == "PATCH" then Some(PATCH)
    else if IsToken(s) then Some(Extension(s))
    else None
  }

  datatype Version = Http10 | Http11 | Other(major: nat, minor: nat)

  function VersionText(v: Version): string {
    match v
    case Http10 => "HTTP/1.0"
    case Http11 => "HTTP/1.1"
    case Other(major, minor) => "HTTP/" + ToDecimal(major) + "." + ToDecimal(minor)
  }

  function ParseVersion(s: string): Option<Version> {
    if |s| < 5 || s[..5] != "HTTP/" then None
    else
      var parts := Split(s[5..], ".");
      if |parts| != 2 then None
      else match (ParseUnsigned(parts[0], 10, 256), ParseUnsigned(parts[1], 10, 256))
        case (Some(a), Some(b)) =>
          Some(if a == 1 && b == 0 then Http10 else if a == 1 && b == 1 then Http11 else Other(a, b))
        case _ => None
  }

  datatype Target = Origin(path: string) | Absolute(uri: string) | Authority(authority: string) | Asterisk

  function TargetText(t: Target): string {
    match t
    case Origin(s) => s
    case Absolute(s) => s
    case Authority(s) => s
    case Asterisk => "*"
  }

  predicate AllDigits(s: string) {
    s != "" && forall c :: c in s ==> IsDigit(c)
  }

  /** `host:port` with a numeric port, or a bracketed address with one. */
  predicate IsAuthorityForm(s: string) {
    if s == "" then false
    else if s[0] == '[' then
      match Find(s, "]")
      case None => false
      case Some(e) => var tail := s[e + 1..]; tail != "" && tail[0] == ':' && AllDigits(tail[1..])
    else
      match Find(s, ":")
      case None => false
      case Some(k) => k > 0 && AllDigits(s[k + 1..])
  }

  predicate IsUriScheme(s: string) {
    s != "" && IsAlpha(s[0]) && forall c :: c in s[1..] ==> IsAlpha(c) || IsDigit(c) || c in "+.-"
  }

  predicate IsValidHost(s: string) {
    if s == "" || ' ' in s || '\t' in s then false
    else if s[0] == '[' then
      match Find(s, "]")
      case None => false
      case Some(e) =>
        var (address, tail) := (s[1..e], s[e + 1..]);
        && address != ""
        && (forall c :: c in address ==> c == ':' || (DigitValue(c).Some?))
        && (tail == "" || (tail[0] == ':' && AllDigits(tail[1..])))
    else
      var (name, port) := match Find(s, ":")
                          case None => (s, None)
                          case Some(k) => (s[..k], Some(s[k + 1..]));
      && name != ""
      && (forall c :: c in name ==> IsAlpha(c) || IsDigit(c) || c == '-' || c == '.')
      && (port.Some? ==> AllDigits(port.value))
  }

  datatype ParseError =
    | Incomplete | RequestLineTooLong | InvalidRequestLine | InvalidMethod | InvalidVersion | InvalidRequestTarget
    | HeaderTooLarge | HeaderLineTooLong | ObsoleteLineFolding | InvalidHeaderName | InvalidHeaderValue
    | InvalidHost | MultipleHostValues | MissingHost
    | InvalidContentLength | ConflictingContentLength
    | InvalidTransferEncoding | ConflictingLengthAndTransferEncoding | UnsupportedTransferEncoding
    | InvalidHeaderEncoding

  // ---------------------------------------------------------------- request line

  function ParseTarget(m: Method, s: string): Result<Target, ParseError> {
    if s == "*" then
      if m.OPTIONS? then Ok(Asterisk) else Err(InvalidRequestTarget)
    else if s != "" && s[0] == '/' then Ok(Origin(s))
    else if m.CONNECT? then
      if IsAuthorityForm(s) then Ok(Authority(s)) else Err(InvalidRequestTarget)
    else match Find(s, "://")
      case Some(k) => if IsUriScheme(s[..k]) then Ok(Absolute(s)) else Err(InvalidRequestTarget)
      case None => Err(InvalidRequestTarget)
  }

  datatype RequestLine = RequestLine(verb: Method, target: Target, version: Version)

  datatype Pieces = Pieces(verb: string, target: string, version: string)

  /** Cuts a line at its first two spaces into three non-empty pieces, the last without a space. */
  function CutRequestLine(line: string): Result<Pieces, ParseError> {
    match Find(line, " ")
    case None => Err(InvalidRequestLine)
    case Some(a) =>
      var rest := line[a + 1..];
      if a == 0 then Err(InvalidMethod)
      else match Find(rest, " ")
        case None => Err(InvalidRequestLine)
        case Some(b) =>
          var version := rest[b + 1..];
          if b == 0 then Err(InvalidRequestTarget)
          else if version == "" || ' ' in version then Err(InvalidVersion)
          else Ok(Pieces(line[..a], rest[..b], version))
  }

  function ParsePieces(p: Pieces): Result<RequestLine, ParseError> {
    match ParseMethod(p.verb)
    case None => Err(InvalidMethod)
    case Some(m) =>
      match ParseTarget(m, p.target)
      case Err(e) => Err(e)
      case Ok(target) =>
        match ParseVersion(p.version)
        case Some(Http10) => Ok(RequestLine(m, target, Http10))
        case Some(Http11) => Ok(RequestLine(m, target, Http11))
        case _ => Err(InvalidVersion)
  }

  function ParseRequestLine(line: string): Result<RequestLine, ParseError> {
    match CutRequestLine(line)
    case Err(e) => Err(e)
    case Ok(p) => ParsePieces(p)
  }

  // ---------------------------------------------------------------- header lines

  datatype Pair = Pair(name: string, value: string)

  predicate InvalidValueByte(c: char) {
    c as int <= 8 || 10 <= c as int <= 31 || c as int == 127
  }

  predicate CleanValue(s: string) {
    forall c :: c in s ==> !InvalidValueByte(c)
  }

  /** A field line: a token, a colon, and a value without control bytes once its ends are trimmed. */
  function ParseField(line: string): (r: Result<Pair, ParseError>) {
    match Find(line, ":")
    case None => Err(InvalidHeaderName)
    case Some(k) =>
      if !IsToken(line[..k]) then Err(InvalidHeaderName)
      else
        var value := TrimOws(line[k + 1..]);
        if !CleanValue(value) then Err(InvalidHeaderValue)
        else Ok(Pair(Lower(line[..k]), value))
  }

  /** A field line of a request head, with the limits that apply there. The source tests the trimmed
      value against the same limit once more, which cannot fire: a value is shorter than its line. */
  function HeadField(line: string): Result<Pair, ParseError> {
    if |line| > LINE_LIMIT then Err(HeaderLineTooLong)
    else if line != "" && IsOws(line[0]) then Err(ObsoleteLineFolding)
    else ParseField(line)
  }

  function ParseContentLength(value: string): Result<nat, ParseError> {
    match ParseUnsigned(value, 10, U64_LIMIT)
    case None => Err(InvalidContentLength)
    case Some(n) => Ok(n)
  }

  /** The lower-cased codings of a comma-separated list, all of them tokens. */
  function CodingsFrom(parts: seq<string>): Result<seq<string>, ParseError> {
    if parts == [] then Ok([])
    else
      var token := Trim(parts[0]);
      if !IsToken(token) then Err(InvalidTransferEncoding)
      else match CodingsFrom(parts[1..])
        case Err(e) => Err(e)
        case Ok(rest) => Ok([Lower(token)] + rest)
  }

  function Codings(value: string): Result<seq<string>, ParseError> {
    CodingsFrom(Split(value, ","))
  }

  function Prefixed(codings: seq<string>, r: Result<seq<string>, ParseError>): Result<seq<string>, ParseError> {
    match r
    case Err(e) => Err(e)
    case Ok(rest) => Ok(codings + rest)
  }

  method ParseTransferEncoding(value: string) returns (r: Result<seq<string>, ParseError>)
    ensures r == Codings(value)
  {
    var parts := Split(value, ",");
    var codings: seq<string> := [];
    var i := 0;
    assert parts[0..] == parts;
    ghost var all := CodingsFrom(parts);
    assert all.Ok? ==> [] + all.value == all.value;
    while i < |parts|
      invariant 0 <= i <= |parts|
      invariant Codings(value) == Prefixed(codings, CodingsFrom(parts[i..]))
    {
      assert parts[i..][1..] == parts[i + 1..];
      var token := Trim(parts[i]);
      if !IsToken(token) {
        return Err(InvalidTransferEncoding);
      }
      ghost var later := CodingsFrom(parts[i + 1..]);
      assert later.Ok? ==> codings + ([Lower(token)] + later.value) == codings + [Lower(token)] + later.value;
      codings := codings + [Lower(token)];
      i := i + 1;
    }
    assert codings + [] == codings;
    return Ok(codings);
  }

  // ---------------------------------------------------------------- framing decision

  datatype BodyMode = NoBody | Fixed(length: nat) | Chunked

  /** Positions of the `chunked` coding. */
  function ChunkedPositions(codings: seq<string>): (ps: seq<nat>)
    ensures forall i :: i in ps <==> 0 <= i < |codings| && EqIgnoreCase(codings[i], "chunked")
    ensures |ps| > 0 ==> 0 <= ps[|ps| - 1] < |codings|
    ensures forall i, j :: 0 <= i < j < |ps| ==> ps[i] < ps[j]
  {
    if codings == [] then []
    else
      var n := |codings| - 1;
      ChunkedPositions(codings[..n]) + (if EqIgnoreCase(codings[n], "chunked") then [n] else [])
  }

  function DetermineBodyMode(length: Option<nat>, codings: seq<string>): Result<BodyMode, ParseError> {
    if codings != [] then
      var ps := ChunkedPositions(codings);
      if ps == [] then Err(UnsupportedTransferEncoding)
      else if |ps| > 1 || ps[|ps| - 1] != |codings| - 1 then Err(InvalidTransferEncoding)
      else if length.Some? then Err(ConflictingLengthAndTransferEncoding)
      else Ok(Chunked)
    else if length.Some? then Ok(Fixed(length.value))
    else Ok(NoBody)
  }

  /** `chunked` is the last coding and occurs nowhere else. */
  predicate ChunkedOnlyLast(codings: seq<string>) {
    codings != [] && forall i :: 0 <= i < |codings| ==> (EqIgnoreCase(codings[i], "chunked") <==> i == |codings| - 1)
  }

  lemma OnlyLastPosition(codings: seq<string>)
    requires codings != []
    ensures ChunkedPositions(codings) == [|codings| - 1] <==> ChunkedOnlyLast(codings)
  {
    hide EqIgnoreCase, ChunkedPositions;
    var ps, n := ChunkedPositions(codings), |codings| - 1;
    if ps == [n] {
      assert forall i :: i in ps <==> i == n;
    } else if |ps| == 0 {
      assert n !in ps;
    } else if |ps| == 1 {
      assert ps[0] in ps;
    } else {
      assert ps[0] in ps && ps[1] in ps;
    }
  }

  /** The framing mode is decided by the lengths and codings alone, one mode for each case. */
  lemma BodyModeMeaning(length: Option<nat>, codings: seq<string>)
    ensures DetermineBodyMode(length, codings) == Ok(Chunked) <==> ChunkedOnlyLast(codings) && length.None?
    ensures forall n: nat :: DetermineBodyMode(length, codings) == Ok(Fixed(n)) <==> codings == [] && length == Some(n)
    ensures DetermineBodyMode(length, codings) == Ok(NoBody) <==> codings == [] && length.None?
  {
    if codings != [] {
      OnlyLastPosition(codings);
    }
  }

  // ---------------------------------------------------------------- the head as a fold over its lines

  datatype Reading = Reading(headers: FieldList, host: Option<string>, length: Option<nat>, codings: seq<string>)

  const START := Reading([], None, None, [])

  /** What one field contributes to host, length and codings. */
  function Note(acc: Reading, f: Pair): Result<Reading, ParseError> {
    var acc' := acc.(headers := Add(acc.headers, f.name, f.value));
    if f.name == HOST then
      if acc.host.Some? then Err(MultipleHostValues)
      else if !IsValidHost(f.value) then Err(InvalidHost)
      else Ok(acc'.(host := Some(f.value)))
    else if f.name == CONTENT_LENGTH then
      match ParseContentLength(f.value)
      case Err(e) => Err(e)
      case Ok(n) =>
        if acc.length.Some? && acc.length.value != n then Err(ConflictingContentLength)
        else Ok(acc'.(length := Some(n)))
    else if f.name == TRANSFER_ENCODING then
      match Codings(f.value)
      case Err(e) => Err(e)
      case Ok(cs) => Ok(acc'.(codings := acc.codings + cs))
    else Ok(acc')
  }

  function ReadLine(acc: Reading, line: string): Result<Reading, ParseError> {
    match HeadField(line)
    case Err(e) => Err(e)
    case Ok(f) => Note(acc, f)
  }

  /** Reads lines up to the first empty one. */
  function ReadLines(acc: Reading, lines: seq<string>): Result<Reading, ParseError>
    decreases |lines|
  {
    if lines == [] || lines[0] == "" then Ok(acc)
    else match ReadLine(acc, lines[0])
      case Err(e) => Err(e)
      case Ok(acc') => ReadLines(acc', lines[1..])
  }

  datatype ParsedHead = ParsedHead(line: RequestLine, headers: FieldList, mode: BodyMode, consumed: nat)

  function HeadEnd(s: string): (r: Option<nat>)
    ensures r.Some? ==> 4 <= r.value <= |s|
  {
    match Find(s, CRLFCRLF)
    case None => None
    case Some(k) => Some(k + 4)
  }

  predicate NeedsMoreHead(s: string) {
    HeadEnd(s).None?
  }

  predicate IncompleteHeadExceedsLimit(s: string) {
    HeadEnd(s).None? && |s| > HEADER_LIMIT
  }

  /** The verdict on everything after the request line. */
  function FinishHead(line: RequestLine, r: Result<Reading, ParseError>, consumed: nat): Result<ParsedHead, ParseError> {
    match r
    case Err(e) => Err(e)
    case Ok(acc) =>
      if acc.host.None? then Err(MissingHost)
      else match DetermineBodyMode(acc.length, acc.codings)
        case Err(e) => Err(e)
        case Ok(mode) => Ok(ParsedHead(line, acc.headers, mode, consumed))
  }

  /** The value `ParseRequestHead` computes. */
  function ParseHead(s: string): (r: Result<ParsedHead, ParseError>)
    ensures r.Ok? ==> HeadEnd(s) == Some(r.value.consumed) && r.value.consumed <= HEADER_LIMIT
  {
    match HeadEnd(s)
    case None => Err(Incomplete)
    case Some(end) =>
      if end > HEADER_LIMIT then Err(HeaderTooLarge)
      else if !Utf8(s[..end]) then Err(InvalidHeaderEncoding)
      else
        var lines := Split(s[..end], CRLF);
        if |lines[0]| > LINE_LIMIT then Err(RequestLineTooLong)
        else match ParseRequestLine(lines[0])
          case Err(e) => Err(e)
          case Ok(line) => FinishHead(line, ReadLines(START, lines[1..]), end)
  }

  /** The loop over the header lines. */
  method ReadHeaderLines(lines: seq<string>) returns (r: Result<Reading, ParseError>, headers: Headers)
    ensures r == ReadLines(START, lines)
    ensures headers.Valid() && fresh(headers) && (r.Ok? ==> r.value.headers == headers.Model())
  {
    headers := new Headers();
    var host: Option<string> := None;
    var length: Option<nat> := None;
    var codings: seq<string> := [];
    var i := 0;
    assert lines[0..] == lines;
    while i < |lines| && lines[i] != ""
      invariant 0 <= i <= |lines|
      invariant headers.Valid() && fresh(headers)
      invariant ReadLines(START, lines) == ReadLines(Reading(headers.Model(), host, length, codings), lines[i..])
    {
      ghost var acc := Reading(headers.Model(), host, length, codings);
      assert lines[i..][1..] == lines[i + 1..];
      var field := HeadField(lines[i]);
      if field.Err? { return Err(field.error), headers; }
      var Pair(name, value) := field.value;
      FieldNameIsLower(lines[i]);
      if name == HOST {
        if host.Some? { return Err(MultipleHostValues), headers; }
        if !IsValidHost(value) { return Err(InvalidHost), headers; }
        host := Some(value);
      } else if name == CONTENT_LENGTH {
        var n := ParseContentLength(value);
        if n.Err? { return Err(n.error), headers; }
        if length.Some? {
          if length.value != n.value { return Err(ConflictingContentLength), headers; }
        } else {
          length := Some(n.value);
        }
      } else if name == TRANSFER_ENCODING {
        var cs := ParseTransferEncoding(value);
        if cs.Err? { return Err(cs.error), headers; }
        codings := codings + cs.value;
      }
      headers.Append(name, value);
      assert Note(acc, field.value) == Ok(Reading(headers.Model(), host, length, codings));
      i := i + 1;
    }
    return Ok(Reading(headers.Iter(), host, length, codings)), headers;
  }

  /** Parse a request head from the buffer, line by line. */
  method ParseRequestHead(buffer: string) returns (r: Result<ParsedHead, ParseError>)
    ensures r == ParseHead(buffer)
  {
    var end := HeadEnd(buffer);
    if end.None? { return Err(Incomplete); }
    if end.value > HEADER_LIMIT { return Err(HeaderTooLarge); }
    if !Utf8(buffer[..end.value]) { return Err(InvalidHeaderEncoding); }
    var lines := Split(buffer[..end.value], CRLF);
    if |lines[0]| > LINE_LIMIT { return Err(RequestLineTooLong); }
    var requestLine := ParseRequestLine(lines[0]);
    if requestLine.Err? { return Err(requestLine.error); }

    var reading, headers := ReadHeaderLines(lines[1..]);
    if reading.Err? { return Err(reading.error); }
    var Reading(_, host, length, codings) := reading.value;
    if host.None? { return Err(MissingHost); }
    var mode := DetermineBodyMode(length, codings);
    if mode.Err? { return Err(mode.error); }
    return Ok(ParsedHead(requestLine.value, headers.Iter(), mode.value, end.value));
  }

  lemma FieldNameIsLower(line: string)
    ensures ParseField(line).Ok? ==> Lower(ParseField(line).value.name) == ParseField(line).value.name
  {
    if k :| Find(line, ":") == Some(k) {
      LowerIdempotent(line[..k]);
    }
  }
}
