/** A client that reads responses by section 6.3 of RFC 9112, and what it recovers from a server's output. */
module Client {
  import opened Wrappers
  import opened Text
  import opened HeaderFields
  import opened RequestHead
  import opened FieldText
  import opened HeadLaws
  import opened Encode
  import opened EncodeLaws
  import opened ChunkedGrammar

  // ---------------------------------------------------------------- the client

  datatype Message = Message(version: string, status: nat, reason: string, headers: FieldList, body: string, trailers: FieldList)

  datatype StatusParts = StatusParts(version: string, status: nat, reason: string)

  /** A version, a decimal code, and an optional reason, separated by single spaces. Section 4 of RFC 9112
      has the second space even if no reason follows; clients do without it, as here. */
  function ReadStatusLine(line: string): Option<StatusParts> {
    match Find(line, " ")
    case None => None
    case Some(a) =>
      var rest := line[a + 1..];
      var (code, reason) := match Find(rest, " ")
                            case None => (rest, "")
                            case Some(b) => (rest[..b], rest[b + 1..]);
      if !AllDigits(code) then None
      else match DigitsValue(code, 10)
        case None => None
        case Some(n) => Some(StatusParts(line[..a], n, reason))
  }

  /** Field lines in order, or nothing if one is malformed. */
  function ReadFieldLines(acc: FieldList, lines: seq<string>): Option<FieldList>
    decreases |lines|
  {
    if lines == [] then Some(acc)
    else match ReadFieldLine(lines[0])
      case None => None
      case Some(f) => ReadFieldLines(Add(acc, f.name, f.value), lines[1..])
  }

  datatype Content = NoContent | Tunnel | ChunkedContent | Exactly(length: nat) | UntilClose | Unreadable

  /** All transfer codings of a message, or nothing if they are malformed. */
  function ReadCodings(values: seq<string>): Option<seq<string>> {
    var parts := AllPieces(values, ",");
    if forall i :: 0 <= i < |parts| ==> IsToken(TrimOws(parts[i]))
    then Some(seq(|parts|, i requires 0 <= i < |parts| => Lower(TrimOws(parts[i])))) else None
  }

  /** The length that all members of all Content-Length values agree on (rule 5 of section 6.3 of RFC 9112). */
  function StatedLength(values: seq<string>): Option<nat> {
    var parts := AllPieces(values, ",");
    if parts != [] && AllDigits(TrimOws(parts[0])) && (forall p :: p in parts ==> SameLength(p, parts[0]))
    then DigitsValue(TrimOws(parts[0]), 10) else None
  }

  predicate SameLength(p: string, q: string) {
    AllDigits(TrimOws(p)) && DigitsValue(TrimOws(p), 10) == DigitsValue(TrimOws(q), 10)
  }

  /** Section 6.3 of RFC 9112, rules 1 to 8, for a response to a request with method `m`. */
  function ContentOf(m: Method, status: nat, headers: FieldList): Content {
    if m.CONNECT? && 200 <= status <= 299 then Tunnel
    else if RuleOne(m, status) then NoContent
    else if Has(headers, TRANSFER_ENCODING) then
      match ReadCodings(Values(headers, TRANSFER_ENCODING))
      case None => Unreadable
      case Some(codings) =>
        if codings != [] && codings[|codings| - 1] == "chunked" then ChunkedContent else UntilClose
    else if Has(headers, CONTENT_LENGTH) then
      (match StatedLength(Values(headers, CONTENT_LENGTH))
       case Some(n) => Exactly(n)
       case None => Unreadable)
    else UntilClose
  }

  datatype Received = Received(message: Message, rest: string)

  /** One response off the front of the bytes; the method is that of the request it answers. */
  function ReadMessage(m: Method, s: string): (r: Option<Received>)
    ensures r.Some? ==> |r.value.rest| < |s|
  {
    match HeadEnd(s)
    case None => None
    case Some(end) =>
      match (ReadStatusLine(RequestLineOf(s)), ReadFieldLines([], HeaderLines(s)))
      case (Some(p), Some(headers)) => ReadContent(m, p, headers, s[end..])
      case _ => None
  }

  function ReadContent(m: Method, p: StatusParts, headers: FieldList, tail: string): (r: Option<Received>)
    ensures r.Some? ==> |r.value.rest| <= |tail|
  {
    var make := (body: string, trailers: FieldList) => Message(p.version, p.status, p.reason, headers, body, trailers);
    match ContentOf(m, p.status, headers)
    case NoContent => Some(Received(make("", []), tail))
    case Exactly(n) => if |tail| < n then None else Some(Received(make(tail[..n], []), tail[n..]))
    case ChunkedContent =>
      (match ReadChunks(tail)
       case None => None
       case Some(c) => Some(Received(make(c.data, c.trailers), c.rest)))
    case UntilClose => Some(Received(make(tail, []), ""))
    case _ => None
  }

  datatype Conversation = Conversation(messages: seq<Message>, rest: string)

  predicate IsInterim(m: Message) {
    100 <= m.status <= 199
  }

  /** A final response after which the connection is not used any more (section 9.6 of RFC 9112). */
  predicate IsLast(m: Message) {
    !IsInterim(m) && AnyHasToken(Values(m.headers, CONNECTION), "close")
  }

  /** The responses to requests with the given methods, interim ones included, in order, up to one that says
      `close` in any Connection value. */
  function ReadAll(methods: seq<Method>, s: string): Option<Conversation>
    decreases |s|
  {
    if methods == [] then Some(Conversation([], s))
    else match ReadMessage(methods[0], s)
      case None => None
      case Some(r) =>
        if IsLast(r.message) then Some(Conversation([r.message], r.rest))
        else match ReadAll(if IsInterim(r.message) then methods else methods[1..], r.rest)
          case None => None
          case Some(c) => Some(Conversation([r.message] + c.messages, c.rest))
  }

  // ---------------------------------------------------------------- reading back one head

  predicate PlainReason(reason: string) {
    '\r' !in reason && '\n' !in reason
  }

  lemma VersionPlain(v: Version)
    ensures ' ' !in VersionText(v) && '\r' !in VersionText(v)
  {
    match v {
      case Http10 =>
      case Http11 =>
      case Other(a, b) =>
        DigitsAreGraphic(a, 10);
        DigitsAreGraphic(b, 10);
        TokenLacks(ToDecimal(a), ' ');
        TokenLacks(ToDecimal(a), '\r');
        TokenLacks(ToDecimal(b), ' ');
        TokenLacks(ToDecimal(b), '\r');
    }
  }

  lemma CodeAndReason(code: string, reason: string)
    requires ' ' !in code
    ensures var rest := code + (if reason == "" then "" else " " + reason);
            match Find(rest, " ")
            case None => reason == "" && rest == code
            case Some(b) => rest[..b] == code && rest[b + 1..] == reason
  {
    if reason == "" {
      FindNothing(code, " ");
      assert code + "" == code;
    } else {
      Assoc(code, " ", reason);
      FindAfter(code, " ", reason);
      CutBetween(code, " " + reason);
      CutBetween(code + " ", reason);
    }
  }

  lemma CodePlain(status: nat)
    ensures ' ' !in ToDecimal(status) && '\r' !in ToDecimal(status)
    ensures AllDigits(ToDecimal(status)) && DigitsValue(ToDecimal(status), 10) == Some(status)
  {
    hide ToDigits, DigitsValue;
    DigitsAreGraphic(status, 10);
    DigitsRoundTrip(status, 10);
    TokenLacks(ToDecimal(status), ' ');
    TokenLacks(ToDecimal(status), '\r');
  }

  lemma StatusLineRead(v: Version, status: nat, reason: string)
    requires PlainReason(reason)
    ensures ReadStatusLine(StatusLine(v, status, reason)) == Some(StatusParts(VersionText(v), status, reason))
    ensures '\r' !in StatusLine(v, status, reason)
  {
    hide VersionText, ToDecimal, DigitsValue, Find, AllDigits;
    var (version, code) := (VersionText(v), ToDecimal(status));
    var rest := code + (if reason == "" then "" else " " + reason);
    VersionPlain(v);
    CodePlain(status);
    CodeAndReason(code, reason);
    Assoc(version + " ", code, if reason == "" then "" else " " + reason);
    assert StatusLine(v, status, reason) == version + " " + rest;
    FirstWord(version, rest);
  }

  /** The server leaves out the space that section 4 of RFC 9112 requires iff there is no reason. */
  lemma ReasonSpace(v: Version, status: nat, reason: string)
    ensures (exists rest :: StatusLine(v, status, reason) == VersionText(v) + " " + ToDecimal(status) + " " + rest) <==> reason != ""
  {
    hide VersionText, ToDigits;
    var start := VersionText(v) + " " + ToDecimal(status);
    if reason == "" {
      assert start + "" == start;
      forall rest ensures StatusLine(v, status, reason) != start + " " + rest {
        assert |start + " " + rest| > |start|;
      }
    } else {
      Assoc(start, " ", reason);
      assert StatusLine(v, status, reason) == start + " " + reason;
    }
  }

  lemma {:induction false} FieldLinesRead(acc: FieldList, ps: seq<Pair>)
    requires forall i :: 0 <= i < |ps| ==> ReadablePair(ps[i])
    ensures ReadFieldLines(acc, LinesOf(ps)) == Some(CollectFrom(acc, ps))
    decreases |ps|
  {
    if ps != [] {
      FieldLineRead(ps[0]);
      FieldLinesRead(Add(acc, ps[0].name, ps[0].value), ps[1..]);
    }
  }

  /** A printed head ends where it ends, whatever follows, and splits into its lines. */
  lemma PrintedBlock(start: string, headers: FieldList, more: string)
    requires '\r' !in start && Readable(headers)
    ensures var h := start + CRLF + PrintFields(headers);
            && HeadEnd(h + more) == Some(|h|)
            && RequestLineOf(h + more) == start
            && HeaderLines(h + more) == LinesOf(AllPairs(headers))
            && (h + more)[|h|..] == more
  {
    var lines := LinesOf(AllPairs(headers));
    AllPairsReadable(headers);
    PrintedLinesShape(AllPairs(headers));
    PrintLinesCons(start, lines, CRLF);
    BlockIsHead(start, lines, more);
  }

  /** A readable head is read back, and the bytes after it are then read as its content. */
  lemma HeadRead(m: Method, v: Version, status: nat, reason: string, headers: FieldList, tail: string)
    requires PlainReason(reason) && Readable(headers)
    ensures ReadMessage(m, HeadOf(v, status, reason, headers) + tail)
         == ReadContent(m, StatusParts(VersionText(v), status, reason), headers, tail)
  {
    hide ReadContent, ReadStatusLine, VersionText, StatusLine;
    var start := StatusLine(v, status, reason);
    StatusLineRead(v, status, reason);
    PrintedBlock(start, headers, tail);
    AllPairsReadable(headers);
    FieldLinesRead([], AllPairs(headers));
    CollectAllPairs(headers);
  }
}
