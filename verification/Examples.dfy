/** Concrete inputs: that the conditions of the laws can be met, and where the code departs from a standard. */
module Examples {
  import opened Wrappers
  import opened Text
  import opened HeaderFields
  import opened RequestHead
  import opened FieldText
  import opened HeadLaws
  import opened ChunkedGrammar
  import opened Encode
  import opened Preconditions
  import opened Conn
  import opened ConnLaws
  import opened Client
  import opened ClientLaws
  import opened OutputLaws
  import opened RequestLaws

  // ---------------------------------------------------------------- heads from their lines

  /** `GET /` in the given version. */
  function Root(v: Version): RequestLine {
    RequestLine(GET, Origin("/"), v)
  }

  function HeadFrom(line: RequestLine, lines: seq<string>): string {
    PrintLines([StartText(line)] + lines) + CRLF
  }

  /** A request for `/` without a body, sent with these lines. */
  function RootSent(v: Version, lines: seq<string>, fs: seq<Pair>): Outgoing {
    Outgoing(HeadFrom(Root(v), lines), Request(GET, Origin("/"), v, Collect(fs), ""), NoBody, "")
  }

  predicate ShortLine(line: string) {
    '\r' !in line && line != "" && Utf8(line) && |line| <= 100
  }

  lemma {:induction false} LinesShort(lines: seq<string>)
    requires forall i :: 0 <= i < |lines| ==> |lines[i]| <= 100
    ensures |PrintLines(lines)| <= 102 * |lines|
  {
    if lines != [] {
      LinesShort(lines[1..]);
    }
  }

  lemma RootTexts()
    ensures StartText(Root(Http11)) == "GET / HTTP/1.1" && StartText(Root(Http10)) == "GET / HTTP/1.0"
  {
  }

  lemma RootReadable(v: Version)
    requires v.Http10? || v.Http11?
    ensures ReadableLine(Root(v))
  {
    Utf8Ascii("/");
  }

  lemma RootLine(v: Version)
    requires v.Http10? || v.Http11?
    ensures ReadableLine(Root(v)) && |StartText(Root(v))| <= 100
    ensures StartText(Root(Http11)) == "GET / HTTP/1.1" && StartText(Root(Http10)) == "GET / HTTP/1.0"
  {
    hide ReadableLine, StartText;
    RootTexts();
    RootReadable(v);
  }

  lemma SmallHead(line: RequestLine, lines: seq<string>)
    requires |StartText(line)| <= 100 && |lines| <= 10 && forall i :: 0 <= i < |lines| ==> |lines[i]| <= 100
    ensures |HeadFrom(line, lines)| <= HEADER_LIMIT
  {
    hide StartText, PrintLines;
    LinesShort([StartText(line)] + lines);
  }

  lemma RootIsWellSent(v: Version, lines: seq<string>, fs: seq<Pair>)
    requires v.Http10? || v.Http11?
    requires |lines| == |fs| <= 10
    requires forall i :: 0 <= i < |lines| ==> ShortLine(lines[i]) && ReadFieldLine(lines[i]) == Some(fs[i])
    requires FieldsFine(fs) && !Mentions(fs, CONTENT_LENGTH) && !Mentions(fs, TRANSFER_ENCODING)
    ensures WellSent(RootSent(v, lines, fs)) && HeaderLines(HeadFrom(Root(v), lines)) == lines
    ensures HeadEnd(HeadFrom(Root(v), lines)).Some? && FieldsOf(lines) == fs
  {
    hide ReadFieldLine, FieldsFine, ReadableLine, StartText, ParseRequestLine, Utf8, HeadEnd, Collect;
    var line := Root(v);
    var start, h := StartText(line), HeadFrom(line, lines);
    RootLine(v);
    StartTextRoundTrip(line);
    BlockText(start, lines);
    BlockIsHead(start, lines, "");
    assert h + "" == h && h[..|h|] == h;
    SmallHead(line, lines);
    assert FieldsOf(lines) == fs;
  }

  /** A field line with a name in any case and a token for a value. */
  lemma LineSays(name: string, value: string)
    requires IsToken(name) && IsToken(value)
    ensures var line := name + ": " + value;
            ReadFieldLine(line) == Some(Pair(Lower(name), value)) && '\r' !in line && line != "" && Utf8(line)
  {
    hide Utf8, Find, TrimOws;
    var line := name + ": " + value;
    TokenLacks(name, ':');
    TokenLacks(name, '\r');
    TokenLacks(value, '\r');
    FindAfter(name, ":", " " + value);
    assert line == name + ":" + (" " + value) && line[..|name|] == name && line[|name| + 1..] == " " + value;
    TokenIsGraphic(value);
    assert value[0] in value && value[|value| - 1] in value;
    TrimOwsOfTrimmed(value);
    Utf8Token(name);
    Utf8Ascii(": ");
    Utf8Concat(name, ": ");
    Utf8Token(value);
    Utf8Concat(name + ": ", value);
  }

  lemma HostName()
    ensures IsToken("Host") && Lower("Host") == HOST && IsToken("a") && IsValidHost("a") && "Host" + ": " + "a" == "Host: a"
  {
    FindNothing("a", ":");
    assert Lower("Host") == "host";
  }

  lemma ConnectionName()
    ensures IsToken("Connection") && Lower("Connection") == CONNECTION && IsToken("x") && IsToken("close")
    ensures "Connection" + ": " + "x" == "Connection: x" && "Connection" + ": " + "close" == "Connection: close"
  {
    assert Lower("Connection") == "connection";
  }

  lemma ExpectName()
    ensures IsToken("Expect") && Lower("Expect") == EXPECT && IsToken("100-continue")
    ensures "Expect" + ": " + "100-continue" == "Expect: 100-continue"
  {
    assert Lower("Expect") == "expect";
  }

  lemma Names()
    ensures IsToken("Host") && Lower("Host") == HOST && IsToken("a") && IsValidHost("a")
    ensures IsToken("Connection") && Lower("Connection") == CONNECTION && IsToken("x") && IsToken("close")
    ensures IsToken("Expect") && Lower("Expect") == EXPECT && IsToken("100-continue")
    ensures "Host" + ": " + "a" == "Host: a"
    ensures "Connection" + ": " + "x" == "Connection: x" && "Connection" + ": " + "close" == "Connection: close"
    ensures "Expect" + ": " + "100-continue" == "Expect: 100-continue"
  {
    hide IsToken, Lower, IsValidHost;
    HostName();
    ConnectionName();
    ExpectName();
  }

  lemma KeysApart()
    ensures HOST != CONTENT_LENGTH && HOST != TRANSFER_ENCODING && HOST != CONNECTION && HOST != EXPECT
    ensures CONNECTION != CONTENT_LENGTH && CONNECTION != TRANSFER_ENCODING
    ensures EXPECT != CONTENT_LENGTH && EXPECT != TRANSFER_ENCODING
  {
    assert |HOST| == 4 && |CONTENT_LENGTH| == 14 && |TRANSFER_ENCODING| == 17 && |CONNECTION| == 10 && |EXPECT| == 6;
  }

  lemma HostOnly(fs: seq<Pair>, k: nat)
    requires k < |fs| && fs[k] == Pair(HOST, "a")
    requires forall i :: 0 <= i < |fs| && i != k ==> fs[i].name == CONNECTION || fs[i].name == EXPECT
                                                     || fs[i].name == "x"
    ensures FieldsFine(fs) && !Mentions(fs, CONTENT_LENGTH) && !Mentions(fs, TRANSFER_ENCODING)
  {
    hide IsValidHost;
    Names();
    KeysApart();
    assert |"x"| == 1 && |HOST| == 4 && |CONTENT_LENGTH| == 14 && |TRANSFER_ENCODING| == 17;
  }

  // ---------------------------------------------------------------- plain requests

  /** The shortest request there is: GET / with a Host. */
  const SIMPLEST := RootSent(Http11, ["Host: a"], [Pair(HOST, "a")])

  lemma SimplestIsWellSent()
    ensures WellSent(SIMPLEST)
    ensures OnWire(SIMPLEST) == "GET / HTTP/1.1" + CRLF + "Host: a" + CRLF + CRLF
  {
    hide WellSent, StartText, IsToken, Utf8, IsValidHost, ReadFieldLine, FieldsFine, Collect;
    Names();
    LineSays("Host", "a");
    HostOnly([Pair(HOST, "a")], 0);
    RootIsWellSent(Http11, ["Host: a"], [Pair(HOST, "a")]);
    RootLine(Http11);
    OneLine("GET / HTTP/1.1", "Host: a");
    assert SIMPLEST.head == "GET / HTTP/1.1" + CRLF + ("Host: a" + CRLF + "") + CRLF;
    assert OnWire(SIMPLEST) == SIMPLEST.head + "";
  }

  lemma OneLine(a: string, b: string)
    ensures PrintLines([a] + [b]) == a + CRLF + (b + CRLF + "")
  {
    PrintLinesCons(a, [b], "");
    assert [b] == [b] + [];
    PrintLinesCons(b, [], "");
  }

  // ---------------------------------------------------------------- a wish to close in a later line

  const LATER_LINES := ["Connection: x", "Host: a", "Connection: close"]

  const LATER_FIELDS := [Pair(CONNECTION, "x"), Pair(HOST, "a"), Pair(CONNECTION, "close")]

  /** A request that says `close` in its second Connection line. */
  const LATER_CLOSE := RootSent(Http11, LATER_LINES, LATER_FIELDS)

  lemma LaterCloseIsWellSent()
    ensures WellSent(LATER_CLOSE) && ConnectionLines(LATER_CLOSE) == ["x", "close"]
  {
    hide WellSent, StartText, IsToken, Utf8, IsValidHost, ReadFieldLine, FieldsFine, Collect, HeadFrom;
    Names();
    KeysApart();
    LineSays("Connection", "x");
    LineSays("Host", "a");
    LineSays("Connection", "close");
    HostOnly(LATER_FIELDS, 1);
    RootIsWellSent(Http11, LATER_LINES, LATER_FIELDS);
    LaterValues();
  }

  lemma ValuesStep(p: Pair, ps: seq<Pair>, name: string)
    ensures ValuesIn([p] + ps, name) == (if p.name == name then [p.value] else []) + ValuesIn(ps, name)
  {
    assert ([p] + ps)[1..] == ps;
  }

  lemma LaterValues()
    ensures ValuesIn(LATER_FIELDS, CONNECTION) == ["x", "close"]
  {
    hide ValuesIn;
    KeysApart();
    var (a, b, c) := (Pair(CONNECTION, "x"), Pair(HOST, "a"), Pair(CONNECTION, "close"));
    ValuesStep(a, [b] + ([c] + []), CONNECTION);
    ValuesStep(b, [c] + [], CONNECTION);
    ValuesStep(c, [], CONNECTION);
    NoValues();
    assert [a] + ([b] + ([c] + [])) == LATER_FIELDS;
  }

  lemma NoValues()
    ensures ValuesIn([], CONNECTION) == [] && ValuesIn([], EXPECT) == []
  {
  }

  lemma XIsNotClose()
    ensures !HasToken("x", "close")
  {
    SplitWhole("x", ",");
    TrimOfGraphic("x");
    assert |Lower("x")| == 1 && |Lower("close")| == 5;
  }

  lemma HeadsEnd(o: Outgoing)
    requires WellSent(o)
    ensures o.mode == NoBody ==> OnWire(o) == o.head
  {
    assert o.head + "" == o.head;
  }

  /** This input asks to close with the first request, and the second is handled all the same. */
  lemma ServedPastClose(env: Env)
    requires forall h: seq<Request> :: env.handler(h) == NOT_FOUND
    ensures WellSent(LATER_CLOSE) && WellSent(SIMPLEST) && AsksToClose(ConnectionLines(LATER_CLOSE))
    ensures var calls := AllCalls(Serve(env, [], LATER_CLOSE.head + SIMPLEST.head, None));
            |calls| > 1 && calls[0] == LATER_CLOSE.request && calls[1] == SIMPLEST.request
  {
    hide WellSent, OnWire, Serve, HasToken, RootSent;
    LaterCloseIsWellSent();
    SimplestIsWellSent();
    XIsNotClose();
    CloseIsToken();
    assert ConnectionLines(LATER_CLOSE)[1] == "close";
    NoBodies();
    HeadsEnd(LATER_CLOSE);
    HeadsEnd(SIMPLEST);
    assert SIMPLEST.head + "" == SIMPLEST.head;
    assert AnswerStays(env, [], LATER_CLOSE.request);
    CloseOnWire(env, [], LATER_CLOSE, SIMPLEST, "", None);
  }

  lemma NoBodies()
    ensures LATER_CLOSE.mode == NoBody && SIMPLEST.mode == NoBody
    ensures LATER_CLOSE.request.version == Http11 && SIMPLEST.request.version == Http11
  {
  }

  // ---------------------------------------------------------------- an interim response to an old client

  const EXPECT_LINES := ["Host: a", "Expect: 100-continue"]

  const EXPECT_FIELDS := [Pair(HOST, "a"), Pair(EXPECT, "100-continue")]

  /** An HTTP/1.0 request that asks for a 100. */
  const OLD_EXPECT := RootSent(Http10, EXPECT_LINES, EXPECT_FIELDS)

  lemma OldExpectIsWellSent()
    ensures WellSent(OLD_EXPECT) && Values(OLD_EXPECT.request.headers, EXPECT) == ["100-continue"]
  {
    hide WellSent, StartText, IsToken, Utf8, IsValidHost, ReadFieldLine, FieldsFine, HeadFrom, ValuesIn, CollectFrom;
    Names();
    KeysApart();
    LineSays("Host", "a");
    LineSays("Expect", "100-continue");
    HostOnly(EXPECT_FIELDS, 0);
    RootIsWellSent(Http10, EXPECT_LINES, EXPECT_FIELDS);
    var (a, b) := (Pair(HOST, "a"), Pair(EXPECT, "100-continue"));
    ValuesStep(a, [b] + [], EXPECT);
    ValuesStep(b, [], EXPECT);
    NoValues();
    assert [a] + ([b] + []) == EXPECT_FIELDS;
    CollectValues([], EXPECT_FIELDS, EXPECT);
  }

  lemma HasItself(token: string)
    requires IsToken(token)
    ensures HasToken(token, token)
  {
    TokenLacks(token, ',');
    SplitWhole(token, ",");
    TokenIsGraphic(token);
    assert token[0] in token && token[|token| - 1] in token;
    TrimOfGraphic(token);
    assert Split(token, ",")[0] == token;
    assert EqIgnoreCase(Trim(Split(token, ",")[0]), token);
  }

  /** An interim response goes to a client of HTTP/1.0. */
  lemma OldVersionGetsInterim(env: Env)
    ensures ParseHead(OLD_EXPECT.head).Ok? && ParseHead(OLD_EXPECT.head).value.line.version == Http10
    ensures InterimOf(StepOf(env, [], OLD_EXPECT.head, None))
  {
    hide ParseHead, HasToken, StepOf, HeadSays, RootSent;
    OldExpectIsWellSent();
    Names();
    HasItself("100-continue");
    OldParts();
    HeadTaken(OLD_EXPECT.head, OLD_EXPECT.request, OLD_EXPECT.mode);
    InterimExactly(env, [], OLD_EXPECT.head, None);
  }

  lemma OldParts()
    ensures OLD_EXPECT.request.version == Http10
  {
  }

  // ---------------------------------------------------------------- a head that is not UTF-8

  /** A head with a byte of `obs-text` in a field value. */
  const LATIN_LINES := ["Host: a", "x: " + LATIN]

  lemma LatinHeadRefused()
    ensures var h := HeadFrom(Root(Http11), LATIN_LINES); Regular(h) && ParseHead(h) == Err(InvalidHeaderEncoding)
  {
    hide ReadFieldLine, FieldsFine, ReadableLine, StartText, ParseRequestLine, Utf8, HeadEnd, ParseHead, HeadField;
    var line := Root(Http11);
    var start, h := StartText(line), HeadFrom(line, LATIN_LINES);
    var fs := [Pair(HOST, "a"), Pair("x", LATIN)];
    LatinLines();
    RootLine(Http11);
    StartTextRoundTrip(line);
    BlockIsHead(start, LATIN_LINES, "");
    assert h + "" == h && h[..|h|] == h;
    SmallHead(line, LATIN_LINES);
    HostOnly(fs, 0);
    assert AllFields(LATIN_LINES) && FieldsOf(LATIN_LINES) == fs;
    LatinHeadText();
    EncodingDecides(h);
  }

  lemma LatinLines()
    ensures forall i :: 0 <= i < 2 ==> '\r' !in LATIN_LINES[i] && LATIN_LINES[i] != "" && |LATIN_LINES[i]| <= 100
    ensures ReadFieldLine(LATIN_LINES[0]) == Some(Pair(HOST, "a")) && ReadFieldLine(LATIN_LINES[1]) == Some(Pair("x", LATIN))
  {
    hide ReadFieldLine, Utf8;
    Names();
    LineSays("Host", "a");
    assert "x" + ": " == "x: " && Lower("x") == "x";
    LatinField("x");
  }

  lemma LatinHeadText()
    ensures !Utf8(HeadFrom(Root(Http11), LATIN_LINES))
  {
    hide Utf8, StartText;
    RootLine(Http11);
    var before := "GET / HTTP/1.1" + CRLF + "Host: a" + CRLF + "x: ";
    OneLine3("GET / HTTP/1.1", "Host: a", "x: " + LATIN);
    assert HeadFrom(Root(Http11), LATIN_LINES) == before + (LATIN + (CRLF + CRLF));
    AsciiBytes();
    LatinIsNotUtf8(before, CRLF + CRLF);
  }

  lemma AsciiBytes()
    ensures forall c :: c in "GET / HTTP/1.1" + CRLF + "Host: a" + CRLF + "x: " ==> c as int < 0x80
  {
  }

  lemma OneLine3(a: string, b: string, c: string)
    ensures PrintLines([a] + [b, c]) == a + CRLF + (b + CRLF + (c + CRLF + ""))
  {
    PrintLinesCons(a, [b, c], "");
    assert [b, c] == [b] + [c];
    OneLine(b, c);
  }

  // ---------------------------------------------------------------- a length of the handler's own

  /** A response that states a length its body does not have. */
  const WRONG_LENGTH := ResponseValue(Http11, 200, Some("OK"), [Field(CONTENT_LENGTH, ["5"])], Full("ab"), None)

  lemma WrongLengthParts()
    ensures Clean(WRONG_LENGTH) && !WellFramed(WRONG_LENGTH, GET) && !Conflicting(WRONG_LENGTH)
  {
    hide ReadablePair, StatedLength;
    FramingNamesAreTokens();
    FramingKeysAreLower();
    TokenValue(CONTENT_LENGTH, "5");
    assert ToDigits(5, 10) == "5";
    LengthRead(5);
    assert |CONTENT_LENGTH| == 14 && |TRANSFER_ENCODING| == 17;
    assert Values(WRONG_LENGTH.headers, CONTENT_LENGTH) == ["5"];
  }

  /** It is sent as it is, and read as something else. */
  lemma WrongLengthMisread(reasons: Reasons, date: string, more: string)
    requires ReadableValue(DATE, date)
    ensures var w := ResponseText(WRONG_LENGTH, reasons, GET, KeepAlive, date);
      && w.error == None
      && ReadMessage(GET, w.bytes + more) != Some(Received(Meant(WRONG_LENGTH, reasons, GET, KeepAlive, date), more))
  {
    hide Clean, WellFramed, ReadMessage, Meant, ReadablePair, HeadOf, FinalHeaders;
    WrongLengthParts();
    MessageReadExactly(WRONG_LENGTH, reasons, GET, KeepAlive, date, more);
  }

  // ---------------------------------------------------------------- an answer that says close in a later value

  /** A 404 that says `close` in its second Connection value. */
  const LATER_ANSWER: ResponseValue := ResponseValue(Http11, 404, None, [Field(CONNECTION, ["x", "close"])], Empty, None)

  lemma LaterAnswerClean(m: Method)
    ensures WellFormedResponse(LATER_ANSWER) && Clean(LATER_ANSWER) && FinalFor(LATER_ANSWER, m)
    ensures LaterSaysClose(Values(LATER_ANSWER.headers, CONNECTION))
  {
    hide ReadablePair, StatedLength, HasToken;
    FramingNamesAreTokens();
    FramingKeysAreLower();
    KeysApart();
    Names();
    TokenValue(CONNECTION, "x");
    TokenValue(CONNECTION, "close");
    CloseIsToken();
    var values := Values(LATER_ANSWER.headers, CONNECTION);
    assert values == ["x", "close"] && values[1] == "close";
  }

  lemma LaterAnswerStays(env: Env, history: seq<Request>, request: Request)
    requires forall h: seq<Request> :: env.handler(h) == LATER_ANSWER
    ensures Answered(env, history, request) == LATER_ANSWER && AnswerStays(env, history, request)
  {
    hide HasToken;
    XIsNotClose();
    KeysApart();
    assert Values(LATER_ANSWER.headers, CONNECTION) == ["x", "close"];
  }

  lemma SimplestPair()
    ensures AllOnWire([SIMPLEST, SIMPLEST]) == SIMPLEST.head + (SIMPLEST.head + "")
    ensures ConnectionFree(SIMPLEST)
  {
    hide RootSent;
    NoBodies();
    assert [SIMPLEST, SIMPLEST][1..] == [SIMPLEST] && [SIMPLEST][1..] == [];
    assert SIMPLEST.head + "" == SIMPLEST.head;
    assert AllOnWire([SIMPLEST]) == OnWire(SIMPLEST) + AllOnWire([]);
    SimplestHasNoConnection();
  }

  predicate ConnectionFree(o: Outgoing) {
    Values(o.request.headers, CONNECTION) == []
  }

  lemma SimplestHasNoConnection()
    ensures ConnectionFree(SIMPLEST)
  {
    hide CollectFrom, ValuesIn;
    KeysApart();
    CollectValues([], [Pair(HOST, "a")], CONNECTION);
    ValuesStep(Pair(HOST, "a"), [], CONNECTION);
    NoValues();
    assert [Pair(HOST, "a")] == [Pair(HOST, "a")] + [];
  }

  /** The connection stays open behind this answer, but a client has stopped reading: the second of two responses
      is not recovered. */
  lemma LaterAnswerUnread(env: Env)
    requires CleanEnv(env) && forall h: seq<Request> :: env.handler(h) == LATER_ANSWER
    ensures var t := Serve(env, [], AllOnWire([SIMPLEST, SIMPLEST]), None);
      && |t.exchanges| > 1
      && ReadAll(Verbs(t.exchanges), TraceText(env, t)) != Some(Conversation(AllTold(env, t.exchanges), EndingText(t.ending)))
  {
    hide WellSent, OnWire, Serve, HasToken, RootSent, CleanEnv, AllOnWire, Answered, AnswerStays, LaterSaysClose, ReadAll;
    hide AllTold, TraceText, EndingText, Faithful, Clean, FinalFor;
    var s := AllOnWire([SIMPLEST, SIMPLEST]);
    var t := Serve(env, [], s, None);
    SimplestIsWellSent();
    SimplestPair();
    NoBodies();
    HeadsEnd(SIMPLEST);
    LinesAreValues(SIMPLEST);
    LaterAnswerStays(env, [], SIMPLEST.request);
    LaterAnswerClean(GET);
    CloseOnWire(env, [], SIMPLEST, SIMPLEST, "", None);
    PipelineArrives(env, [], [SIMPLEST, SIMPLEST], None);
    ServeEnds(env, [], s, None);
    AllRecovered(env, s, None);
    FirstAnswer(env, s);
  }

  lemma FirstAnswer(env: Env, s: string)
    requires forall h: seq<Request> :: env.handler(h) == LATER_ANSWER
    ensures var xs := Serve(env, [], s, None).exchanges; forall i :: 0 <= i < |xs| ==> xs[i].response == LATER_ANSWER
  {
    hide Serve, AnswerStays, ResponseText, DirectiveFor;
    ServeFaithful(env, [], s, None);
    var xs := Serve(env, [], s, None).exchanges;
    forall i | 0 <= i < |xs| ensures xs[i].response == LATER_ANSWER {
      assert Faithful(env, [] + Calls(xs[..i]), xs[i]);
      LaterAnswerStays(env, [] + Calls(xs[..i]), xs[i].request);
    }
  }
}
