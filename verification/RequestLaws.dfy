/** End to end: the requests a client writes are the requests the handler is called with. */
module RequestLaws {
  import opened Wrappers
  import opened Text
  import opened HeaderFields
  import opened RequestHead
  import opened FieldText
  import opened HeadLaws
  import opened Transport
  import opened BodyReaders
  import opened Encode
  import opened BodyLaws
  import opened ChunkedGrammar
  import opened Preconditions
  import opened EncodeLaws
  import opened EtagLaws
  import opened PreconditionLaws
  import opened Conn
  import opened ConnLaws
  import opened OutputLaws

  /** A request as a client sends it: any head text that means it, and the body framed as its fields say; if
      chunked, in any coding of it. */
  datatype Outgoing = Outgoing(head: string, request: Request, mode: BodyMode, coding: string)

  function LineOfRequest(r: Request): RequestLine {
    RequestLine(r.verb, r.target, r.version)
  }

  function BodyOnWire(o: Outgoing): string {
    match o.mode
    case NoBody => ""
    case Fixed(_) => o.request.payload
    case Chunked => o.coding
  }

  function OnWire(o: Outgoing): string {
    o.head + BodyOnWire(o)
  }

  /** The text is a coding of the payload by section 7.1 of RFC 9112, cut into chunks in any way, with any
      extensions and trailers, in lines and sizes the server can bear. */
  predicate CodingOf(coding: string, payload: string) {
    && Bearable(coding) && ReadChunks(coding).Some?
    && ReadChunks(coding).value.data == payload && ReadChunks(coding).value.rest == ""
  }

  /** Printed chunks and trailers are such a coding. */
  lemma PrintedIsCoding(items: seq<Item>, trailers: Option<FieldList>)
    requires Sound(items) && Readable(TrailersOf(trailers))
    ensures CodingOf(ChunkedText(items, trailers).bytes, Payload(items))
  {
    hide ChunkedText, Bearable, ReadChunks;
    var s := ChunkedText(items, trailers).bytes;
    assert s + "" == s;
    WrittenConforms(items, trailers, "");
    WrittenIsBearable(items, trailers);
  }

  /** The head is one a server can accept, and it means the line and the fields of the request. */
  ghost predicate HeadSays(head: string, r: Request, mode: BodyMode) {
    && HeadEnd(head) == Some(|head|) && StartFine(head)
    && ParseRequestLine(RequestLineOf(head)) == Ok(LineOfRequest(r))
    && AllFields(HeaderLines(head))
    && var fs := FieldsOf(HeaderLines(head));
      FieldsFine(fs) && r.headers == Collect(fs) && FramedBy(mode, fs)
  }

  predicate BodySays(o: Outgoing) {
    match o.mode
    case NoBody => o.request.payload == ""
    case Fixed(n) => |o.request.payload| == n
    case Chunked => CodingOf(o.coding, o.request.payload)
  }

  ghost predicate WellSent(o: Outgoing) {
    HeadSays(o.head, o.request, o.mode) && BodySays(o)
  }

  /** What a head says is what the server makes of it. */
  lemma HeadTaken(head: string, r: Request, mode: BodyMode)
    requires HeadSays(head, r, mode)
    ensures ParseHead(head) == Ok(ParsedHead(LineOfRequest(r), r.headers, mode, |head|))
  {
    hide ParseHead, ReadFieldLine, HeadField, ParseRequestLine, FieldsFine, FramedBy, Utf8, Collect;
    ParseHeadMeaning(head);
    OneFraming(ParseHead(head).value.mode, mode, FieldsOf(HeaderLines(head)));
  }

  /** A printed head is one way to say a request. */
  lemma PrintedSays(r: Request, mode: BodyMode)
    requires Sendable(LineOfRequest(r), r.headers) && FramedBy(mode, AllPairs(r.headers))
    ensures HeadSays(PrintHead(LineOfRequest(r), r.headers), r, mode)
  {
    hide ParseRequestLine, Sendable, ReadablePair, AllFields, FieldsFine, FramedBy, Utf8, ReadableLine, StartText, PrintHead;
    hide HeadEnd, AllPairs, Collect, LineOf, LinesOf;
    var line, headers := LineOfRequest(r), r.headers;
    var h := PrintHead(line, headers);
    SendableParts(line, headers);
    PrintedHeadShape(line, headers, "");
    assert h + "" == h && h[..|h|] == h;
    StartTextRoundTrip(line);
    AllPairsReadable(headers);
    PrintedFields(AllPairs(headers));
    CollectAllPairs(headers);
  }

  lemma OneFraming(a: BodyMode, b: BodyMode, fs: seq<Pair>)
    requires FramedBy(a, fs) && FramedBy(b, fs)
    ensures a == b
  {
    match a {
      case Fixed(n) => assert StatesLength(fs, n);
      case _ =>
    }
    match b {
      case Fixed(n) => assert StatesLength(fs, n);
      case _ =>
    }
  }

  lemma BodyReadBack(o: Outgoing, more: string)
    requires BodySays(o)
    ensures var d := DecodeBody(o.mode, BodyOnWire(o) + more);
            d.data == o.request.payload && d.end.Ok? && d.end.value.rest == more
  {
    hide DecodeChunked, ReadChunks, Bearable;
    match o.mode {
      case NoBody => assert "" + more == more;
      case Fixed(n) => CutBetween(o.request.payload, more);
      case Chunked =>
        ConformingIsRead(o.coding);
        BodyExtends(Chunked, o.coding, more);
        assert "" + more == more;
    }
  }

  /** A written request, whatever follows it, leads to the handler being called with exactly it. */
  lemma RequestArrives(env: Env, history: seq<Request>, o: Outgoing, more: string, fault: Option<Fault>)
    requires WellSent(o)
    ensures StepOf(env, history, OnWire(o) + more, fault)
         == Respond(env, history, o.request, ExpectsContinue(o.request.headers), more)
  {
    hide HeadSays, BodySays, ParseHead, DecodeBody, Respond, BodyOnWire, HeadEnd, ExpectsContinue;
    var tail := BodyOnWire(o) + more;
    HeadTaken(o.head, o.request, o.mode);
    HeadArrived(env, history, o.head, tail, fault);
    Assoc(o.head, BodyOnWire(o), more);
    assert o.head[|o.head|..] + tail == tail;
    BodyReadBack(o, more);
  }

  function AllOnWire(os: seq<Outgoing>): string {
    if os == [] then "" else OnWire(os[0]) + AllOnWire(os[1..])
  }

  function Requests(os: seq<Outgoing>): seq<Request> {
    if os == [] then [] else [os[0].request] + Requests(os[1..])
  }

  /** Every request the handler was called with, the one whose response broke included. */
  function AllCalls(t: Trace): seq<Request> {
    Calls(t.exchanges) + if t.ending.call.Some? then [t.ending.call.value] else []
  }

  predicate ClosedByExchange(t: Trace) {
    t.exchanges != [] && t.exchanges[|t.exchanges| - 1].directive.Close?
  }

  lemma RespondParts(env: Env, history: seq<Request>, request: Request, interim: bool, rest: string)
    ensures match Respond(env, history, request, interim, rest)
      case Stop(e) => e.call == Some(request) && e.result.EncodeFailed?
      case Served(x, more) => x.request == request && more == rest
  {
    hide ResponseText, Answered;
  }

  /** What a written request in front of any input leads to. */
  lemma FirstHandled(env: Env, history: seq<Request>, o: Outgoing, rest: string, fault: Option<Fault>)
    requires WellSent(o)
    ensures Serve(env, history, OnWire(o) + rest, fault) ==
      match Respond(env, history, o.request, ExpectsContinue(o.request.headers), rest)
      case Stop(e) => Trace([], e)
      case Served(x, _) =>
        if x.directive.KeepAlive? then Before([x], Serve(env, history + [o.request], rest, fault)) else Trace([x], HUNG_UP)
  {
    hide WellSent, Respond, ExpectsContinue, OnWire, StepOf;
    RequestArrives(env, history, o, rest, fault);
    RespondParts(env, history, o.request, ExpectsContinue(o.request.headers), rest);
  }

  /** The handler was called with the first of the requests sent, in order and unaltered: with all of them,
      after which the run ended as the input did, or up to one whose exchange closed, or up to one whose
      response could not be encoded. */
  predicate HandledInOrder(env: Env, history: seq<Request>, t: Trace, requests: seq<Request>, fault: Option<Fault>) {
    && AllCalls(t) <= requests
    && (t.ending.call.Some? <==> t.ending.result.EncodeFailed?)
    && (t.ending.call.None? ==>
          if ClosedByExchange(t) then t.ending == HUNG_UP
          else AllCalls(t) == requests && t.ending == AtShortHead(env, history + requests, "", fault))
  }

  lemma OneMoreInFront(env: Env, history: seq<Request>, x: Exchange, u: Trace, requests: seq<Request>, fault: Option<Fault>)
    requires HandledInOrder(env, history + [x.request], u, requests, fault) && x.directive.KeepAlive?
    ensures HandledInOrder(env, history, Before([x], u), [x.request] + requests, fault)
  {
    hide AtShortHead;
    CallsCons(x, u.exchanges);
    var t := Before([x], u);
    assert AllCalls(t) == [x.request] + AllCalls(u);
    assert u.exchanges != [] ==> t.exchanges[|t.exchanges| - 1] == u.exchanges[|u.exchanges| - 1];
    assert history + [x.request] + requests == history + ([x.request] + requests);
  }

  lemma OnlyClosed(env: Env, history: seq<Request>, x: Exchange, requests: seq<Request>, fault: Option<Fault>)
    requires x.directive == Close
    ensures HandledInOrder(env, history, Trace([x], HUNG_UP), [x.request] + requests, fault)
  {
    hide AtShortHead;
    CallsCons(x, []);
    assert [x] + [] == [x] && Calls([]) == [];
  }

  lemma NothingSent(env: Env, history: seq<Request>, fault: Option<Fault>)
    ensures Serve(env, history, "", fault) == Trace([], AtShortHead(env, history, "", fault))
    ensures HandledInOrder(env, history, Serve(env, history, "", fault), [], fault)
  {
    hide ErrorText;
    ShortHead(env, history, "", fault);
    assert history + [] == history;
  }

  /** Any number of pipelined requests, whatever their methods, fields and bodies, whatever the handler does
      and however the input ends: the requests handled are the first of those sent, and the run stops short of
      the others only for an exchange that closed or a response that could not be encoded. */
  lemma {:induction false} PipelineArrives(env: Env, history: seq<Request>, os: seq<Outgoing>, fault: Option<Fault>)
    requires forall i :: 0 <= i < |os| ==> WellSent(os[i])
    ensures HandledInOrder(env, history, Serve(env, history, AllOnWire(os), fault), Requests(os), fault)
    decreases |os|
  {
    hide WellSent, Serve, HandledInOrder, OnWire, Respond, ExpectsContinue;
    if os == [] {
      NothingSent(env, history, fault);
    } else {
      var o, rest := os[0], AllOnWire(os[1..]);
      assert WellSent(o);
      assert forall i :: 0 <= i < |os[1..]| ==> os[1..][i] == os[i + 1];
      FirstHandled(env, history, o, rest, fault);
      var interim := ExpectsContinue(o.request.headers);
      RespondParts(env, history, o.request, interim, rest);
      match Respond(env, history, o.request, interim, rest) {
        case Stop(e) => OnlyBroken(env, history, o.request, e, Requests(os[1..]), fault);
        case Served(x, _) =>
          if x.directive.KeepAlive? {
            PipelineArrives(env, history + [o.request], os[1..], fault);
            OneMoreInFront(env, history, x, Serve(env, history + [o.request], rest, fault), Requests(os[1..]), fault);
          } else {
            OnlyClosed(env, history, x, Requests(os[1..]), fault);
          }
      }
    }
  }

  lemma OnlyBroken(env: Env, history: seq<Request>, request: Request, e: Ending, requests: seq<Request>, fault: Option<Fault>)
    requires e.call == Some(request) && e.result.EncodeFailed?
    ensures HandledInOrder(env, history, Trace([], e), [request] + requests, fault)
  {
    assert Calls([]) == [];
    assert [] + [request] == [request];
  }

  /** With handlers whose output can be decoded no response breaks: all requests are handled unless an exchange
      closed the connection, and when the peer then hangs up the run stops cleanly. */
  lemma CleanPipelineArrives(env: Env, history: seq<Request>, os: seq<Outgoing>)
    requires CleanEnv(env) && forall i :: 0 <= i < |os| ==> WellSent(os[i])
    ensures var t := Serve(env, history, AllOnWire(os), None);
      && t.ending == HUNG_UP && Calls(t.exchanges) <= Requests(os)
      && (Calls(t.exchanges) == Requests(os) || ClosedByExchange(t))
  {
    hide WellSent, Serve, CleanEnv, OnWire, ClosedByExchange;
    PipelineArrives(env, history, os, None);
    ServeEnds(env, history, AllOnWire(os), None);
    var t := Serve(env, history, AllOnWire(os), None);
    assert Calls(t.exchanges) + [] == Calls(t.exchanges);
  }

  lemma CallsCons(x: Exchange, xs: seq<Exchange>)
    ensures Calls([x] + xs) == [x.request] + Calls(xs)
  {
  }

  // ---------------------------------------------------------------- the wish to close

  /** The values of the Connection lines of a request, as it was sent. */
  ghost function ConnectionLines(o: Outgoing): seq<string>
    requires WellSent(o)
  {
    ValuesIn(FieldsOf(HeaderLines(o.head)), CONNECTION)
  }

  /** Some Connection line, the first or a later one, has the `close` option (section 9.6 of RFC 9112). */
  predicate AsksToClose(lines: seq<string>) {
    AnyHasToken(lines, "close")
  }

  predicate FirstAsksToClose(lines: seq<string>) {
    lines != [] && HasToken(lines[0], "close")
  }

  /** The answer can be encoded, and its first Connection value does not ask to close. */
  predicate AnswerStays(env: Env, history: seq<Request>, request: Request) {
    var a := Answered(env, history, request);
    && !BothFramings(a.headers)
    && (!RuleOne(request.verb, a.status) && a.body.Streamed? ==> Unbroken(a.body.items))
    && !FirstAsksToClose(Values(a.headers, CONNECTION))
  }

  lemma LinesAreValues(o: Outgoing)
    requires WellSent(o)
    ensures ConnectionLines(o) == Values(o.request.headers, CONNECTION)
  {
    hide BodySays, FieldsFine, FramedBy, ReadFieldLine, ParseRequestLine, StartFine, HeadEnd;
    var fs := FieldsOf(HeaderLines(o.head));
    CollectValues([], fs, CONNECTION);
    assert [] + ValuesIn(fs, CONNECTION) == ValuesIn(fs, CONNECTION);
  }

  lemma RespondStays(env: Env, history: seq<Request>, request: Request, interim: bool, rest: string)
    requires request.version == Http11
    ensures var step := Respond(env, history, request, interim, rest);
            step.Served? && step.exchange.directive.KeepAlive? <==>
              !FirstAsksToClose(Values(request.headers, CONNECTION)) && AnswerStays(env, history, request)
  {
    hide Answered, HasToken, ResponseText, RuleOne, BothFramings, Unbroken;
    var a := Answered(env, history, request);
    WriteOutcome(a, env.reasons, request.verb, DirectiveFor(request.version, request.headers, a.headers), env.clock(|history|));
    CloseMeaning(request.version, request.headers, a.headers);
  }

  /** An HTTP/1.1 request with another one behind it: the second is handled iff the first Connection line of the
      first does not say `close` and neither does its answer, which encodes. So the wish to close is granted,
      as the RFC demands, iff no line has it, or the first one does, or the answer ends the connection. */
  lemma CloseOnWire(env: Env, history: seq<Request>, o: Outgoing, next: Outgoing, rest: string, fault: Option<Fault>)
    requires WellSent(o) && WellSent(next) && o.request.version == Http11
    ensures var lines := ConnectionLines(o);
      var calls := AllCalls(Serve(env, history, OnWire(o) + (OnWire(next) + rest), fault));
      && calls != [] && calls[0] == o.request && (|calls| > 1 ==> calls[1] == next.request)
      && (|calls| > 1 <==> !FirstAsksToClose(lines) && AnswerStays(env, history, o.request))
      && ((AsksToClose(lines) ==> |calls| == 1) <==>
            !AsksToClose(lines) || FirstAsksToClose(lines) || !AnswerStays(env, history, o.request))
  {
    hide Respond, OnWire, AnswerStays, HasToken, ExpectsContinue, Serve, WellSent;
    LinesAreValues(o);
    var more, interim := OnWire(next) + rest, ExpectsContinue(o.request.headers);
    FirstHandled(env, history, o, more, fault);
    RespondParts(env, history, o.request, interim, more);
    RespondStays(env, history, o.request, interim, more);
    var step := Respond(env, history, o.request, interim, more);
    if step.Served? {
      CallsCons(step.exchange, []);
      assert [step.exchange] + [] == [step.exchange];
      if step.exchange.directive.KeepAlive? {
        SecondHandled(env, history + [o.request], next, rest, fault);
        CallsCons(step.exchange, Serve(env, history + [o.request], more, fault).exchanges);
      }
    }
  }

  lemma SecondHandled(env: Env, history: seq<Request>, o: Outgoing, rest: string, fault: Option<Fault>)
    requires WellSent(o)
    ensures var calls := AllCalls(Serve(env, history, OnWire(o) + rest, fault)); calls != [] && calls[0] == o.request
  {
    hide Respond, OnWire, WellSent, ExpectsContinue, Serve;
    FirstHandled(env, history, o, rest, fault);
    RespondParts(env, history, o.request, ExpectsContinue(o.request.headers), rest);
    var step := Respond(env, history, o.request, ExpectsContinue(o.request.headers), rest);
    if step.Served? {
      CallsCons(step.exchange, []);
      assert [step.exchange] + [] == [step.exchange];
      CallsCons(step.exchange, Serve(env, history + [o.request], rest, fault).exchanges);
    }
  }

  // ---------------------------------------------------------------- what is answered to requests as sent

  /** Pipelined requests are answered, each from what the handler makes of the requests sent up to and including
      it, payloads and all. */
  lemma AnswersArrive(env: Env, os: seq<Outgoing>, fault: Option<Fault>)
    requires forall i :: 0 <= i < |os| ==> WellSent(os[i])
    ensures var (xs, sent) := (Serve(env, [], AllOnWire(os), fault).exchanges, Requests(os));
      && |xs| <= |sent|
      && forall i :: 0 <= i < |xs| ==>
           xs[i].request == sent[i] && RightAnswer(env.handler(sent[..i + 1]), sent[i], env.parseDate, xs[i].response)
  {
    hide WellSent, Serve, AllOnWire, Requests, RightAnswer;
    var t := Serve(env, [], AllOnWire(os), fault);
    var xs, sent := t.exchanges, Requests(os);
    PipelineArrives(env, [], os, fault);
    ServedAnswers(env, [], AllOnWire(os), fault);
    assert Calls(xs) <= AllCalls(t) <= sent;
    forall i | 0 <= i < |xs|
      ensures xs[i].request == sent[i] && RightAnswer(env.handler(sent[..i + 1]), sent[i], env.parseDate, xs[i].response)
    {
      assert Calls(xs)[i] == sent[i];
      assert [] + Calls(xs[..i + 1]) == Calls(xs)[..i + 1] == sent[..i + 1];
    }
  }

  /** A GET or HEAD whose If-None-Match lists the tag of what the handler answers, and that has no other condition
      that fails first, gets a 304 with a head and nothing else. */
  lemma NotModifiedOnWire(env: Env, history: seq<Request>, o: Outgoing, value: string, tag: string, more: string, fault: Option<Fault>)
    requires WellSent(o) && GetOrHead(o.request)
    requires var h := o.request.headers;
             FirstIn(h, IF_MATCH) == None && FirstIn(h, IF_UNMODIFIED_SINCE) == None && FirstIn(h, IF_NONE_MATCH) == Some(value)
    requires var r := env.handler(history + [o.request]);
             r.status < 400 && FirstIn(r.headers, ETAG) == Some(tag)
    requires ConditionFine(value) && EntityTag(tag) && ',' !in tag && Listed(value, Some(tag), false)
    ensures var step := StepOf(env, history, OnWire(o) + more, fault);
      && step.Served? && step.rest == more && step.exchange.request == o.request && step.exchange.response.status == 304
      && var (x, r) := (step.exchange, step.exchange.response);
         Reply(env, x) == Written(HeadText(r, env.reasons, x.request.verb, x.directive, x.date), None)
  {
    hide WellSent, ResponseText, HeadText, EtagListMatches, Listed, ConditionFine, EntityTag, DirectiveFor, ExpectsContinue, ListNames;
    hide TagList, StepOf, Conditioned;
    RequestArrives(env, history, o, more, fault);
    var r := env.handler(history + [o.request]);
    TagIsFound(value, tag);
    DecideMeaning(o.request, r.headers, env.parseDate);
    assert Decide(o.request, r.headers, env.parseDate) == Some(304);
    AnswerMeaning(env, history, o.request);
    var a := Answered(env, history, o.request);
    DecidedEncodes(o.request, r, env.parseDate, env.reasons, o.request.verb,
                   DirectiveFor(o.request.version, o.request.headers, a.headers), env.clock(|history|));
  }

  lemma TagIsFound(value: string, tag: string)
    requires ConditionFine(value) && EntityTag(tag) && ',' !in tag && Listed(value, Some(tag), false)
    ensures Found(value, Some(tag), false)
  {
    hide EntityTag, TagList, ListNames;
    if value != "*" {
      ListedMeaning(value, Some(tag), false);
    }
  }
}
