/** The connection loop, and the pure interpreter of a whole input that it refines. */
module Conn {
  import opened Wrappers
  import opened Text
  import opened HeaderFields
  import opened RequestHead
  import opened HeadLaws
  import opened Transport
  import opened BodyReaders
  import opened BodyLaws
  import opened Encode
  import opened Preconditions

  /** What a server run depends on besides the peer's bytes: the handler, as a function of all requests
      so far, the reason phrases, the Date text of each reply, and the date parser. */
  datatype Env = Env(handler: seq<Request> -> ResponseData, reasons: Reasons, clock: nat -> string, parseDate: DateParser)

  datatype TimeoutKind = HeaderTimeout | BodyTimeout | IdleTimeout

  datatype RunResult =
    | Finished
    | ParseFailed(parse: ParseError)
    | BodyFailed(body: BodyError)
    | EncodeFailed(encode: EncodeError)
    | IoFailed
    | TimeoutFailed(kind: TimeoutKind)

  // ---------------------------------------------------------------- what a run does

  /** A request, whether it got an interim 100, and the response sent for it. */
  datatype Exchange = Exchange(request: Request, interim: bool, response: ResponseValue, directive: Directive, date: string)

  /** How a run stops: an interim 100, a handler call whose response broke, final bytes, and the result. */
  datatype Ending = Ending(interim: bool, call: Option<Request>, reply: string, result: RunResult)

  datatype Trace = Trace(exchanges: seq<Exchange>, ending: Ending)

  function Interim(sent: bool): string {
    if sent then CONTINUE_TEXT else ""
  }

  function Reply(env: Env, x: Exchange): Written {
    ResponseText(x.response, env.reasons, x.request.verb, x.directive, x.date)
  }

  function ExchangeText(env: Env, x: Exchange): string {
    Interim(x.interim) + Reply(env, x).bytes
  }

  function ExchangesText(env: Env, xs: seq<Exchange>): string {
    if xs == [] then "" else ExchangesText(env, xs[..|xs| - 1]) + ExchangeText(env, xs[|xs| - 1])
  }

  function EndingText(e: Ending): string {
    Interim(e.interim) + e.reply
  }

  function TraceText(env: Env, t: Trace): string {
    ExchangesText(env, t.exchanges) + EndingText(t.ending)
  }

  function Calls(xs: seq<Exchange>): (requests: seq<Request>)
    ensures |requests| == |xs|
    ensures forall i :: 0 <= i < |xs| ==> requests[i] == xs[i].request
  {
    seq(|xs|, i requires 0 <= i < |xs| => xs[i].request)
  }

  // ---------------------------------------------------------------- the connection's own decisions

  predicate FirstHasToken(h: FieldList, name: string, token: string) {
    First(h, name).Some? && HasToken(First(h, name).value, token)
  }

  predicate ShouldCloseAfterRequest(version: Version, h: FieldList) {
    match version
    case Http11 => FirstHasToken(h, CONNECTION, "close")
    case Http10 => !FirstHasToken(h, CONNECTION, "keep-alive")
    case Other(_, _) => true
  }

  predicate ResponseRequestsClose(h: FieldList) {
    FirstHasToken(h, CONNECTION, "close")
  }

  predicate ExpectsContinue(h: FieldList) {
    FirstHasToken(h, EXPECT, "100-continue")
  }

  function DirectiveFor(version: Version, request: FieldList, response: FieldList): Directive {
    if ShouldCloseAfterRequest(version, request) || ResponseRequestsClose(response) || version != Http11
    then Close else KeepAlive
  }

  function ErrorResponse(status: nat, message: string): ResponseValue {
    ResponseValue(Http11, status, None, [Field(CONTENT_TYPE, ["text/plain; charset=utf-8"])], Full(message), None)
  }

  /** The reply that ends a connection with an error; framed as for GET whatever was asked. */
  function ErrorText(env: Env, calls: nat, status: nat, message: string): string {
    ResponseText(ErrorResponse(status, message), env.reasons, GET, Close, env.clock(calls)).bytes
  }

  function BadRequest(env: Env, calls: nat): string {
    ErrorText(env, calls, 400, "Bad Request")
  }

  // ---------------------------------------------------------------- the pure interpreter

  datatype Step = Stop(ending: Ending) | Served(exchange: Exchange, rest: string)

  /** The response to a request after preconditions, which errors skip. */
  function Answered(env: Env, history: seq<Request>, request: Request): ResponseValue {
    var r := env.handler(history + [request]);
    if r.status < 400 then Conditioned(request, r, env.parseDate) else r
  }

  function Respond(env: Env, history: seq<Request>, request: Request, interim: bool, rest: string): Step {
    var response := Answered(env, history, request);
    var x := Exchange(request, interim, response, DirectiveFor(request.version, request.headers, response.headers),
                      env.clock(|history|));
    var w := Reply(env, x);
    if w.error.Some? then Stop(Ending(interim, Some(request), w.bytes, EncodeFailed(w.error.value)))
    else Served(x, rest)
  }

  function RequestOf(head: ParsedHead, payload: string): Request {
    Request(head.line.verb, head.line.target, head.line.version, head.headers, payload)
  }

  /** How a run ends on a body that is malformed, or cut short by the end of the input or by a fault. */
  function AtBadBody(env: Env, calls: nat, interim: bool, error: BodyError): Ending {
    if error == Interrupted(TimedOut)
    then Ending(interim, None, ErrorText(env, calls, 408, "Request body timeout"), TimeoutFailed(BodyTimeout))
    else Ending(interim, None, ErrorText(env, calls, 400, "Malformed request body"), BodyFailed(error))
  }

  function AfterHead(env: Env, history: seq<Request>, head: ParsedHead, s: string, fault: Option<Fault>): Step {
    var interim := ExpectsContinue(head.headers);
    var d := DecodeBody(head.mode, s);
    match d.end
    case Err(e) => Stop(AtBadBody(env, |history|, interim, Reported(e, fault)))
    case Ok(f) => Respond(env, history, RequestOf(head, d.data), interim, f.rest)
  }

  /** What happens when no complete head can be had from the input. The timer that runs is the idle one
      only between requests. */
  function AtShortHead(env: Env, history: seq<Request>, s: string, fault: Option<Fault>): Ending {
    if |s| > HEADER_LIMIT then Ending(false, None, BadRequest(env, |history|), ParseFailed(HeaderTooLarge))
    else match fault
      case Some(Failed) => Ending(false, None, "", IoFailed)
      case Some(TimedOut) =>
        Ending(false, None, ErrorText(env, |history|, 408, "Request timeout"),
               TimeoutFailed(if s == "" && history != [] then IdleTimeout else HeaderTimeout))
      case None =>
        if s == "" then HUNG_UP else Ending(false, None, BadRequest(env, |history|), ParseFailed(Incomplete))
  }

  /** One round of the loop on all the input there is. */
  function StepOf(env: Env, history: seq<Request>, s: string, fault: Option<Fault>): Step {
    if NeedsMoreHead(s) then Stop(AtShortHead(env, history, s, fault))
    else match ParseHead(s)
      case Err(e) => Stop(Ending(false, None, BadRequest(env, |history|), ParseFailed(e)))
      case Ok(head) => AfterHead(env, history, head, s[head.consumed..], fault)
  }

  const HUNG_UP := Ending(false, None, "", Finished)

  function Before(xs: seq<Exchange>, t: Trace): Trace {
    Trace(xs + t.exchanges, t.ending)
  }

  /** The whole conversation over an input and what ends it, without any notion of reads. */
  function Serve(env: Env, history: seq<Request>, s: string, fault: Option<Fault>): Trace
    decreases |s|
  {
    match StepOf(env, history, s, fault)
    case Stop(e) => Trace([], e)
    case Served(x, rest) =>
      if x.directive.Close? then Trace([x], HUNG_UP)
      else
        StepShrinks(env, history, s, fault);
        Before([x], Serve(env, history + [x.request], rest, fault))
  }

  /** A served request took its head, of at least four bytes, out of the input. */
  lemma StepShrinks(env: Env, history: seq<Request>, s: string, fault: Option<Fault>)
    ensures StepOf(env, history, s, fault).Served? ==> |StepOf(env, history, s, fault).rest| + 4 <= |s|
  {
    hide DecodeBody, ResponseText;
    if !NeedsMoreHead(s) && ParseHead(s).Ok? {
      BodyExtends(ParseHead(s).value.mode, s[ParseHead(s).value.consumed..], "");
    }
  }

  // ---------------------------------------------------------------- steps of the loop on part of the input

  lemma RefusedEarly(env: Env, history: seq<Request>, arrived: string, later: string, fault: Option<Fault>)
    requires IncompleteHeadExceedsLimit(arrived)
    ensures StepOf(env, history, arrived + later, fault)
         == Stop(Ending(false, None, BadRequest(env, |history|), ParseFailed(HeaderTooLarge)))
  {
    hide AfterHead, ResponseText, ParseHead;
    LimitVerdict(arrived, later);
  }

  lemma HeadArrived(env: Env, history: seq<Request>, arrived: string, later: string, fault: Option<Fault>)
    requires !NeedsMoreHead(arrived)
    ensures ParseHead(arrived + later) == ParseHead(arrived)
    ensures var step := StepOf(env, history, arrived + later, fault);
            && (ParseHead(arrived).Err? ==>
                  step == Stop(Ending(false, None, BadRequest(env, |history|), ParseFailed(ParseHead(arrived).error))))
            && (ParseHead(arrived).Ok? ==>
                  step == AfterHead(env, history, ParseHead(arrived).value,
                                    arrived[ParseHead(arrived).value.consumed..] + later, fault))
  {
    hide AfterHead, ResponseText, ParseHead;
    StableUnderSuffix(arrived, later);
    if ParseHead(arrived).Ok? {
      CutInside(arrived, later, ParseHead(arrived).value.consumed);
    }
  }

  lemma ShortHead(env: Env, history: seq<Request>, s: string, fault: Option<Fault>)
    requires NeedsMoreHead(s)
    ensures StepOf(env, history, s, fault) == Stop(AtShortHead(env, history, s, fault))
  {
    hide AfterHead, ResponseText, ParseHead;
  }

  lemma EndsWith(before: string, env: Env, log: seq<Exchange>, e: Ending)
    ensures before + TraceText(env, Trace(log, e)) == before + ExchangesText(env, log) + EndingText(e)
    ensures !e.interim ==> EndingText(e) == e.reply
    ensures e.reply == "" && !e.interim ==> before + TraceText(env, Trace(log, e)) == before + ExchangesText(env, log)
  {
    hide ExchangesText;
    Assoc(before, ExchangesText(env, log), EndingText(e));
  }

  lemma NothingYet(env: Env, s: string, fault: Option<Fault>)
    ensures Calls([]) == [] && ExchangesText(env, []) == ""
    ensures Before([], Serve(env, [], s, fault)) == Serve(env, [], s, fault)
  {
    hide Serve;
    var t := Serve(env, [], s, fault);
    assert [] + t.exchanges == t.exchanges;
  }

  /** One round of `Serve` behind what has been served. */
  lemma ServeRound(env: Env, log: seq<Exchange>, s: string, fault: Option<Fault>)
    ensures var (step, t) := (StepOf(env, Calls(log), s, fault), Before(log, Serve(env, Calls(log), s, fault)));
      && (step.Stop? ==> t == Trace(log, step.ending))
      && (step.Served? ==> |step.rest| < |s|)
      && (step.Served? && step.exchange.directive.Close? ==> t == Trace(log + [step.exchange], HUNG_UP))
      && (step.Served? && step.exchange.directive.KeepAlive? ==>
            t == Before(log + [step.exchange], Serve(env, Calls(log + [step.exchange]), step.rest, fault)))
  {
    hide StepOf, Calls;
    var step := StepOf(env, Calls(log), s, fault);
    if step.Stop? {
      assert log + [] == log;
    } else {
      StepShrinks(env, Calls(log), s, fault);
      CallsSnoc(log, step.exchange);
      var later := Serve(env, Calls(log) + [step.exchange.request], step.rest, fault).exchanges;
      assert log + ([step.exchange] + later) == log + [step.exchange] + later;
    }
  }

  lemma CallsSnoc(log: seq<Exchange>, x: Exchange)
    ensures Calls(log + [x]) == Calls(log) + [x.request]
  {
  }

  lemma Extended(before: string, env: Env, log: seq<Exchange>, x: Exchange)
    ensures before + ExchangesText(env, log + [x]) == before + ExchangesText(env, log) + ExchangeText(env, x)
  {
    hide ExchangeText;
    assert (log + [x])[..|log|] == log;
    Assoc(before, ExchangesText(env, log), ExchangeText(env, x));
  }

  /** Error replies cannot fail to encode: they set no framing field and stream nothing. */
  lemma ErrorResponseEncodes(status: nat, message: string)
    ensures !Conflicting(ErrorResponse(status, message))
    ensures forall reasons, date :: ResponseText(ErrorResponse(status, message), reasons, GET, Close, date).error == None
  {
    hide HeadOf, FinalHeaders;
    assert |CONTENT_TYPE| == 12 && |CONTENT_LENGTH| == 14;
  }

  // ---------------------------------------------------------------- the connection

  class Connection {
    const env: Env
    const stream: Stream
    const buffer: Buffer

    constructor (env: Env, stream: Stream)
      ensures this.env == env && this.stream == stream && fresh(buffer) && buffer.data == ""
    {
      this.env, this.stream := env, stream;
      buffer := new Buffer();
    }

    /** All bytes that have not been consumed. */
    ghost function Input(): string
      reads stream, buffer
    {
      buffer.data + stream.unread
    }

    method RespondWithError(calls: nat, status: nat, message: string)
      modifies stream`written
      ensures stream.written == old(stream.written) + ErrorText(env, calls, status, message)
    {
      hide ResponseText;
      FramingKeysAreLower();
      var response := new Response.New(status);
      response.headers.Insert(CONTENT_TYPE, "text/plain; charset=utf-8");
      response.body := Full(message);
      assert response.Value() == ErrorResponse(status, message);
      ErrorResponseEncodes(status, message);
      var error := WriteResponse(stream, response, env.reasons, GET, Close, env.clock(calls));
      assert error == None;
    }

    /** Serves the request whose head has just been taken off the buffer: reads its body, calls the
        handler, applies preconditions and writes the response. */
    method Answer(history: seq<Request>, head: ParsedHead) 
      returns (stop: Option<RunResult>, served: Option<Request>, ghost step: Step)
      modifies stream, buffer
      ensures step == AfterHead(env, history, head, old(Input()), stream.fault)
      ensures match step
        case Stop(e) => stop == Some(e.result) && served == None && stream.written == old(stream.written) + EndingText(e)
        case Served(x, rest) =>
          && stop == (if x.directive.Close? then Some(Finished) else None)
          && served == Some(x.request) && Input() == rest
          && stream.written == old(stream.written) + ExchangeText(env, x)
    {
      hide Respond, ErrorText, ResponseText, ExpectsContinue, DecodeBody;
      BodyErrors(head.mode, Input());
      var interim := ExpectsContinue(head.headers);
      if interim {
        stream.WriteAll(CONTINUE_TEXT);
      }
      ghost var sent := stream.written;
      assert sent == old(stream.written) + Interim(interim);
      var request := RequestOf(head, "");
      served := None;
      if head.mode != NoBody {
        var body := ReadBody(head.mode, stream, buffer);
        if body.Err? {
          ghost var ending := AtBadBody(env, |history|, interim, body.error);
          if body.error == Interrupted(TimedOut) {
            RespondWithError(|history|, 408, "Request body timeout");
            stop := Some(TimeoutFailed(BodyTimeout));
          } else {
            RespondWithError(|history|, 400, "Malformed request body");
            stop := Some(BodyFailed(body.error));
          }
          Assoc(old(stream.written), Interim(interim), ending.reply);
          step := Stop(ending);
          return;
        }
        request := RequestOf(head, body.value);
      }
      stop, served, step := CallHandler(history, request, interim);
      Assoc(old(stream.written), Interim(interim), if step.Stop? then step.ending.reply else Reply(env, step.exchange).bytes);
    }

    /** The handler call, the preconditions, the close decision and the response. */
    method CallHandler(history: seq<Request>, request: Request, ghost interim: bool)
      returns (stop: Option<RunResult>, served: Option<Request>, ghost step: Step)
      modifies stream`written
      ensures step == Respond(env, history, request, interim, Input())
      ensures match step
        case Stop(e) => stop == Some(e.result) && served == None && e.interim == interim && stream.written == old(stream.written) + e.reply
        case Served(x, rest) =>
          && stop == (if x.directive.Close? then Some(Finished) else None)
          && served == Some(request) && x.request == request && x.interim == interim && rest == Input()
          && stream.written == old(stream.written) + Reply(env, x).bytes
    {
      hide ResponseText, Conditioned, HasToken;
      var value := env.handler(history + [request]);
      var response := new Response.From(value);
      if response.status < 400 {
        ApplyRequestPreconditions(request, response, env.parseDate);
      }
      assert response.Value() == Answered(env, history, request);
      var directive := if ShouldCloseAfterRequest(request.version, request.headers) || ResponseRequestsClose(response.headers.Iter())
                       then Close else KeepAlive;
      if request.version != Http11 {
        directive := Close;
      }
      var error := WriteResponse(stream, response, env.reasons, request.verb, directive, env.clock(|history|));
      step := Respond(env, history, request, interim, Input());
      if error.Some? {
        return Some(EncodeFailed(error.value)), None, step;
      }
      return if directive == Close then Some(Finished) else None, Some(request), step;
    }

    /** Drives the connection. However the input is cut into reads, the handler calls, the bytes written
        and the result are those of the interpreter on the whole input and on what ends it. */
    method Run() returns (result: RunResult, ghost log: seq<Exchange>, ghost ending: Ending)
      modifies stream, buffer
      ensures result == ending.result
      ensures stream.written == old(stream.written) + TraceText(env, Trace(log, ending))
      ensures Trace(log, ending) == Serve(env, [], old(Input()), stream.fault)
    {
      hide StepOf, TraceText, ExchangesText, ExchangeText, EndingText, Serve, Calls, Before;
      log := [];
      var processed := false;
      var history: seq<Request> := [];
      NothingYet(env, Input(), stream.fault);
      assert stream.written + "" == stream.written;
      while true
        invariant history == Calls(log) && processed == (history != [])
        invariant Serve(env, [], old(Input()), stream.fault) == Before(log, Serve(env, history, Input(), stream.fault))
        invariant stream.written == old(stream.written) + ExchangesText(env, log)
        decreases |Input()|, |stream.unread|
      {
        ServeRound(env, log, Input(), stream.fault);
        ghost var step;
        var stop, served;
        stop, served, step := Round(history, processed);
        if served.Some? {
          Extended(old(stream.written), env, log, step.exchange);
          CallsSnoc(log, step.exchange);
          log := log + [step.exchange];
          history := history + [served.value];
          processed := true;
        }
        if stop.Some? {
          result := stop.value;
          ending := if step.Stop? then step.ending else HUNG_UP;
          EndsWith(old(stream.written), env, log, ending);
          return;
        }
      }
    }

    /** One iteration: a read towards a head, or a whole exchange. */
    method Round(history: seq<Request>, processed: bool)
      returns (stop: Option<RunResult>, served: Option<Request>, ghost step: Step)
      requires processed == (history != [])
      modifies stream, buffer
      ensures stop.None? && served.None? ==>
        && Input() == old(Input()) && stream.written == old(stream.written)
        && |stream.unread| < |old(stream.unread)|
      ensures stop.Some? || served.Some? ==> step == StepOf(env, history, old(Input()), stream.fault)
      ensures stop.Some? && served.None? ==>
        && step.Stop? && stop.value == step.ending.result && stream.written == old(stream.written) + EndingText(step.ending)
      ensures served.Some? ==>
        && step.Served?
        && served.value == step.exchange.request && Input() == step.rest
        && stop == (if step.exchange.directive.Close? then Some(Finished) else None)
        && stream.written == old(stream.written) + ExchangeText(env, step.exchange)
    {
      hide StepOf, AfterHead, ErrorText, ResponseText, ExchangeText, ParseHead;
      ghost var ending;
      step := Stop(HUNG_UP);
      served := None;
      var result;
      if IncompleteHeadExceedsLimit(buffer.data) {
        RefusedEarly(env, history, buffer.data, stream.unread, stream.fault);
        result, ending := Refuse(|history|, HeaderTooLarge);
        return Some(result), None, Stop(ending);
      }
      if NeedsMoreHead(buffer.data) {
        stop, ending := ReadMore(history, processed);
        return stop, None, Stop(ending);
      }
      HeadArrived(env, history, buffer.data, stream.unread, stream.fault);
      var parsed := ParseRequestHead(buffer.data);
      if parsed.Err? {
        result, ending := Refuse(|history|, parsed.error);
        return Some(result), None, Stop(ending);
      }
      buffer.data := buffer.data[parsed.value.consumed..];
      stop, served, step := Answer(history, parsed.value);
    }

    /** One read towards a complete head, with the timer that applies to it. */
    method ReadMore(history: seq<Request>, processed: bool) returns (stop: Option<RunResult>, ghost ending: Ending)
      requires NeedsMoreHead(buffer.data) && !IncompleteHeadExceedsLimit(buffer.data)
      requires processed == (history != [])
      modifies stream, buffer
      ensures stop.None? ==>
        && Input() == old(Input()) && stream.written == old(stream.written)
        && |stream.unread| < |old(stream.unread)|
      ensures stop.Some? ==> stop.value == ending.result && stream.written == old(stream.written) + EndingText(ending)
      ensures stop.Some? ==> StepOf(env, history, old(Input()), stream.fault) == Stop(ending)
    {
      hide StepOf, ErrorText, ResponseText, HeadEnd;
      ending := HUNG_UP;
      var kind := if buffer.data == "" && processed then IdleTimeout else HeaderTimeout;
      ghost var arrived := buffer.data;
      var read := stream.ReadBuf(buffer);
      if read.Err? || read.value == 0 {
        assert buffer.data == arrived && Input() == buffer.data;
        ShortHead(env, history, Input(), stream.fault);
      }
      if read.Err? {
        if read.error == Failed {
          ending := Ending(false, None, "", IoFailed);
          return Some(IoFailed), ending;
        }
        RespondWithError(|history|, 408, "Request timeout");
        ending := Ending(false, None, ErrorText(env, |history|, 408, "Request timeout"), TimeoutFailed(kind));
        return Some(TimeoutFailed(kind)), ending;
      }
      var result;
      if read.value == 0 {
        if buffer.data == "" {
          return Some(Finished), ending;
        }
        result, ending := Refuse(|history|, Incomplete);
        return Some(result), ending;
      }
      if IncompleteHeadExceedsLimit(buffer.data) {
        RefusedEarly(env, history, buffer.data, stream.unread, stream.fault);
        result, ending := Refuse(|history|, HeaderTooLarge);
        return Some(result), ending;
      }
      return None, ending;
    }

    /** Answers a head that cannot be served. */
    method Refuse(calls: nat, error: ParseError) returns (result: RunResult, ghost ending: Ending)
      modifies stream`written
      ensures result == ParseFailed(error) && ending == Ending(false, None, BadRequest(env, calls), result)
      ensures stream.written == old(stream.written) + ending.reply
    {
      RespondWithError(calls, 400, "Bad Request");
      result := ParseFailed(error);
      ending := Ending(false, None, BadRequest(env, calls), result);
    }
  }
}
