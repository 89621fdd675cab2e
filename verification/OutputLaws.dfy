/** The whole output of a run, read by the client. */
module OutputLaws {
  import opened Wrappers
  import opened Text
  import opened HeaderFields
  import opened RequestHead
  import opened FieldText
  import opened Transport
  import opened BodyReaders
  import opened Encode
  import opened BodyLaws
  import opened Preconditions
  import opened PreconditionLaws
  import opened EncodeLaws
  import opened Conn
  import opened ConnLaws
  import opened Client
  import opened ClientLaws

  // ---------------------------------------------------------------- well-behaved environments

  /** The handler uses clean fields and reasons, sends no interim status, and frames its responses right, which it
      does if it leaves framing to the encoder; dates and reason phrases are clean. */
  ghost predicate CleanEnv(env: Env) {
    && (forall h: seq<Request> :: Clean(env.handler(h)))
    && (forall h: seq<Request> :: h != [] ==> FinalFor(env.handler(h), h[|h| - 1].verb))
    && (forall n :: ReadableValue(DATE, env.clock(n)))
    && (forall n :: PlainReason(env.reasons(n)))
  }

  /** A final response, well framed. */
  predicate FinalFor(r: ResponseValue, m: Method) {
    r.status >= 200 && WellFramed(r, m)
  }

  /** There is such an environment: a handler that answers 404 to everything. */
  lemma CleanEnvExists() returns (env: Env)
    ensures CleanEnv(env)
  {
    hide ReadablePair, Clean, WellFramed;
    NotFoundClean();
    env := Env((h: seq<Request>) => NOT_FOUND, (n: nat) => "", (n: nat) => "now", (s: string) => None);
  }

  const NOT_FOUND: ResponseData := ResponseValue(Http11, 404, None, [], Empty, None)

  lemma NotFoundClean()
    ensures Clean(NOT_FOUND) && (forall m :: WellFramed(NOT_FOUND, m)) && ReadableValue(DATE, "now") && PlainReason("")
  {
    FramingKeysAreLower();
    TokenValue(DATE, "now");
  }

  /** What makes one exchange readable. */
  predicate Decodable(env: Env, x: Exchange) {
    && Clean(x.response) && ReadableValue(DATE, x.date)
    && PlainReason(ReasonOf(x.response.reason, x.response.status, env.reasons))
    && FinalFor(x.response, x.request.verb)
  }

  lemma ConditionedClean(req: Request, r: ResponseValue, parse: DateParser)
    requires Clean(r) && FinalFor(r, req.verb)
    ensures Clean(Conditioned(req, r, parse)) && FinalFor(Conditioned(req, r, parse), req.verb)
    ensures Conditioned(req, r, parse).reason == r.reason
  {
    hide Decide, ReadablePair, StatedLength, ReadCodings, HasToken;
    var d := Decide(req, r.headers, parse);
    if d.Some? {
      var h := r.headers;
      DropReadable(h, CONTENT_LENGTH);
      DropReadable(Drop(h, CONTENT_LENGTH), TRANSFER_ENCODING);
      DropReadable(Drop(Drop(h, CONTENT_LENGTH), TRANSFER_ENCODING), CONTENT_TYPE);
      StripLaws(h, d.value);
    }
  }

  lemma AnswerDecodable(env: Env, history: seq<Request>, x: Exchange)
    requires CleanEnv(env) && Faithful(env, history, x)
    ensures Decodable(env, x)
  {
    hide ResponseText, Conditioned, Clean, FinalFor, ReadablePair, DirectiveFor, ExpectsContinue, Reply;
    var h := history + [x.request];
    assert h[|h| - 1] == x.request;
    var r := env.handler(h);
    assert Clean(r) && FinalFor(r, x.request.verb);
    ConditionedClean(x.request, r, env.parseDate);
    CleanReason(r);
  }

  lemma CleanReason(r: ResponseValue)
    requires Clean(r)
    ensures r.reason.Some? ==> PlainReason(r.reason.value)
  {
  }

  // ---------------------------------------------------------------- interim and error replies

  const CONTINUE_MESSAGE := Message("HTTP/1.1", 100, "Continue", [], "", [])

  lemma Hundred()
    ensures ToDecimal(100) == "100"
  {
    assert ToDigits(1, 10) == "1" && ToDigits(10, 10) == "10";
  }

  lemma NoFields()
    ensures PrintFields([]) == CRLF
  {
  }

  lemma ContinueText()
    ensures HeadOf(Http11, 100, "Continue", []) == CONTINUE_TEXT
  {
    hide ToDigits, PrintFields;
    Hundred();
    NoFields();
    assert CONTINUE_TEXT == "HTTP/1.1 100" + " Continue" + (CRLF + CRLF);
    assert "HTTP/1.1" + " " + "100" == "HTTP/1.1 100" && " " + "Continue" == " Continue";
    Assoc("HTTP/1.1 100" + " Continue", CRLF, CRLF);
  }

  lemma ContinueRead(m: Method, more: string)
    ensures ReadMessage(m, CONTINUE_TEXT + more) == Some(Received(CONTINUE_MESSAGE, more))
  {
    hide ReadMessage, HeadOf;
    ContinueText();
    HeadRead(m, Http11, 100, "Continue", [], more);
  }

  lemma PlainTextIsReadable()
    ensures ReadableValue(CONTENT_TYPE, "text/plain; charset=utf-8")
  {
    hide Utf8;
    var value := "text/plain; charset=utf-8";
    FramingKeysAreLower();
    PlainTextBytes();
    Utf8Ascii(value);
    assert IsToken(CONTENT_TYPE);
    assert value[0] == 't' && value[|value| - 1] == '8';
  }

  lemma PlainTextBytes()
    ensures forall c :: c in "text/plain; charset=utf-8" ==> 0x20 <= c as int < 0x7F
  {
  }

  lemma ErrorClean(status: nat, message: string, m: Method)
    requires status >= 400
    ensures Clean(ErrorResponse(status, message)) && WellFramed(ErrorResponse(status, message), m)
  {
    hide ReadablePair, StatedLength, ReadCodings, HasToken;
    PlainTextIsReadable();
    FramingKeysAreLower();
    assert |CONTENT_TYPE| == 12 && |CONTENT_LENGTH| == 14 && |TRANSFER_ENCODING| == 17;
  }

  /** The error reply as the client is meant to understand it when it takes it for the answer to `m`. */
  function ErrorTold(env: Env, calls: nat, status: nat, message: string, m: Method): Message {
    Meant(ErrorResponse(status, message), env.reasons, m, Close, env.clock(calls))
  }

  lemma ErrorToldStatus(env: Env, calls: nat, status: nat, message: string, m: Method)
    ensures ErrorTold(env, calls, status, message, m).status == status
  {
    hide FinalHeaders;
  }

  lemma FramedAsForGet(r: ResponseValue, reasons: Reasons, m: Method, d: Directive, date: string)
    requires !m.HEAD?
    ensures ResponseText(r, reasons, m, d, date) == ResponseText(r, reasons, GET, d, date)
  {
    hide HeadOf, Directed, PutIfAbsent, PayloadText;
    assert AllowsBody(r.status, m) == AllowsBody(r.status, GET);
    var h := Directed(PutIfAbsent(r.headers, DATE, date), d);
    assert Framed(h, r.status, m, r.body) == Framed(h, r.status, GET, r.body);
    assert HeadText(r, reasons, m, d, date) == HeadText(r, reasons, GET, d, date);
    assert BodyText(r, m) == BodyText(r, GET);
  }

  /** An error reply read as the answer to any method: the whole message is recovered, and only after HEAD
      is its body mistaken for what follows. */
  lemma ErrorRead(env: Env, calls: nat, status: nat, message: string, m: Method)
    requires CleanEnv(env) && 400 <= status <= 599
    ensures ReadMessage(m, ErrorText(env, calls, status, message))
         == Some(Received(ErrorTold(env, calls, status, message, m), if m.HEAD? then message else ""))
  {
    hide ResponseText, ReadMessage, ErrorResponse, Clean, WellFramed, ReadablePair, Meant;
    var r, date := ErrorResponse(status, message), env.clock(calls);
    assert PlainReason(env.reasons(status)) && ReadableValue(DATE, date);
    ErrorClean(status, message, m);
    ErrorShape(status, message);
    var text := ResponseText(r, env.reasons, m, Close, date).bytes;
    if m.HEAD? {
      HeadAgreesWithGet(r, env.reasons, Close, date);
      MessageRead(r, env.reasons, HEAD, Close, date, message);
    } else {
      FramedAsForGet(r, env.reasons, m, Close, date);
      MessageRead(r, env.reasons, m, Close, date, "");
      assert text + "" == text;
    }
  }

  /** What an error reply says: the status with its canonical reason, the text as plain text with its length, and
      that the connection closes. */
  lemma ErrorContents(env: Env, calls: nat, status: nat, message: string, m: Method)
    requires 400 <= status <= 599
    ensures var (told, h) := (ErrorTold(env, calls, status, message, m), ErrorTold(env, calls, status, message, m).headers);
      && told.version == "HTTP/1.1" && told.status == status && told.reason == env.reasons(status) && told.trailers == []
      && told.body == (if m == HEAD then "" else message)
      && Values(h, CONTENT_TYPE) == ["text/plain; charset=utf-8"] && Values(h, CONTENT_LENGTH) == [ToDecimal(|message|)]
      && Values(h, TRANSFER_ENCODING) == [] && Values(h, CONNECTION) == ["close"] && Values(h, DATE) == [env.clock(calls)]
  {
    hide Framed, ToDecimal, HasToken, ErrorResponse, PutIfAbsent, Directed;
    var r, date := ErrorResponse(status, message), env.clock(calls);
    ErrorShape(status, message);
    ErrorFields(status, message);
    var g := Directed(PutIfAbsent(r.headers, DATE, date), Close);
    OtherFieldsSent(r, m, Close, date, CONTENT_TYPE);
    DirectedWellFormed(r.headers, Close, date);
    FramingOutcome(g, status, m, r.body);
    UntouchedFraming(r.headers, Close, date);
    FramingKeeps(g, status, m, r.body, CONNECTION);
    ClosedFields(r.headers, date);
  }

  lemma ErrorFields(status: nat, message: string)
    ensures var h := ErrorResponse(status, message).headers;
      && WellFormed(h) && Values(h, CONTENT_TYPE) == ["text/plain; charset=utf-8"] && !EncoderField(CONTENT_TYPE)
      && !Has(h, DATE) && !Has(h, CONTENT_LENGTH) && !Has(h, TRANSFER_ENCODING)
      && CONNECTION != CONTENT_LENGTH && CONNECTION != TRANSFER_ENCODING
  {
    FramingKeysAreLower();
    assert |CONTENT_TYPE| == 12 && |CONTENT_LENGTH| == 14 && |TRANSFER_ENCODING| == 17 && |DATE| == 4 && |CONNECTION| == 10;
  }

  lemma ClosedFields(h: FieldList, date: string)
    ensures Values(Directed(PutIfAbsent(h, DATE, date), Close), CONNECTION) == ["close"]
  {
    PutLaws(PutIfAbsent(h, DATE, date), CONNECTION, ["close"], CONNECTION);
  }

  lemma ErrorShape(status: nat, message: string)
    ensures var r := ErrorResponse(status, message);
            r.status == status && r.body == Full(message) && r.reason == None && r.version == Http11 && r.trailers == None
  {
  }

  // ---------------------------------------------------------------- sequences of exchanges

  function Verbs(xs: seq<Exchange>): seq<Method> {
    if xs == [] then [] else [xs[0].request.verb] + Verbs(xs[1..])
  }

  function InterimMessages(sent: bool): seq<Message> {
    if sent then [CONTINUE_MESSAGE] else []
  }

  /** The response of an exchange as the client is meant to understand it. */
  function FinalTold(env: Env, x: Exchange): Message {
    Meant(x.response, env.reasons, x.request.verb, x.directive, x.date)
  }

  function Told(env: Env, x: Exchange): seq<Message> {
    InterimMessages(x.interim) + [FinalTold(env, x)]
  }

  /** The client uses the connection no more after this exchange. */
  predicate Ends(env: Env, x: Exchange) {
    IsLast(FinalTold(env, x))
  }

  /** The first exchange after which the client stops. */
  function FirstEnd(env: Env, xs: seq<Exchange>): (k: Option<nat>)
    ensures k.Some? ==> k.value < |xs| && Ends(env, xs[k.value])
    ensures forall i :: 0 <= i < (if k.Some? then k.value else |xs|) ==> !Ends(env, xs[i])
  {
    hide Ends;
    if xs == [] then None
    else if Ends(env, xs[0]) then Some(0)
    else match FirstEnd(env, xs[1..])
      case None => None
      case Some(k) => Some(k + 1)
  }

  function AllTold(env: Env, xs: seq<Exchange>): seq<Message> {
    if xs == [] then [] else Told(env, xs[0]) + AllTold(env, xs[1..])
  }

  function Ahead(ms: seq<Message>, c: Option<Conversation>): Option<Conversation> {
    match c
    case None => None
    case Some(v) => Some(Conversation(ms + v.messages, v.rest))
  }

  lemma ReadInterim(sent: bool, methods: seq<Method>, more: string)
    requires methods != []
    ensures ReadAll(methods, Interim(sent) + more) == Ahead(InterimMessages(sent), ReadAll(methods, more))
  {
    hide ReadMessage;
    if sent {
      ContinueRead(methods[0], more);
    } else {
      assert "" + more == more;
      var c := ReadAll(methods, more);
      assert c.Some? ==> [] + c.value.messages == c.value.messages;
    }
  }

  lemma ReadReply(env: Env, x: Exchange, methods: seq<Method>, more: string)
    requires Decodable(env, x)
    ensures ReadAll([x.request.verb] + methods, Reply(env, x).bytes + more) ==
            if Ends(env, x) then Some(Conversation([FinalTold(env, x)], more))
            else Ahead([FinalTold(env, x)], ReadAll(methods, more))
  {
    hide ReadMessage, ResponseText, Clean, WellFramed, ReadablePair, FinalHeaders, HasToken;
    var all := [x.request.verb] + methods;
    assert all[1..] == methods;
    MessageRead(x.response, env.reasons, x.request.verb, x.directive, x.date, more);
  }

  lemma ReadExchange(env: Env, x: Exchange, methods: seq<Method>, more: string)
    requires Decodable(env, x)
    ensures ReadAll([x.request.verb] + methods, ExchangeText(env, x) + more) ==
            if Ends(env, x) then Some(Conversation(Told(env, x), more)) else Ahead(Told(env, x), ReadAll(methods, more))
  {
    hide ReadAll, ResponseText, Decodable, Ends, FinalTold, Reply;
    var reply := Reply(env, x).bytes;
    Assoc(Interim(x.interim), reply, more);
    ReadInterim(x.interim, [x.request.verb] + methods, reply + more);
    ReadReply(env, x, methods, more);
    var c := ReadAll(methods, more);
    assert c.Some? ==> InterimMessages(x.interim) + ([FinalTold(env, x)] + c.value.messages) == Told(env, x) + c.value.messages;
  }

  lemma {:induction false} TextCons(env: Env, x: Exchange, xs: seq<Exchange>)
    ensures ExchangesText(env, [x] + xs) == ExchangeText(env, x) + ExchangesText(env, xs)
  {
    hide ExchangeText;
    if xs == [] {
      assert ([x] + xs)[..0] == [];
    } else {
      var n := |xs| - 1;
      TextCons(env, x, xs[..n]);
      assert ([x] + xs)[..n + 1] == [x] + xs[..n];
      Assoc(ExchangeText(env, x), ExchangesText(env, xs[..n]), ExchangeText(env, xs[n]));
    }
  }

  lemma {:induction false} ReadExchanges(env: Env, xs: seq<Exchange>, methods: seq<Method>, more: string)
    requires forall i :: 0 <= i < |xs| ==> Decodable(env, xs[i]) && !Ends(env, xs[i])
    ensures ReadAll(Verbs(xs) + methods, ExchangesText(env, xs) + more) == Ahead(AllTold(env, xs), ReadAll(methods, more))
    decreases |xs|
  {
    hide ReadAll, ExchangeText, Told, Decodable, Ends;
    if xs == [] {
      assert [] + methods == methods && "" + more == more;
      var c := ReadAll(methods, more);
      assert c.Some? ==> [] + c.value.messages == c.value.messages;
    } else {
      var x, tail := xs[0], xs[1..];
      assert xs == [x] + tail;
      TextCons(env, x, tail);
      Assoc(ExchangeText(env, x), ExchangesText(env, tail), more);
      assert Verbs(xs) + methods == [x.request.verb] + (Verbs(tail) + methods);
      ReadExchange(env, x, Verbs(tail) + methods, ExchangesText(env, tail) + more);
      ReadExchanges(env, tail, methods, more);
      var c := ReadAll(methods, more);
      assert c.Some? ==> Told(env, x) + (AllTold(env, tail) + c.value.messages) == AllTold(env, xs) + c.value.messages;
    }
  }

  lemma AllToldOne(env: Env, x: Exchange, xs: seq<Exchange>)
    ensures AllTold(env, [x] + xs) == Told(env, x) + AllTold(env, xs)
    ensures Verbs([x] + xs) == [x.request.verb] + Verbs(xs)
  {
    assert ([x] + xs)[1..] == xs;
  }

  /** The client stops behind the first exchange that ends the connection for it. */
  lemma {:induction false} ReadUntilEnd(env: Env, xs: seq<Exchange>, k: nat, methods: seq<Method>, more: string)
    requires k < |xs| && Ends(env, xs[k]) && forall i :: 0 <= i < k ==> !Ends(env, xs[i])
    requires forall i :: 0 <= i < |xs| ==> Decodable(env, xs[i])
    ensures ReadAll(Verbs(xs) + methods, ExchangesText(env, xs) + more)
         == Some(Conversation(AllTold(env, xs[..k + 1]), ExchangesText(env, xs[k + 1..]) + more))
    decreases k
  {
    hide ReadAll, ExchangeText, ExchangesText, Told, AllTold, Decodable, Ends, Verbs;
    var x, tail := xs[0], xs[1..];
    assert xs == [x] + tail;
    TextCons(env, x, tail);
    Assoc(ExchangeText(env, x), ExchangesText(env, tail), more);
    AllToldOne(env, x, tail);
    assert [x.request.verb] + Verbs(tail) + methods == [x.request.verb] + (Verbs(tail) + methods);
    ReadExchange(env, x, Verbs(tail) + methods, ExchangesText(env, tail) + more);
    AllToldOne(env, x, tail[..k]);
    assert xs[..k + 1] == [x] + tail[..k] && xs[k + 1..] == tail[k..];
    if k == 0 {
      NoneTold(env);
      assert tail[..0] == [] && tail[0..] == tail && Told(env, x) + [] == Told(env, x);
    } else {
      assert forall i :: 0 <= i < |tail| ==> tail[i] == xs[i + 1];
      ReadUntilEnd(env, tail, k - 1, methods, more);
    }
  }

  lemma NoneTold(env: Env)
    ensures AllTold(env, []) == []
  {
  }

  // ---------------------------------------------------------------- how conversations end

  /** The status and text of the error reply that a result comes with, if it comes with one. */
  function FinalError(result: RunResult): Option<(nat, string)> {
    match result
    case ParseFailed(_) => Some((400, "Bad Request"))
    case BodyFailed(_) => Some((400, "Malformed request body"))
    case TimeoutFailed(BodyTimeout) => Some((408, "Request body timeout"))
    case TimeoutFailed(_) => Some((408, "Request timeout"))
    case _ => None
  }

  /** The ending of a run that no response broke off: silence, or a single error reply. */
  predicate EndsProperly(env: Env, calls: nat, fault: Option<Fault>, e: Ending) {
    && e.call.None?
    && (e.result.IoFailed? ==> fault == Some(Failed))
    && (e.result.TimeoutFailed? ==> fault == Some(TimedOut))
    && match FinalError(e.result)
       case None => (e.result.Finished? || e.result.IoFailed?) && e.reply == "" && !e.interim
       case Some((status, message)) => e.reply == ErrorText(env, calls, status, message)
  }

  lemma BadBodyEnds(env: Env, calls: nat, interim: bool, error: BodyError, fault: Option<Fault>)
    requires error != Interrupted(TimedOut)
    ensures EndsProperly(env, calls, fault, AtBadBody(env, calls, interim, Reported(error, fault)))
  {
    hide ErrorText;
  }

  lemma StepEnds(env: Env, history: seq<Request>, s: string, fault: Option<Fault>)
    ensures var step := StepOf(env, history, s, fault);
            step.Stop? ==> step.ending.result.EncodeFailed? || EndsProperly(env, |history|, fault, step.ending)
    ensures var step := StepOf(env, history, s, fault);
            CleanEnv(env) && step.Stop? ==> !step.ending.result.EncodeFailed?
  {
    hide ParseHead, DecodeBody, ErrorText, CleanEnv, ExpectsContinue, HeadEnd, AtBadBody, ResponseText, Answered;
    if !NeedsMoreHead(s) && ParseHead(s).Ok? {
      var head := ParseHead(s).value;
      var tail := s[head.consumed..];
      var d := DecodeBody(head.mode, tail);
      var interim := ExpectsContinue(head.headers);
      if d.end.Ok? {
        if CleanEnv(env) {
          AlwaysServed(env, history, RequestOf(head, d.data), interim, d.end.value.rest);
        }
      } else {
        BodyErrors(head.mode, tail);
        BadBodyEnds(env, |history|, interim, d.end.error, fault);
      }
    }
  }

  /** Clean handlers are never cut short by the encoder. */
  lemma AlwaysServed(env: Env, history: seq<Request>, request: Request, interim: bool, rest: string)
    requires CleanEnv(env)
    ensures Respond(env, history, request, interim, rest).Served?
  {
    hide ResponseText, Conditioned, Clean, WellFramed, ReadablePair, DirectiveFor;
    var h := history + [request];
    assert h[|h| - 1] == request;
    var r := env.handler(h);
    assert Clean(r) && FinalFor(r, request.verb);
    ConditionedClean(request, r, env.parseDate);
    CleanReason(r);
    var a := Answered(env, history, request);
    var date := env.clock(|history|);
    assert ReadableValue(DATE, date);
    MessageRead(a, env.reasons, request.verb, DirectiveFor(request.version, request.headers, a.headers), date, "");
  }

  /** Every run ends in silence or with a single error reply, unless a response broke it off, which clean
      handlers never cause. */
  lemma {:induction false} ServeEnds(env: Env, history: seq<Request>, s: string, fault: Option<Fault>)
    ensures var t := Serve(env, history, s, fault);
            && (t.ending.result.EncodeFailed? || EndsProperly(env, |history| + |t.exchanges|, fault, t.ending))
            && (CleanEnv(env) ==> !t.ending.result.EncodeFailed?)
    decreases |s|
  {
    hide StepOf, EndsProperly, CleanEnv;
    StepEnds(env, history, s, fault);
    var step := StepOf(env, history, s, fault);
    if step.Served? {
      if step.exchange.directive.KeepAlive? {
        StepShrinks(env, history, s, fault);
        ServeEnds(env, history + [step.exchange.request], step.rest, fault);
      } else {
        HangUpEnds(env, |history| + 1, fault);
      }
    }
  }

  lemma HangUpEnds(env: Env, calls: nat, fault: Option<Fault>)
    ensures EndsProperly(env, calls, fault, HUNG_UP) && HUNG_UP.result == Finished
  {
  }

  /** The input behind the last completed exchange, unless that one closed the connection. */
  function Behind(env: Env, history: seq<Request>, s: string, fault: Option<Fault>): Option<string>
    decreases |s|
  {
    match StepOf(env, history, s, fault)
    case Stop(_) => Some(s)
    case Served(x, rest) =>
      if x.directive.Close? then None
      else
        StepShrinks(env, history, s, fault);
        Behind(env, history + [x.request], rest, fault)
  }

  lemma StepIdle(env: Env, history: seq<Request>, s: string, fault: Option<Fault>)
    ensures var step := StepOf(env, history, s, fault);
            step.Stop? && step.ending.result == TimeoutFailed(IdleTimeout) <==>
              s == "" && fault == Some(TimedOut) && history != []
    ensures s == "" ==> StepOf(env, history, s, fault) == Stop(AtShortHead(env, history, s, fault))
  {
    hide ParseHead, DecodeBody, ErrorText, ExpectsContinue, ResponseText, Answered;
  }

  /** When nothing was outstanding: once the input is used up, the run ends as a wait for a new request ends;
      and the idle timer is the one that ended it iff it expired there, behind at least one request. */
  lemma {:induction false} IdleExactly(env: Env, history: seq<Request>, s: string, fault: Option<Fault>)
    ensures var (t, left) := (Serve(env, history, s, fault), Behind(env, history, s, fault));
      var calls := history + Calls(t.exchanges);
      && (left == Some("") ==> t.ending == AtShortHead(env, calls, "", fault))
      && (t.ending.result == TimeoutFailed(IdleTimeout) <==> left == Some("") && fault == Some(TimedOut) && calls != [])
    decreases |s|
  {
    hide StepOf, ErrorText;
    var step := StepOf(env, history, s, fault);
    StepIdle(env, history, s, fault);
    var t := Serve(env, history, s, fault);
    if step.Stop? {
      assert history + Calls(t.exchanges) == history;
    } else if step.exchange.directive.KeepAlive? {
      var x := step.exchange;
      StepShrinks(env, history, s, fault);
      IdleExactly(env, history + [x.request], step.rest, fault);
      var later := Serve(env, history + [x.request], step.rest, fault).exchanges;
      CallsShift(history, x, later, |later|);
      assert later[..|later|] == later && ([x] + later)[..|later| + 1] == t.exchanges;
    }
  }

  lemma ServeDecodable(env: Env, s: string, fault: Option<Fault>)
    requires CleanEnv(env)
    ensures var xs := Serve(env, [], s, fault).exchanges; forall i :: 0 <= i < |xs| ==> Decodable(env, xs[i])
  {
    hide Faithful, Decodable, CleanEnv, Serve;
    var xs := Serve(env, [], s, fault).exchanges;
    ServeFaithful(env, [], s, fault);
    forall i | 0 <= i < |xs| ensures Decodable(env, xs[i]) {
      AnswerDecodable(env, [] + Calls(xs[..i]), xs[i]);
    }
  }

  /** The client that knows which requests it sent recovers from the server's output every interim 100 and
      every response, in order, up to the first response that says `close` to it, behind which it does not read.
      If none does, nothing is left over but the error reply the run may have ended in. Taken for the answer to
      one request more, of method `last`, that reply is recovered too, in full, with nothing left over unless
      `last` is HEAD, and then the body is; a client without such a request is left with all of it. */
  lemma OutputDecodes(env: Env, s: string, fault: Option<Fault>, last: Method)
    requires CleanEnv(env)
    ensures var t := Serve(env, [], s, fault);
      var (xs, verbs, text) := (t.exchanges, Verbs(t.exchanges), TraceText(env, t));
      match FirstEnd(env, xs)
      case Some(k) =>
        && var heard := Some(Conversation(AllTold(env, xs[..k + 1]), ExchangesText(env, xs[k + 1..]) + EndingText(t.ending)));
           ReadAll(verbs, text) == heard && ReadAll(verbs + [last], text) == heard
      case None =>
        && ReadAll(verbs, text) == Some(Conversation(AllTold(env, xs), EndingText(t.ending)))
        && match FinalError(t.ending.result)
           case None => EndingText(t.ending) == ""
           case Some((status, message)) =>
             EndingText(t.ending) != "" &&
             ReadAll(verbs + [last], text) == Some(Conversation(
               AllTold(env, xs) + InterimMessages(t.ending.interim) + [ErrorTold(env, |xs|, status, message, last)],
               if last.HEAD? then message else ""))
  {
    hide Serve, CleanEnv, Decodable, Ends, ExchangesText, AllTold, ErrorText, ReadAll, EndingText, ErrorTold, EndsProperly, Verbs;
    var t := Serve(env, [], s, fault);
    var xs, e, n := t.exchanges, t.ending, |t.exchanges|;
    ServeDecodable(env, s, fault);
    ServeEnds(env, [], s, fault);
    assert Verbs(xs) + [] == Verbs(xs);
    match FirstEnd(env, xs) {
      case Some(k) =>
        ReadUntilEnd(env, xs, k, [], EndingText(e));
        ReadUntilEnd(env, xs, k, [last], EndingText(e));
      case None =>
        ReadExchanges(env, xs, [], EndingText(e));
        NoMoreToRead(env, t);
        ReadExchanges(env, xs, [last], EndingText(e));
        ReadEnding(env, n, fault, e, last);
        if FinalError(e.result).Some? {
          var told := ErrorTold(env, n, FinalError(e.result).value.0, FinalError(e.result).value.1, last);
          assert AllTold(env, xs) + (InterimMessages(e.interim) + [told]) == AllTold(env, xs) + InterimMessages(e.interim) + [told];
        }
    }
  }

  lemma NoMoreToRead(env: Env, t: Trace)
    ensures Ahead(AllTold(env, t.exchanges), ReadAll([], EndingText(t.ending)))
         == Some(Conversation(AllTold(env, t.exchanges), EndingText(t.ending)))
  {
    hide AllTold, EndingText;
    var told := AllTold(env, t.exchanges);
    assert told + [] == told;
  }

  /** The client stops behind an exchange iff the server closes there, or the answer says `close` in a Connection
      value behind the first, which the server does not look at. */
  lemma EndsMeaning(env: Env, history: seq<Request>, x: Exchange)
    requires Faithful(env, history, x) && x.response.status >= 200
    ensures Ends(env, x) <==> x.directive.Close? || LaterSaysClose(Values(x.response.headers, CONNECTION))
  {
    hide Answered, HasToken, ResponseText, FinalHeaders, Faithful;
    CloseOnEveryValue(env, history, x);
    assert Values(FinalHeaders(x.response, x.request.verb, x.directive, x.date), CONNECTION)
        == if x.directive.Close? then ["close"] else Values(x.response.headers, CONNECTION);
    CloseIsToken();
    LaterIsSome(Values(x.response.headers, CONNECTION));
    if x.directive.KeepAlive? {
      KeepAliveFirst(env, history, x);
    }
  }

  lemma LaterIsSome(values: seq<string>)
    ensures AnyHasToken(values, "close") <==> LaterSaysClose(values) || (values != [] && HasToken(values[0], "close"))
  {
    hide HasToken;
    if i :| 0 <= i < |values| && HasToken(values[i], "close") {
      assert i == 0 || LaterSaysClose(values);
    }
  }

  lemma KeepAliveFirst(env: Env, history: seq<Request>, x: Exchange)
    requires Faithful(env, history, x) && x.directive.KeepAlive?
    ensures !FirstHasToken(x.response.headers, CONNECTION, "close")
  {
    hide Answered, HasToken, ResponseText;
  }

  lemma ServeEndsMeaning(env: Env, s: string, fault: Option<Fault>)
    requires CleanEnv(env)
    ensures var t := Serve(env, [], s, fault);
      && ClosesLast(t)
      && forall i :: 0 <= i < |t.exchanges| ==>
           (Ends(env, t.exchanges[i]) <==>
              t.exchanges[i].directive.Close? || LaterSaysClose(Values(t.exchanges[i].response.headers, CONNECTION)))
  {
    hide Faithful, CleanEnv, Serve, Ends, LaterSaysClose, Clean, WellFramed;
    var xs := Serve(env, [], s, fault).exchanges;
    ServeFaithful(env, [], s, fault);
    forall i | 0 <= i < |xs|
      ensures Ends(env, xs[i]) <==> xs[i].directive.Close? || LaterSaysClose(Values(xs[i].response.headers, CONNECTION))
    {
      AnswerDecodable(env, [] + Calls(xs[..i]), xs[i]);
      EndsMeaning(env, [] + Calls(xs[..i]), xs[i]);
    }
  }

  lemma {:induction false} ToldGrows(env: Env, xs: seq<Exchange>, k: nat)
    requires k <= |xs|
    ensures |AllTold(env, xs[..k])| + |xs| - k <= |AllTold(env, xs)|
    decreases |xs|
  {
    hide FinalTold;
    if k == 0 {
      ToldLong(env, xs);
    } else {
      assert xs[..k] == [xs[0]] + xs[1..][..k - 1] && xs == [xs[0]] + xs[1..];
      AllToldOne(env, xs[0], xs[1..][..k - 1]);
      AllToldOne(env, xs[0], xs[1..]);
      ToldGrows(env, xs[1..], k - 1);
    }
  }

  lemma {:induction false} ToldLong(env: Env, xs: seq<Exchange>)
    ensures |AllTold(env, xs)| >= |xs|
  {
    hide FinalTold;
    if xs != [] {
      ToldLong(env, xs[1..]);
    }
  }

  /** Every response is recovered iff no answer but the last says `close` in a Connection value behind the first. */
  lemma AllRecovered(env: Env, s: string, fault: Option<Fault>)
    requires CleanEnv(env)
    ensures var t := Serve(env, [], s, fault);
      var xs := t.exchanges;
      ReadAll(Verbs(xs), TraceText(env, t)) == Some(Conversation(AllTold(env, xs), EndingText(t.ending))) <==>
        forall i :: 0 <= i < |xs| - 1 ==> !LaterSaysClose(Values(xs[i].response.headers, CONNECTION))
  {
    hide Serve, CleanEnv, Ends, ExchangesText, AllTold, ErrorText, ReadAll, EndingText, ErrorTold, Verbs, LaterSaysClose, TraceText;
    var t := Serve(env, [], s, fault);
    var xs, n := t.exchanges, |t.exchanges|;
    OutputDecodes(env, s, fault, GET);
    ServeEndsMeaning(env, s, fault);
    match FirstEnd(env, xs) {
      case None =>
      case Some(k) =>
        if k == n - 1 {
          assert xs[..k + 1] == xs && xs[k + 1..] == [];
          NothingYet(env, s, fault);
          assert "" + EndingText(t.ending) == EndingText(t.ending);
        } else {
          ToldGrows(env, xs, k + 1);
        }
    }
  }

  lemma ReadEnding(env: Env, calls: nat, fault: Option<Fault>, e: Ending, last: Method)
    requires CleanEnv(env) && EndsProperly(env, calls, fault, e)
    ensures match FinalError(e.result)
      case None => EndingText(e) == ""
      case Some((status, message)) =>
        && EndingText(e) != ""
        && ReadAll([last], EndingText(e)) == Some(Conversation(
             InterimMessages(e.interim) + [ErrorTold(env, calls, status, message, last)],
             if last.HEAD? then message else ""))
  {
    hide CleanEnv, ReadMessage, ErrorText, ErrorTold;
    if FinalError(e.result).Some? {
      var (status, message) := FinalError(e.result).value;
      ReadInterim(e.interim, [last], e.reply);
      ErrorRead(env, calls, status, message, last);
      var r := ReadMessage(last, e.reply).value;
      assert [last][1..] == [];
      ErrorToldStatus(env, calls, status, message, last);
      assert [r.message] + [] == [r.message];
      assert ReadAll([last], e.reply) == Some(Conversation([r.message], r.rest));
    }
  }

  /** A truncated HEAD request is answered by a 400 with a body, which the client that asked for HEAD cannot
      tell from the start of another response. */
  lemma HeadErrorLeavesBytes(env: Env)
    requires CleanEnv(env)
    ensures var t := Serve(env, [], "HEAD / HTTP/1.1\r\n", None);
      && t == Trace([], Ending(false, None, BadRequest(env, 0), ParseFailed(Incomplete)))
      && ReadAll([HEAD], TraceText(env, t)).Some?
      && ReadAll([HEAD], TraceText(env, t)).value.rest == "Bad Request"
  {
    hide CleanEnv, ReadAll, ErrorText, HeadEnd;
    var s := "HEAD / HTTP/1.1\r\n";
    assert s == "HEAD / HTTP/1.1" + CRLF;
    OneLineIsNoHead("HEAD / HTTP/1.1");
    OutputDecodes(env, s, None, HEAD);
    var t := Serve(env, [], s, None);
    assert Verbs(t.exchanges) + [HEAD] == [HEAD];
  }

  /** A peer that sends nothing in time is answered all the same, by a 408 to no request. */
  lemma SilenceIsAnswered(env: Env)
    requires CleanEnv(env)
    ensures var t := Serve(env, [], "", Some(TimedOut));
      && t == Trace([], Ending(false, None, ErrorText(env, 0, 408, "Request timeout"), TimeoutFailed(HeaderTimeout)))
      && ReadAll([], TraceText(env, t)) == Some(Conversation([], ErrorText(env, 0, 408, "Request timeout")))
      && ErrorText(env, 0, 408, "Request timeout") != ""
  {
    hide CleanEnv, ReadAll, ErrorText;
    ShortHead(env, [], "", Some(TimedOut));
    OutputDecodes(env, "", Some(TimedOut), GET);
    var t := Serve(env, [], "", Some(TimedOut));
    assert "" + t.ending.reply == t.ending.reply;
  }

  lemma OneLineIsNoHead(line: string)
    requires '\r' !in line
    ensures HeadEnd(line + CRLF) == None
  {
    var s := line + CRLF;
    forall j ensures !At(s, CRLFCRLF, j) {
      AtHead(s, CRLFCRLF, j);
      assert 0 <= j < |line| ==> s[j] == line[j];
    }
  }
}
