/** Properties of every conversation: keep-alive safety, and independence of what comes later. */
module ConnLaws {
  import opened Wrappers
  import opened Text
  import opened HeaderFields
  import opened RequestHead
  import opened GrammarLaws
  import opened Transport
  import opened BodyReaders
  import opened BodyLaws
  import opened Encode
  import opened EncodeLaws
  import opened Preconditions
  import opened PreconditionLaws
  import opened Conn

  // ---------------------------------------------------------------- keep-alive

  /** The exchange is what the handler, the preconditions and the close rules make of its request. */
  predicate Faithful(env: Env, history: seq<Request>, x: Exchange) {
    && x.response == Answered(env, history, x.request)
    && x.date == env.clock(|history|)
    && x.directive == DirectiveFor(x.request.version, x.request.headers, x.response.headers)
    && x.interim == ExpectsContinue(x.request.headers)
    && Reply(env, x).error == None
  }

  /** Only the last exchange may close, and then nothing at all is written after it. */
  predicate ClosesLast(t: Trace) {
    forall i :: 0 <= i < |t.exchanges| && t.exchanges[i].directive.Close? ==> i == |t.exchanges| - 1 && t.ending == HUNG_UP
  }

  lemma StepFaithful(env: Env, history: seq<Request>, s: string, fault: Option<Fault>)
    ensures var step := StepOf(env, history, s, fault); step.Served? ==> Faithful(env, history, step.exchange)
    ensures var step := StepOf(env, history, s, fault);
            step.Stop? && step.ending.reply == "" && !step.ending.interim && step.ending.result == Finished ==> step.ending == HUNG_UP
  {
    hide ParseHead, DecodeBody, ResponseText, Answered;
  }

  lemma {:induction false} ServeFaithful(env: Env, history: seq<Request>, s: string, fault: Option<Fault>)
    ensures var xs := Serve(env, history, s, fault).exchanges;
            forall i :: 0 <= i < |xs| ==> Faithful(env, history + Calls(xs[..i]), xs[i])
    ensures ClosesLast(Serve(env, history, s, fault))
    decreases |s|
  {
    hide StepOf, Faithful;
    var t := Serve(env, history, s, fault);
    var step := StepOf(env, history, s, fault);
    StepFaithful(env, history, s, fault);
    if step.Served? {
      var x := step.exchange;
      assert history + Calls(t.exchanges[..0]) == history;
      if x.directive.KeepAlive? {
        StepShrinks(env, history, s, fault);
        ServeFaithful(env, history + [x.request], step.rest, fault);
        var later := Serve(env, history + [x.request], step.rest, fault).exchanges;
        assert t.exchanges == [x] + later;
        forall i | 0 < i < |t.exchanges| ensures Faithful(env, history + Calls(t.exchanges[..i]), t.exchanges[i]) {
          CallsShift(history, x, later, i - 1);
        }
      }
    }
  }

  // ---------------------------------------------------------------- what is answered

  /** What becomes of the handler's response: an error goes out as it is; so does any other response that no
      precondition decides; and a decided one takes the status decided on, without body, trailers and framing. */
  ghost predicate RightAnswer(r: ResponseValue, request: Request, parse: DateParser, response: ResponseValue) {
    if r.status >= 400 then response == r
    else match Decide(request, r.headers, parse)
      case None => response == r
      case Some(status) => DecidedAnswer(r, status, response)
  }

  ghost predicate DecidedAnswer(r: ResponseValue, status: nat, response: ResponseValue) {
    && response == ResponseValue(r.version, status, r.reason, response.headers, Empty, None)
    && forall name :: Values(response.headers, name) ==
         if name == CONTENT_LENGTH || name == TRANSFER_ENCODING || (status == 304 && name == CONTENT_TYPE) then []
         else Values(r.headers, name)
  }

  lemma AnswerMeaning(env: Env, history: seq<Request>, request: Request)
    ensures RightAnswer(env.handler(history + [request]), request, env.parseDate, Answered(env, history, request))
  {
    hide Decide, StripFraming;
    var r := env.handler(history + [request]);
    match Decide(request, r.headers, env.parseDate) {
      case None =>
      case Some(status) =>
        forall name ensures Values(StripFraming(r.headers, status), name) ==
                            if name == CONTENT_LENGTH || name == TRANSFER_ENCODING || (status == 304 && name == CONTENT_TYPE) then []
                            else Values(r.headers, name)
        {
          StripExactly(r.headers, status, name);
        }
    }
  }

  /** In every run, each response is the right answer to its request, from what the handler makes of all requests up
      to and including it. */
  lemma ServedAnswers(env: Env, history: seq<Request>, s: string, fault: Option<Fault>)
    ensures var xs := Serve(env, history, s, fault).exchanges;
            forall i :: 0 <= i < |xs| ==>
              RightAnswer(env.handler(history + Calls(xs[..i + 1])), xs[i].request, env.parseDate, xs[i].response)
  {
    hide Serve, RightAnswer, Answered, Decide, DirectiveFor, ExpectsContinue, Reply;
    var xs := Serve(env, history, s, fault).exchanges;
    ServeFaithful(env, history, s, fault);
    forall i | 0 <= i < |xs|
      ensures RightAnswer(env.handler(history + Calls(xs[..i + 1])), xs[i].request, env.parseDate, xs[i].response)
    {
      var before := history + Calls(xs[..i]);
      assert Faithful(env, before, xs[i]);
      assert xs[..i + 1] == xs[..i] + [xs[i]];
      CallsSnoc(xs[..i], xs[i]);
      assert before + [xs[i].request] == history + Calls(xs[..i + 1]);
      AnswerMeaning(env, before, xs[i].request);
    }
  }

  lemma CallsShift(history: seq<Request>, x: Exchange, later: seq<Exchange>, i: nat)
    requires i <= |later|
    ensures history + [x.request] + Calls(later[..i]) == history + Calls(([x] + later)[..i + 1])
  {
    assert ([x] + later)[..i + 1] == [x] + later[..i];
    assert Calls([x] + later[..i]) == [x.request] + Calls(later[..i]);
  }

  /** When a response is sent with Close: exactly when the request is not HTTP/1.1, or the first
      Connection value of the request or of the response contains `close`. */
  lemma CloseMeaning(version: Version, request: FieldList, response: FieldList)
    ensures DirectiveFor(version, request, response) == Close <==>
              version != Http11 || FirstHasToken(request, CONNECTION, "close") || FirstHasToken(response, CONNECTION, "close")
  {
  }

  /** A value contains a token iff one of its comma-separated parts is the token, up to case and white space. */
  lemma TokenListMeaning(parts: seq<string>, token: string)
    requires parts != [] && forall p :: p in parts ==> ',' !in p
    ensures HasToken(Join(parts, ","), token) <==>
              exists i :: 0 <= i < |parts| && EqIgnoreCase(Trim(parts[i]), token)
  {
    hide Trim, EqIgnoreCase, Join, Split;
    SplitJoin(parts, ",");
  }

  /** The peer can see it: the first Connection value on the wire contains `close` iff the directive is Close. */
  lemma CloseIsVisible(env: Env, history: seq<Request>, x: Exchange)
    requires Faithful(env, history, x)
    ensures FirstHasToken(FinalHeaders(x.response, x.request.verb, x.directive, x.date), CONNECTION, "close")
            <==> x.directive == Close
  {
    hide Answered, HasToken, ResponseText;
    CloseMeaning(x.request.version, x.request.headers, x.response.headers);
    var h := Directed(PutIfAbsent(x.response.headers, DATE, x.date), x.directive);
    FramingKeeps(h, x.response.status, x.request.verb, x.response.body, CONNECTION);
    KeysDiffer();
    PutLaws(x.response.headers, DATE, [x.date], CONNECTION);
    PutLaws(PutIfAbsent(x.response.headers, DATE, x.date), CONNECTION, ["close"], CONNECTION);
    CloseIsToken();
  }

  /** A value behind the first one says `close`. */
  predicate LaterSaysClose(values: seq<string>) {
    exists i :: 1 <= i < |values| && HasToken(values[i], "close")
  }

  /** All Connection values on the wire: `close` alone when the connection closes, and else those of the answer.
      So `close` is said iff the connection closes, unless an answer that keeps it open says so in a value
      behind the first. */
  lemma CloseOnEveryValue(env: Env, history: seq<Request>, x: Exchange)
    requires Faithful(env, history, x)
    ensures var (wire, own) := (Values(FinalHeaders(x.response, x.request.verb, x.directive, x.date), CONNECTION),
                                Values(x.response.headers, CONNECTION));
      && wire == (if x.directive.Close? then ["close"] else own)
      && ((AnyHasToken(wire, "close") <==> x.directive.Close?) <==> x.directive.Close? || !LaterSaysClose(own))
  {
    hide Answered, HasToken, ResponseText;
    CloseMeaning(x.request.version, x.request.headers, x.response.headers);
    var h := Directed(PutIfAbsent(x.response.headers, DATE, x.date), x.directive);
    var own := Values(x.response.headers, CONNECTION);
    FramingKeeps(h, x.response.status, x.request.verb, x.response.body, CONNECTION);
    KeysDiffer();
    PutLaws(x.response.headers, DATE, [x.date], CONNECTION);
    PutLaws(PutIfAbsent(x.response.headers, DATE, x.date), CONNECTION, ["close"], CONNECTION);
    CloseIsToken();
    if x.directive.Close? {
      assert HasToken(["close"][0], "close");
    } else {
      if i :| 0 <= i < |own| && HasToken(own[i], "close") {
        assert i != 0;
      }
    }
  }

  lemma CloseIsToken()
    ensures HasToken("close", "close")
  {
    SplitWhole("close", ",");
    TrimOfGraphic("close");
    var parts := Split("close", ",");
    assert EqIgnoreCase(Trim(parts[0]), "close");
  }

  // ---------------------------------------------------------------- the interim response

  function InterimOf(step: Step): bool {
    match step
    case Stop(e) => e.interim
    case Served(x, _) => x.interim
  }

  lemma RespondInterim(env: Env, history: seq<Request>, request: Request, interim: bool, rest: string)
    ensures InterimOf(Respond(env, history, request, interim, rest)) == interim
  {
    hide ResponseText, Answered, DirectiveFor;
  }

  lemma BadBodyInterim(env: Env, calls: nat, interim: bool, error: BodyError)
    ensures AtBadBody(env, calls, interim, error).interim == interim
  {
    hide ErrorText;
  }

  lemma AfterHeadInterim(env: Env, history: seq<Request>, head: ParsedHead, s: string, fault: Option<Fault>)
    ensures InterimOf(AfterHead(env, history, head, s, fault)) == ExpectsContinue(head.headers)
  {
    hide DecodeBody, Respond, AtBadBody, ExpectsContinue;
    var d, interim := DecodeBody(head.mode, s), ExpectsContinue(head.headers);
    match d.end {
      case Err(e) => BadBodyInterim(env, |history|, interim, Reported(e, fault));
      case Ok(f) => RespondInterim(env, history, RequestOf(head, d.data), interim, f.rest);
    }
  }

  /** An interim 100 is sent iff the first Expect value of an accepted head asks for it, in any version; so the
      rule that clients of other versions get none (section 15.2 of RFC 9110) is kept iff they do not ask. */
  lemma InterimExactly(env: Env, history: seq<Request>, s: string, fault: Option<Fault>)
    requires ParseHead(s).Ok?
    ensures var (head, sent) := (ParseHead(s).value, InterimOf(StepOf(env, history, s, fault)));
      && (sent <==> FirstHasToken(head.headers, EXPECT, "100-continue"))
      && ((sent ==> head.line.version == Http11) <==>
            head.line.version == Http11 || !FirstHasToken(head.headers, EXPECT, "100-continue"))
  {
    hide ParseHead, AfterHead, HasToken;
    HeadArrived(env, history, s, "", fault);
    assert s + "" == s;
    var head := ParseHead(s).value;
    var tail := s[head.consumed..] + "";
    AfterHeadInterim(env, history, head, tail, fault);
  }

  // ---------------------------------------------------------------- the size limit

  lemma {:induction false} LinesNeverTooLarge(acc: Reading, lines: seq<string>)
    ensures ReadLines(acc, lines).Err? ==> ReadLines(acc, lines).error != HeaderTooLarge
    decreases |lines|
  {
    hide HeadField, Note;
    if lines != [] && lines[0] != "" {
      LineNeverTooLarge(acc, lines[0]);
      if ReadLine(acc, lines[0]).Ok? {
        LinesNeverTooLarge(ReadLine(acc, lines[0]).value, lines[1..]);
      }
    }
  }

  lemma LineNeverTooLarge(acc: Reading, line: string)
    ensures ReadLine(acc, line).Err? ==> ReadLine(acc, line).error != HeaderTooLarge
  {
    hide TrimOws, Codings, IsValidHost, ParseUnsigned, CleanValue;
    if HeadField(line).Ok? && HeadField(line).value.name == TRANSFER_ENCODING {
      CodingsMeaning(HeadField(line).value.value);
    }
  }

  lemma HeadTooLarge(s: string)
    requires HeadEnd(s).Some?
    ensures ParseHead(s) == Err(HeaderTooLarge) <==> HeadEnd(s).value > 65536
  {
    hide Utf8, ReadLines, ParseMethod, ParseTarget, ParseVersion, CutRequestLine, DetermineBodyMode, HeadEnd;
    if HeadEnd(s).value <= 65536 {
      var lines := Split(s[..HeadEnd(s).value], CRLF);
      LinesNeverTooLarge(START, lines[1..]);
      CutNeverTooLarge(lines[0]);
      ModeNeverTooLarge();
      TargetNeverTooLarge();
    }
  }

  lemma CutNeverTooLarge(line: string)
    ensures CutRequestLine(line).Err? ==> CutRequestLine(line).error != HeaderTooLarge
  {
  }

  lemma ModeNeverTooLarge()
    ensures forall length, codings :: DetermineBodyMode(length, codings).Err? ==> DetermineBodyMode(length, codings).error != HeaderTooLarge
  {
  }

  lemma TargetNeverTooLarge()
    ensures forall m, t :: ParseTarget(m, t).Err? ==> ParseTarget(m, t).error != HeaderTooLarge
  {
    hide IsAuthorityForm, IsUriScheme;
  }

  /** Whatever ends the reading, a head is refused for its size iff its empty line ends beyond 64 KiB, or there are
      more bytes than that without one. */
  lemma LimitExactly(env: Env, history: seq<Request>, s: string, fault: Option<Fault>)
    ensures var step := StepOf(env, history, s, fault);
      && (step.Stop? && step.ending.result == ParseFailed(HeaderTooLarge) <==>
            if HeadEnd(s).Some? then HeadEnd(s).value > 65536 else |s| > 65536)
      && (step.Stop? && step.ending.result == ParseFailed(HeaderTooLarge) ==>
            step.ending == Ending(false, None, ErrorText(env, |history|, 400, "Bad Request"), ParseFailed(HeaderTooLarge)))
  {
    hide ParseHead, AfterHead, ErrorText, HeadEnd;
    if HeadEnd(s).Some? {
      HeadTooLarge(s);
      HeadArrived(env, history, s, "", fault);
      assert s + "" == s;
      if ParseHead(s).Ok? {
        BodyNeverTooLarge(env, history, ParseHead(s).value, s[ParseHead(s).value.consumed..] + "", fault);
      }
    } else {
      ShortHead(env, history, s, fault);
    }
  }

  lemma BodyNeverTooLarge(env: Env, history: seq<Request>, head: ParsedHead, s: string, fault: Option<Fault>)
    ensures var step := AfterHead(env, history, head, s, fault); step.Stop? ==> !step.ending.result.ParseFailed?
  {
    hide DecodeBody, ErrorText, ResponseText, Answered, ExpectsContinue, DirectiveFor;
  }

  // ---------------------------------------------------------------- what comes later does not matter

  lemma StepExtends(env: Env, history: seq<Request>, s: string, more: string, fault: Option<Fault>, later: Option<Fault>)
    requires StepOf(env, history, s, fault).Served?
    ensures var step := StepOf(env, history, s, fault);
            StepOf(env, history, s + more, later) == Served(step.exchange, step.rest + more)
  {
    hide ParseHead, DecodeBody, ResponseText, Answered;
    HeadArrived(env, history, s, more, later);
    HeadArrived(env, history, s, "", fault);
    assert s + "" == s;
    var head := ParseHead(s).value;
    var tail := s[head.consumed..];
    assert tail + "" == tail;
    BodyExtends(head.mode, tail, more);
  }

  /** The input was used up: every exchange kept the connection open, and the peer then hung up. */
  predicate Drained(t: Trace) {
    t.ending == HUNG_UP && forall i :: 0 <= i < |t.exchanges| ==> t.exchanges[i].directive.KeepAlive?
  }

  lemma StopsOnlyWhenEmpty(env: Env, history: seq<Request>, s: string, fault: Option<Fault>)
    requires StepOf(env, history, s, fault) == Stop(HUNG_UP)
    ensures s == ""
  {
    hide ParseHead, DecodeBody, ResponseText, Answered, HeadEnd;
  }

  /** Neither further input nor a fault changes the exchanges already completed; after a Close nothing
      changes at all; and behind an input that was used up, more is served as on a connection with the same
      history, so that a pipelined input is served request by request. */
  lemma {:induction false} ServeExtends(env: Env, history: seq<Request>, s: string, more: string,
                                        fault: Option<Fault>, later: Option<Fault>)
    ensures var (t, t') := (Serve(env, history, s, fault), Serve(env, history, s + more, later));
      && t.exchanges <= t'.exchanges
      && ((exists x :: x in t.exchanges && x.directive.Close?) ==> t' == t)
      && (Drained(t) ==> t' == Before(t.exchanges, Serve(env, history + Calls(t.exchanges), more, later)))
    decreases |s|
  {
    hide StepOf;
    var t, t' := Serve(env, history, s, fault), Serve(env, history, s + more, later);
    var step := StepOf(env, history, s, fault);
    if step.Stop? {
      if Drained(t) {
        StopsOnlyWhenEmpty(env, history, s, fault);
        assert s + more == more;
        assert history + Calls(t.exchanges) == history;
        assert Before([], t') == t';
      }
    } else {
      var x := step.exchange;
      StepExtends(env, history, s, more, fault, later);
      if x.directive.KeepAlive? {
        StepShrinks(env, history, s, fault);
        ServeExtends(env, history + [x.request], step.rest, more, fault, later);
        var u := Serve(env, history + [x.request], step.rest, fault);
        var u' := Serve(env, history + [x.request], step.rest + more, later);
        assert t == Before([x], u) && t' == Before([x], u');
        TailDrained(x, u);
        CallsShift(history, x, u.exchanges, |u.exchanges|);
        assert ([x] + u.exchanges)[..|u.exchanges| + 1] == t.exchanges;
        assert u.exchanges[..|u.exchanges|] == u.exchanges;
        BeforeTwice([x], u.exchanges, Serve(env, history + Calls(t.exchanges), more, later));
      } else {
        assert t.exchanges[0] == x;
      }
    }
  }

  lemma TailDrained(x: Exchange, u: Trace)
    requires x.directive.KeepAlive?
    ensures Drained(Before([x], u)) == Drained(u)
    ensures (exists y :: y in Before([x], u).exchanges && y.directive.Close?) == (exists y :: y in u.exchanges && y.directive.Close?)
  {
    var xs := [x] + u.exchanges;
    assert forall i :: 0 <= i < |u.exchanges| ==> xs[i + 1] == u.exchanges[i];
    assert xs[0] == x;
  }

  lemma BeforeTwice(a: seq<Exchange>, b: seq<Exchange>, t: Trace)
    ensures Before(a, Before(b, t)) == Before(a + b, t)
  {
    assert a + (b + t.exchanges) == a + b + t.exchanges;
  }
}
