/** What the client recovers of a single message. */
module ClientLaws {
  import opened Wrappers
  import opened Text
  import opened HeaderFields
  import opened RequestHead
  import opened FieldText
  import opened Encode
  import opened BodyLaws
  import opened ChunkedGrammar
  import opened EncodeLaws
  import opened Client

  // ---------------------------------------------------------------- what a handler must keep to

  predicate ReadableValue(name: string, value: string) {
    ReadablePair(Pair(name, value))
  }

  /** Clean fields, reason and trailers. */
  predicate Clean(r: ResponseValue) {
    && Readable(r.headers) && Readable(TrailersOf(r.trailers))
    && (r.reason.Some? ==> PlainReason(r.reason.value))
  }

  /** A response that opens a tunnel instead of having a body. */
  predicate Tunnels(m: Method, status: nat) {
    m.CONNECT? && 200 <= status <= 299
  }

  /** A Content-Length of the handler's own is the right one. */
  predicate LengthRight(h: FieldList, length: nat) {
    Has(h, CONTENT_LENGTH) ==> StatedLength(Values(h, CONTENT_LENGTH)) == Some(length)
  }

  /** A Transfer-Encoding of the handler's own that is kept, which it is if its first value mentions `chunked`,
      ends in `chunked`. */
  predicate EncodingRight(h: FieldList) {
    var values := Values(h, TRANSFER_ENCODING);
    FirstSaysChunked(h) ==>
      var codings := ReadCodings(values);
      codings.Some? && codings.value != [] && codings.value[|codings.value| - 1] == "chunked"
  }

  predicate FirstSaysChunked(h: FieldList) {
    First(h, TRANSFER_ENCODING).Some? && HasToken(First(h, TRANSFER_ENCODING).value, "chunked")
  }

  /** The framing fields that will be sent say how the body is sent. Only a body that is sent matters, and of the
      two fields only the one that its kind of body keeps. */
  predicate FramingRight(h: FieldList, status: nat, m: Method, body: Body) {
    && !Tunnels(m, status)
    && (!RuleOne(m, status) ==> if body.Streamed? then EncodingRight(h) else LengthRight(h, Size(body)))
  }

  /** What a handler must see to for its response to be understood: not both framing fields, those that are sent
      right, and a stream that does not break. */
  predicate WellFramed(r: ResponseValue, m: Method) {
    && !BothFramings(r.headers) && FramingRight(r.headers, r.status, m, r.body)
    && (!RuleOne(m, r.status) && r.body.Streamed? ==> Unbroken(r.body.items))
  }

  // ---------------------------------------------------------------- readable fields stay readable

  lemma PutReadable(h: FieldList, name: string, value: string)
    requires Readable(h) && ReadableValue(name, value)
    ensures Readable(Put(h, name, [value]))
  {
    hide ReadablePair;
    PairName(name, value);
    PutAt(h, name, [value], Position(h, name));
    PutWellFormed(h, name, [value]);
  }

  lemma PairName(name: string, value: string)
    requires ReadablePair(Pair(name, value))
    ensures Lower(name) == name && IsToken(name)
  {
  }

  lemma SkipReadable(h: FieldList, k: nat)
    requires Readable(h) && k < |h|
    ensures Readable(h[..k] + h[k + 1..])
  {
    hide ReadablePair, WellFormed;
    SkipWellFormed(h, k);
    var d := h[..k] + h[k + 1..];
    forall i, j | 0 <= i < |d| && 0 <= j < |d[i].values| ensures ReadablePair(Pair(d[i].name, d[i].values[j])) {
      var i' := if i < k then i else i + 1;
      assert d[i] == h[i'];
    }
  }

  lemma DropReadable(h: FieldList, name: string)
    requires Readable(h)
    ensures Readable(Drop(h, name))
  {
    hide ReadablePair;
    var k := Position(h, name);
    if k < |h| {
      DropAt(h, name, k);
      SkipReadable(h, k);
    } else {
      DropAbsent(h, name);
    }
  }

  lemma TokenValue(name: string, value: string)
    requires IsToken(name) && Lower(name) == name && IsToken(value)
    ensures ReadableValue(name, value)
  {
    hide Utf8, IsTchar, TrimOws;
    Utf8Token(value);
    TokenIsGraphic(value);
    assert value[0] in value && value[|value| - 1] in value;
  }

  lemma TokenIsGraphic(s: string)
    requires IsToken(s)
    ensures forall c :: c in s ==> Graphic(c)
  {
    forall c | c in s ensures Graphic(c) { TcharIsGraphic(c); }
  }

  lemma FramingNamesAreTokens()
    ensures IsToken(CONTENT_LENGTH) && IsToken(TRANSFER_ENCODING) && IsToken(CONNECTION)
    ensures IsToken("close") && IsToken("chunked")
  {
  }

  lemma FramedReadable(h: FieldList, status: nat, m: Method, body: Body)
    requires Readable(h)
    ensures Readable(Framed(h, status, m, body))
  {
    hide ToDigits, ReadablePair, Readable;
    FramingNamesAreTokens();
    FramingKeysAreLower();
    var n := if body.Full? then |body.content| else 0;
    DigitsAreGraphic(n, 10);
    TokenValue(CONTENT_LENGTH, ToDecimal(n));
    TokenValue(TRANSFER_ENCODING, "chunked");
    PutReadable(h, CONTENT_LENGTH, ToDecimal(n));
    if !AllowsBody(status, m) {
      var h' := if m.HEAD? && body.Full? && !Bodiless(status) then PutIfAbsent(h, CONTENT_LENGTH, ToDecimal(n)) else h;
      DropReadable(h', TRANSFER_ENCODING);
      DropReadable(Drop(h', TRANSFER_ENCODING), CONTENT_LENGTH);
    } else if body.Streamed? {
      DropReadable(h, CONTENT_LENGTH);
      PutReadable(Drop(h, CONTENT_LENGTH), TRANSFER_ENCODING, "chunked");
    } else {
      DropReadable(h, TRANSFER_ENCODING);
      PutReadable(Drop(h, TRANSFER_ENCODING), CONTENT_LENGTH, ToDecimal(n));
    }
  }

  lemma FinalReadable(r: ResponseValue, m: Method, d: Directive, date: string)
    requires Clean(r) && ReadableValue(DATE, date)
    ensures Readable(FinalHeaders(r, m, d, date))
  {
    hide Framed, ReadablePair, Readable;
    FramingNamesAreTokens();
    FramingKeysAreLower();
    PutReadable(r.headers, DATE, date);
    TokenValue(CONNECTION, "close");
    PutReadable(PutIfAbsent(r.headers, DATE, date), CONNECTION, "close");
    FramedReadable(Directed(PutIfAbsent(r.headers, DATE, date), d), r.status, m, r.body);
  }

  // ---------------------------------------------------------------- the client picks the right framing

  lemma ChunkedCoding()
    ensures ReadCodings(["chunked"]) == Some(["chunked"])
  {
    hide TrimOws;
    LowerFixed("chunked");
    FramingNamesAreTokens();
    SplitWhole("chunked", ",");
    TrimOwsOfTrimmed("chunked");
    assert ["chunked"][1..] == [] && Split("chunked", ",") + [] == ["chunked"];
    assert AllPieces(["chunked"], ",") == ["chunked"];
    var codings := ReadCodings(["chunked"]);
    assert codings.Some? && |codings.value| == 1 && codings.value[0] == "chunked";
    assert codings.value == ["chunked"];
  }

  /** Neither Date nor Connection is a framing field. */
  lemma UntouchedFraming(h: FieldList, d: Directive, date: string)
    ensures var g := Directed(PutIfAbsent(h, DATE, date), d);
      && Values(g, CONTENT_LENGTH) == Values(h, CONTENT_LENGTH) && Has(g, CONTENT_LENGTH) == Has(h, CONTENT_LENGTH)
      && Values(g, TRANSFER_ENCODING) == Values(h, TRANSFER_ENCODING) && Has(g, TRANSFER_ENCODING) == Has(h, TRANSFER_ENCODING)
  {
    KeysDiffer();
    PutLaws(h, DATE, [date], CONTENT_LENGTH);
    PutLaws(h, DATE, [date], TRANSFER_ENCODING);
    PutLaws(PutIfAbsent(h, DATE, date), CONNECTION, ["close"], CONTENT_LENGTH);
    PutLaws(PutIfAbsent(h, DATE, date), CONNECTION, ["close"], TRANSFER_ENCODING);
  }

  lemma LengthRead(n: nat)
    ensures StatedLength([ToDecimal(n)]) == Some(n)
  {
    hide ToDigits, DigitsValue;
    var s := ToDecimal(n);
    DigitsAreGraphic(n, 10);
    DigitsRoundTrip(n, 10);
    TokenLacks(s, ',');
    SplitWhole(s, ",");
    assert s[0] in s && s[|s| - 1] in s;
    TrimOwsOfTrimmed(s);
    assert [s][1..] == [] && Split(s, ",") + [] == [s];
    assert AllPieces([s], ",") == [s];
  }

  function FramingOf(status: nat, m: Method, body: Body): Content {
    if RuleOne(m, status) then NoContent
    else if body.Streamed? then ChunkedContent
    else Exactly(Size(body))
  }

  /** The client's rule picks the framing the body is sent with iff the handler's own framing fields are right. */
  lemma FramedContent(h: FieldList, status: nat, m: Method, body: Body)
    requires WellFormed(h)
    ensures ContentOf(m, status, Framed(h, status, m, body)) == FramingOf(status, m, body) <==> FramingRight(h, status, m, body)
  {
    hide ToDecimal, HasToken, ReadCodings, StatedLength, Framed, NeverHasBody, Has;
    FramingOutcome(h, status, m, body);
    LengthRead(Size(body));
    ChunkedCoding();
    FirstOfPresent(h, CONTENT_LENGTH);
  }

  // ---------------------------------------------------------------- one message

  /** The message a response means: its final fields, and the body and trailers its status and method allow. */
  function Meant(r: ResponseValue, reasons: Reasons, m: Method, d: Directive, date: string): Message {
    var (body, trailers) :=
      if RuleOne(m, r.status) then ("", [])
      else match r.body
        case Empty => ("", [])
        case Full(content) => (content, [])
        case Streamed(items) => (Payload(items), TrailersOf(r.trailers));
    var reason := if r.reason.Some? then r.reason.value else reasons(r.status);
    Message(VersionText(r.version), r.status, reason, FinalHeaders(r, m, d, date), body, trailers)
  }

  /** The body is what the client takes it for when it uses the encoder's framing. */
  lemma RightContentRead(r: ResponseValue, reasons: Reasons, m: Method, d: Directive, date: string, more: string)
    requires Readable(TrailersOf(r.trailers)) && WellFramed(r, m)
    requires ContentOf(m, r.status, FinalHeaders(r, m, d, date)) == FramingOf(r.status, m, r.body)
    ensures BodyText(r, m).error == None
    ensures ReadContent(m, StatusParts(VersionText(r.version), r.status, ReasonOf(r.reason, r.status, reasons)),
                        FinalHeaders(r, m, d, date), BodyText(r, m).bytes + more)
         == Some(Received(Meant(r, reasons, m, d, date), more))
  {
    hide FinalHeaders, ContentOf, ReadChunks, ChunkedText, VersionText, ReadablePair;
    BodyRules(m, r.status);
    var text := BodyText(r, m).bytes;
    CutBetween(text, more);
    assert "" + more == more;
    if !RuleOne(m, r.status) && r.body.Streamed? {
      WrittenConforms(r.body.items, r.trailers, more);
    }
  }

  lemma {:induction false} ChunkedIsLonger(items: seq<Item>, trailers: Option<FieldList>)
    requires Unbroken(items)
    ensures |ChunkedText(items, trailers).bytes| > |Payload(items)|
    decreases |items|
  {
    hide ToHex;
    if items != [] {
      assert items[0].Chunk? && forall i :: 0 <= i < |items[1..]| ==> items[1..][i] == items[i + 1];
      ChunkedIsLonger(items[1..], trailers);
    }
  }

  /** Under any other framing the message is not read, or read as another one. */
  lemma WrongContentRead(r: ResponseValue, reasons: Reasons, m: Method, d: Directive, date: string, more: string)
    requires BodyText(r, m).error == None && (!RuleOne(m, r.status) || ContentOf(m, r.status, FinalHeaders(r, m, d, date)).Tunnel?)
    requires !RuleOne(m, r.status) && r.body.Streamed? ==> Unbroken(r.body.items)
    requires ContentOf(m, r.status, FinalHeaders(r, m, d, date)) != FramingOf(r.status, m, r.body)
    requires !r.body.Streamed? ==> !ContentOf(m, r.status, FinalHeaders(r, m, d, date)).ChunkedContent?
                                   && !ContentOf(m, r.status, FinalHeaders(r, m, d, date)).UntilClose?
    requires r.body.Streamed? ==> !ContentOf(m, r.status, FinalHeaders(r, m, d, date)).Exactly?
    ensures ReadContent(m, StatusParts(VersionText(r.version), r.status, ReasonOf(r.reason, r.status, reasons)),
                        FinalHeaders(r, m, d, date), BodyText(r, m).bytes + more)
         != Some(Received(Meant(r, reasons, m, d, date), more))
  {
    hide FinalHeaders, ReadChunks, ChunkedText, VersionText, Bodiless, NeverHasBody;
    BodyRules(m, r.status);
    if !RuleOne(m, r.status) && r.body.Streamed? {
      ChunkedIsLonger(r.body.items, r.trailers);
    }
    assert r.body.Empty? ==> Meant(r, reasons, m, d, date).body == "";
  }

  /** The kinds of framing fields that are sent with each kind of body. */
  lemma FramingKinds(h: FieldList, status: nat, m: Method, body: Body)
    requires WellFormed(h) && (!RuleOne(m, status) || Tunnels(m, status))
    ensures var c := ContentOf(m, status, Framed(h, status, m, body));
      && !c.NoContent? && (c.Tunnel? <==> Tunnels(m, status))
      && (body.Streamed? ==> !c.Exactly?) && (!body.Streamed? ==> !c.ChunkedContent? && !c.UntilClose?)
  {
    hide ReadCodings, StatedLength, Framed, ToDecimal, Has, HasToken, NeverHasBody;
    FramingOutcome(h, status, m, body);
    FirstOfPresent(h, CONTENT_LENGTH);
  }

  /** Exactly the responses that are recovered: a response of clean fields is read back as what it means, with
      nothing of what follows consumed, iff it is well framed. */
  lemma MessageReadExactly(r: ResponseValue, reasons: Reasons, m: Method, d: Directive, date: string, more: string)
    requires Clean(r) && ReadableValue(DATE, date) && PlainReason(ReasonOf(r.reason, r.status, reasons))
    ensures var w := ResponseText(r, reasons, m, d, date);
      (w.error == None && ReadMessage(m, w.bytes + more) == Some(Received(Meant(r, reasons, m, d, date), more)))
      <==> WellFramed(r, m)
  {
    hide HeadOf, ReadMessage, ReadContent, ContentOf, Meant, Framed, Readable, ReadablePair, Unbroken, FramingRight;
    hide Directed, PutIfAbsent;
    WriteOutcome(r, reasons, m, d, date);
    if !BothFramings(r.headers) {
      var h := Directed(PutIfAbsent(r.headers, DATE, date), d);
      var fields := FinalHeaders(r, m, d, date);
      FinalReadable(r, m, d, date);
      assert WellFormed(r.headers) by { ReadableIsWellFormed(r.headers); }
      DirectedWellFormed(r.headers, d, date);
      UntouchedFraming(r.headers, d, date);
      SameFramingRight(r.headers, h, r.status, m, r.body);
      FramedContent(h, r.status, m, r.body);
      HeadRead(m, r.version, r.status, ReasonOf(r.reason, r.status, reasons), fields, BodyText(r, m).bytes + more);
      Assoc(HeadText(r, reasons, m, d, date), BodyText(r, m).bytes, more);
      if WellFramed(r, m) {
        RightContentRead(r, reasons, m, d, date, more);
      } else if BodyText(r, m).error == None {
        FramingKinds(h, r.status, m, r.body);
        WrongContentRead(r, reasons, m, d, date, more);
      }
    }
  }

  lemma ReadableIsWellFormed(h: FieldList)
    requires Readable(h)
    ensures WellFormed(h)
  {
  }

  lemma SameFramingRight(g: FieldList, h: FieldList, status: nat, m: Method, body: Body)
    requires Values(g, CONTENT_LENGTH) == Values(h, CONTENT_LENGTH) && Has(g, CONTENT_LENGTH) == Has(h, CONTENT_LENGTH)
    requires Values(g, TRANSFER_ENCODING) == Values(h, TRANSFER_ENCODING)
    ensures FramingRight(g, status, m, body) == FramingRight(h, status, m, body)
    ensures RuleOne(m, status) && !Tunnels(m, status) ==> FramingRight(g, status, m, body)
  {
    hide StatedLength, ReadCodings, HasToken;
  }

  /** A clean and well framed response is recovered exactly, with nothing of what follows consumed. */
  lemma MessageRead(r: ResponseValue, reasons: Reasons, m: Method, d: Directive, date: string, more: string)
    requires Clean(r) && ReadableValue(DATE, date) && PlainReason(ReasonOf(r.reason, r.status, reasons)) && WellFramed(r, m)
    ensures ResponseText(r, reasons, m, d, date).error == None
    ensures ReadMessage(m, ResponseText(r, reasons, m, d, date).bytes + more)
         == Some(Received(Meant(r, reasons, m, d, date), more))
  {
    hide ResponseText, ReadMessage, Meant, Clean, ReadablePair, WellFramed;
    MessageReadExactly(r, reasons, m, d, date, more);
  }
}
