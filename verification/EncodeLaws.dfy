/** Laws of the framing decision: one framing per message, and HEAD against GET. */
module EncodeLaws {
  import opened Wrappers
  import opened Text
  import opened HeaderFields
  import opened RequestHead
  import opened Encode

  lemma KeysDiffer()
    ensures CONTENT_LENGTH != TRANSFER_ENCODING && DATE != CONTENT_LENGTH && DATE != TRANSFER_ENCODING
    ensures CONNECTION != CONTENT_LENGTH && CONNECTION != TRANSFER_ENCODING && CONNECTION != DATE
  {
  }

  /** What `PutIfAbsent` does to each name. */
  lemma PutIfAbsentLaws(h: FieldList, name: string, value: string, other: string)
    requires WellFormed(h)
    ensures Has(PutIfAbsent(h, name, value), other) == (other == name || Has(h, other))
    ensures Values(PutIfAbsent(h, name, value), other)
         == if other == name && !Has(h, name) then [value] else Values(h, other)
  {
    PutLaws(h, name, [value], other);
  }

  /** Statuses of rule 1 of section 6.3 of RFC 9112, which end a message at its head. */
  predicate NeverHasBody(status: nat) {
    100 <= status <= 199 || status == 204 || status == 304
  }

  /** Rule 1: no content in answers to HEAD and under those statuses. */
  predicate RuleOne(m: Method, status: nat) {
    m == HEAD || NeverHasBody(status)
  }

  /** The encoder sends a body exactly where rule 1 has one. */
  lemma BodyRules(m: Method, status: nat)
    ensures Bodiless(status) <==> NeverHasBody(status)
    ensures AllowsBody(status, m) <==> !RuleOne(m, status)
  {
  }

  function Size(body: Body): nat {
    match body
    case Full(content) => |content|
    case _ => 0
  }

  /** The Content-Length values that are sent: none under a status without a body; the handler's own where a
      length may stand; else the size of a buffered or empty body, which an answer to HEAD states too if the
      body is at hand. */
  function SentLength(h: FieldList, status: nat, m: Method, body: Body): seq<string> {
    if NeverHasBody(status) then []
    else if body.Streamed? && m != HEAD then []
    else if Has(h, CONTENT_LENGTH) then Values(h, CONTENT_LENGTH)
    else if m == HEAD && !body.Full? then []
    else [ToDecimal(Size(body))]
  }

  /** The Transfer-Encoding values that are sent: none but with a stream; then the handler's own if the first
      mentions `chunked`, and else `chunked`. */
  function SentEncoding(h: FieldList, status: nat, m: Method, body: Body): seq<string> {
    if RuleOne(m, status) || !body.Streamed? then []
    else if First(h, TRANSFER_ENCODING).Some? && HasToken(First(h, TRANSFER_ENCODING).value, "chunked")
    then Values(h, TRANSFER_ENCODING)
    else ["chunked"]
  }

  /** The framing fields of an emitted head, for every kind of response; and never both. */
  lemma FramingOutcome(h: FieldList, status: nat, m: Method, body: Body)
    requires WellFormed(h)
    ensures var f := Framed(h, status, m, body);
      && Values(f, CONTENT_LENGTH) == SentLength(h, status, m, body)
      && Values(f, TRANSFER_ENCODING) == SentEncoding(h, status, m, body)
      && (Has(f, CONTENT_LENGTH) <==> SentLength(h, status, m, body) != [])
      && (Has(f, TRANSFER_ENCODING) <==> SentEncoding(h, status, m, body) != [])
      && !(Has(f, CONTENT_LENGTH) && Has(f, TRANSFER_ENCODING))
  {
    hide ToDecimal, HasToken, Framed, NeverHasBody;
    KeysDiffer();
    BodyRules(m, status);
    FramedWellFormed(h, status, m, body);
    var f := Framed(h, status, m, body);
    FirstOfPresent(f, CONTENT_LENGTH);
    FirstOfPresent(f, TRANSFER_ENCODING);
    if RuleOne(m, status) {
      NoBodyFields(h, status, m, body);
    } else if body.Streamed? {
      StreamFields(h, status, m, body);
    } else {
      PlainFields(h, status, m, body);
    }
  }

  lemma NoBodyFields(h: FieldList, status: nat, m: Method, body: Body)
    requires WellFormed(h) && RuleOne(m, status)
    ensures Values(Framed(h, status, m, body), CONTENT_LENGTH) == SentLength(h, status, m, body)
    ensures Values(Framed(h, status, m, body), TRANSFER_ENCODING) == []
  {
    hide ToDecimal, NeverHasBody;
    KeysDiffer();
    BodyRules(m, status);
    FirstOfPresent(h, CONTENT_LENGTH);
    var text := ToDecimal(Size(body));
    var h' := if m.HEAD? && body.Full? && !Bodiless(status) then PutIfAbsent(h, CONTENT_LENGTH, text) else h;
    PutIfAbsentLaws(h, CONTENT_LENGTH, text, CONTENT_LENGTH);
    DropLaws(h', TRANSFER_ENCODING, TRANSFER_ENCODING);
    DropLaws(h', TRANSFER_ENCODING, CONTENT_LENGTH);
    DropLaws(Drop(h', TRANSFER_ENCODING), CONTENT_LENGTH, CONTENT_LENGTH);
    DropLaws(Drop(h', TRANSFER_ENCODING), CONTENT_LENGTH, TRANSFER_ENCODING);
  }

  lemma StreamFields(h: FieldList, status: nat, m: Method, body: Body)
    requires WellFormed(h) && !RuleOne(m, status) && body.Streamed?
    ensures Values(Framed(h, status, m, body), CONTENT_LENGTH) == []
    ensures Values(Framed(h, status, m, body), TRANSFER_ENCODING) == SentEncoding(h, status, m, body)
  {
    hide HasToken, NeverHasBody;
    KeysDiffer();
    BodyRules(m, status);
    var d := Drop(h, CONTENT_LENGTH);
    DropLaws(h, CONTENT_LENGTH, CONTENT_LENGTH);
    DropLaws(h, CONTENT_LENGTH, TRANSFER_ENCODING);
    PutLaws(d, TRANSFER_ENCODING, ["chunked"], TRANSFER_ENCODING);
    PutLaws(d, TRANSFER_ENCODING, ["chunked"], CONTENT_LENGTH);
  }

  lemma PlainFields(h: FieldList, status: nat, m: Method, body: Body)
    requires WellFormed(h) && !RuleOne(m, status) && !body.Streamed?
    ensures Values(Framed(h, status, m, body), CONTENT_LENGTH) == SentLength(h, status, m, body)
    ensures Values(Framed(h, status, m, body), TRANSFER_ENCODING) == []
  {
    hide ToDecimal, NeverHasBody;
    KeysDiffer();
    BodyRules(m, status);
    var d := Drop(h, TRANSFER_ENCODING);
    DropLaws(h, TRANSFER_ENCODING, TRANSFER_ENCODING);
    DropLaws(h, TRANSFER_ENCODING, CONTENT_LENGTH);
    DropWellFormed(h, TRANSFER_ENCODING);
    PutIfAbsentLaws(d, CONTENT_LENGTH, ToDecimal(LengthOf(body)), CONTENT_LENGTH);
    PutIfAbsentLaws(d, CONTENT_LENGTH, ToDecimal(LengthOf(body)), TRANSFER_ENCODING);
  }

  /** The fields that are the encoder's own business. */
  predicate EncoderField(name: string) {
    name in [DATE, CONNECTION, CONTENT_LENGTH, TRANSFER_ENCODING]
  }

  /** Every other field is sent as the handler gave it; Date is the handler's own or else the one of the reply. */
  lemma OtherFieldsSent(r: ResponseData, m: Method, d: Directive, date: string, name: string)
    ensures var f := FinalHeaders(r, m, d, date);
      && (!EncoderField(name) ==> Values(f, name) == Values(r.headers, name))
      && Values(f, DATE) == if Has(r.headers, DATE) then Values(r.headers, DATE) else [date]
  {
    hide Framed;
    KeysDiffer();
    var a := PutIfAbsent(r.headers, DATE, date);
    var b := Directed(a, d);
    PutLaws(r.headers, DATE, [date], name);
    PutLaws(r.headers, DATE, [date], DATE);
    PutLaws(a, CONNECTION, ["close"], name);
    PutLaws(a, CONNECTION, ["close"], DATE);
    FramingKeeps(b, r.status, m, r.body, DATE);
    if !EncoderField(name) {
      FramingKeeps(b, r.status, m, r.body, name);
    }
  }

  /** Framing touches the two framing fields only. */
  lemma FramingKeeps(h: FieldList, status: nat, m: Method, body: Body, name: string)
    requires name != CONTENT_LENGTH && name != TRANSFER_ENCODING
    ensures Values(Framed(h, status, m, body), name) == Values(h, name)
  {
    hide ToDecimal, HasToken, Bodiless;
    if !AllowsBody(status, m) {
      var text := ToDecimal(LengthOf(body));
      var h' := if m.HEAD? && body.Full? && !Bodiless(status) then PutIfAbsent(h, CONTENT_LENGTH, text) else h;
      PutLaws(h, CONTENT_LENGTH, [text], name);
      DropLaws(h', TRANSFER_ENCODING, name);
      DropLaws(Drop(h', TRANSFER_ENCODING), CONTENT_LENGTH, name);
    } else if body.Streamed? {
      DropLaws(h, CONTENT_LENGTH, name);
      PutLaws(Drop(h, CONTENT_LENGTH), TRANSFER_ENCODING, ["chunked"], name);
    } else {
      DropLaws(h, TRANSFER_ENCODING, name);
      PutLaws(Drop(h, TRANSFER_ENCODING), CONTENT_LENGTH, [ToDecimal(LengthOf(body))], name);
    }
  }

  // ---------------------------------------------------------------- when a response is written

  /** A stream that does not break. */
  predicate Unbroken(items: seq<Item>) {
    forall i :: 0 <= i < |items| ==> items[i].Chunk?
  }

  lemma {:induction false} StreamEnds(items: seq<Item>, trailers: Option<FieldList>)
    ensures ChunkedText(items, trailers).error == if Unbroken(items) then None else Some(StreamFailed)
    decreases |items|
  {
    hide ChunkText, LastChunk;
    if items != [] {
      StreamEnds(items[1..], trailers);
      assert forall i :: 1 <= i < |items| ==> items[i] == items[1..][i - 1];
      assert forall i :: 0 <= i < |items[1..]| ==> items[1..][i] == items[i + 1];
    }
  }

  predicate BothFramings(h: FieldList) {
    Has(h, CONTENT_LENGTH) && Has(h, TRANSFER_ENCODING)
  }

  /** A response is refused, with nothing written, iff its handler set both framing fields; and cut short iff
      its body is sent from a stream that breaks. */
  lemma WriteOutcome(r: ResponseValue, reasons: Reasons, m: Method, d: Directive, date: string)
    ensures var w := ResponseText(r, reasons, m, d, date);
      if BothFramings(r.headers) then w == Written("", Some(ConflictingLengthAndEncoding))
      else w.error == if !RuleOne(m, r.status) && r.body.Streamed? && !Unbroken(r.body.items) then Some(StreamFailed) else None
  {
    hide HeadText, NeverHasBody, Unbroken;
    BodyRules(m, r.status);
    if r.body.Streamed? {
      StreamEnds(r.body.items, r.trailers);
    }
  }

  lemma FramedWellFormed(h: FieldList, status: nat, m: Method, body: Body)
    requires WellFormed(h)
    ensures WellFormed(Framed(h, status, m, body))
  {
    hide ToDecimal, HasToken, WellFormed;
    FramingKeysAreLower();
    var text := ToDecimal(LengthOf(body));
    if !AllowsBody(status, m) {
      PutWellFormed(h, CONTENT_LENGTH, [text]);
      var h' := if m.HEAD? && body.Full? && !Bodiless(status) then PutIfAbsent(h, CONTENT_LENGTH, text) else h;
      DropWellFormed(h', TRANSFER_ENCODING);
      DropWellFormed(Drop(h', TRANSFER_ENCODING), CONTENT_LENGTH);
    } else if body.Streamed? {
      DropWellFormed(h, CONTENT_LENGTH);
      PutWellFormed(Drop(h, CONTENT_LENGTH), TRANSFER_ENCODING, ["chunked"]);
    } else {
      DropWellFormed(h, TRANSFER_ENCODING);
      PutWellFormed(Drop(h, TRANSFER_ENCODING), CONTENT_LENGTH, [text]);
    }
  }

  lemma ChunkedIsToken()
    ensures HasToken("chunked", "chunked")
  {
    SplitWhole("chunked", ",");
    TrimOfGraphic("chunked");
    var parts := Split("chunked", ",");
    assert EqIgnoreCase(Trim(parts[0]), "chunked");
  }

  /** No emitted head has both a Content-Length and a Transfer-Encoding. */
  lemma NeverBothFramings(r: ResponseData, m: Method, d: Directive, date: string)
    ensures var f := FinalHeaders(r, m, d, date);
            !(Has(f, CONTENT_LENGTH) && Has(f, TRANSFER_ENCODING))
  {
    hide Framed;
    DirectedWellFormed(r.headers, d, date);
    FramingOutcome(Directed(PutIfAbsent(r.headers, DATE, date), d), r.status, m, r.body);
  }

  lemma DirectedWellFormed(h: FieldList, d: Directive, date: string)
    requires WellFormed(h)
    ensures WellFormed(Directed(PutIfAbsent(h, DATE, date), d))
  {
    FramingKeysAreLower();
    PutWellFormed(h, DATE, [date]);
    PutWellFormed(PutIfAbsent(h, DATE, date), CONNECTION, ["close"]);
  }

  lemma {:induction false} DropPutCommute(h: FieldList, name: string, vs: seq<string>, gone: string)
    requires name != gone
    ensures Drop(Put(h, name, vs), gone) == Put(Drop(h, gone), name, vs)
  {
    if h != [] {
      if h[0].name == name {
        assert Put(h, name, vs)[1..] == h[1..];
        assert ([Field(name, h[0].values)] + Drop(h[1..], gone))[1..] == Drop(h[1..], gone);
        assert Drop(h, gone)[0].name == name && Drop(h, gone)[1..] == Drop(h[1..], gone);
      } else {
        DropPutCommute(h[1..], name, vs, gone);
        assert Put(h, name, vs)[1..] == Put(h[1..], name, vs);
        if h[0].name != gone {
          assert Drop(h, gone)[1..] == Drop(h[1..], gone);
        }
      }
    }
  }

  /** The head sent for HEAD is the head sent for GET. */
  lemma HeadFieldsAgree(h: FieldList, status: nat, body: Body)
    requires body.Full?
    ensures Framed(h, status, HEAD, body) == Framed(h, status, GET, body)
  {
    hide ToDecimal;
    KeysDiffer();
    var value := ToDecimal(|body.content|);
    DropLaws(h, TRANSFER_ENCODING, CONTENT_LENGTH);
    DropPutCommute(h, CONTENT_LENGTH, [value], TRANSFER_ENCODING);
  }

  /** For a buffered body, GET writes exactly what HEAD writes, followed by the body when the status
      allows one; neither fails unless the handler set both framing fields, and then both do. */
  lemma HeadAgreesWithGet(r: ResponseValue, reasons: Reasons, d: Directive, date: string)
    requires r.body.Full?
    ensures var (get, head) := (ResponseText(r, reasons, GET, d, date), ResponseText(r, reasons, HEAD, d, date));
      && get.error == head.error
      && (head.error.None? ==> get.bytes == head.bytes + if NeverHasBody(r.status) then "" else r.body.content)
  {
    hide HeadOf, Framed;
    HeadFieldsAgree(Directed(PutIfAbsent(r.headers, DATE, date), d), r.status, r.body);
    var head := HeadText(r, reasons, HEAD, d, date);
    assert head + "" == head;
  }
}
