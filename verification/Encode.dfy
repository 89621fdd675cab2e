/** Response serialization: the framing decision, the head, and the body. */
module Encode {
  import opened Wrappers
  import opened Text
  import opened HeaderFields
  import opened RequestHead
  import opened FieldText
  import opened Transport

  datatype Item = Chunk(data: string) | Broken

  /** A buffered body, a streamed one that may break, or none. */
  datatype Body = Empty | Full(content: string) | Streamed(items: seq<Item>)

  datatype ResponseValue = ResponseValue(
    version: Version, status: nat, reason: Option<string>, headers: FieldList, body: Body, trailers: Option<FieldList>)

  predicate WellFormedResponse(r: ResponseValue) {
    WellFormed(r.headers) && (r.trailers.Some? ==> WellFormed(r.trailers.value))
  }

  /** A response whose header collections are what the collection class can hold. */
  type ResponseData = r: ResponseValue | WellFormedResponse(r)
    witness ResponseValue(Http11, 200, None, [], Empty, None)

  datatype Directive = Close | KeepAlive

  datatype EncodeError = StreamFailed | ConflictingLengthAndEncoding

  /** Bytes put on the wire, and the error that ended the writing, if any. */
  datatype Written = Written(bytes: string, error: Option<EncodeError>)

  /** Some comma-separated part of `value` is the token, up to case and surrounding white space. */
  predicate HasToken(value: string, token: string) {
    var parts := Split(value, ",");
    exists i :: 0 <= i < |parts| && EqIgnoreCase(Trim(parts[i]), token)
  }

  /** Some of the values has the token. */
  predicate AnyHasToken(values: seq<string>, token: string) {
    exists i :: 0 <= i < |values| && HasToken(values[i], token)
  }

  // ---------------------------------------------------------------- the framing decision as a function

  /** Statuses whose responses never carry a body or a length. */
  predicate Bodiless(status: nat) {
    100 <= status <= 199 || status == 204 || status == 304
  }

  predicate AllowsBody(status: nat, m: Method) {
    !Bodiless(status) && !m.HEAD?
  }

  function PutIfAbsent(h: FieldList, name: string, value: string): FieldList {
    if Has(h, name) then h else Put(h, name, [value])
  }

  function LengthOf(body: Body): nat {
    if body.Full? then |body.content| else 0
  }

  function EnsureChunked(h: FieldList): FieldList {
    var value := First(h, TRANSFER_ENCODING);
    if value.Some? && HasToken(value.value, "chunked") then h else Put(h, TRANSFER_ENCODING, ["chunked"])
  }

  /** The framing fields of a head. The source tests for a body-less status once more on the branches
      where a body is allowed, and for a missing length outside HEAD where none is; neither test can fire. */
  function Framed(h: FieldList, status: nat, m: Method, body: Body): FieldList {
    if !AllowsBody(status, m) then
      var h' := if m.HEAD? && body.Full? && !Bodiless(status)
                then PutIfAbsent(h, CONTENT_LENGTH, ToDecimal(|body.content|)) else h;
      var h'' := Drop(h', TRANSFER_ENCODING);
      if Bodiless(status) then Drop(h'', CONTENT_LENGTH) else h''
    else if body.Streamed? then
      EnsureChunked(Drop(h, CONTENT_LENGTH))
    else
      PutIfAbsent(Drop(h, TRANSFER_ENCODING), CONTENT_LENGTH, ToDecimal(LengthOf(body)))
  }

  function Directed(h: FieldList, d: Directive): FieldList {
    if d.Close? then Put(h, CONNECTION, ["close"]) else h
  }

  function FinalHeaders(r: ResponseValue, m: Method, d: Directive, date: string): FieldList {
    Framed(Directed(PutIfAbsent(r.headers, DATE, date), d), r.status, m, r.body)
  }

  predicate Conflicting(r: ResponseValue) {
    Has(r.headers, CONTENT_LENGTH) && Has(r.headers, TRANSFER_ENCODING)
  }

  // ---------------------------------------------------------------- the bytes as a function

  /** The reason phrases of statuses that have a canonical one; empty for the others. */
  type Reasons = nat -> string

  function ReasonOf(reason: Option<string>, status: nat, reasons: Reasons): string {
    if reason.Some? then reason.value else reasons(status)
  }

  function StatusLine(version: Version, status: nat, reason: string): string {
    VersionText(version) + " " + ToDecimal(status) + (if reason == "" then "" else " " + reason)
  }

  function HeadOf(version: Version, status: nat, reason: string, headers: FieldList): string {
    StatusLine(version, status, reason) + CRLF + PrintFields(headers)
  }

  function HeadText(r: ResponseValue, reasons: Reasons, m: Method, d: Directive, date: string): string {
    HeadOf(r.version, r.status, ReasonOf(r.reason, r.status, reasons), FinalHeaders(r, m, d, date))
  }

  function After(bytes: string, w: Written): Written {
    Written(bytes + w.bytes, w.error)
  }

  function LastChunk(trailers: Option<FieldList>): string {
    "0\r\n" + (if trailers.Some? then PrintFields(trailers.value) else CRLF)
  }

  function ChunkText(data: string): string {
    ToHex(|data|) + CRLF + data + CRLF
  }

  /** The chunked coding of a stream; empty pieces are skipped, a break ends the output. */
  function ChunkedText(items: seq<Item>, trailers: Option<FieldList>): Written {
    if items == [] then Written(LastChunk(trailers), None)
    else match items[0]
      case Broken => Written("", Some(StreamFailed))
      case Chunk(data) =>
        After(if data == "" then "" else ChunkText(data), ChunkedText(items[1..], trailers))
  }

  function PayloadText(body: Body, trailers: Option<FieldList>): Written {
    match body
    case Empty => Written("", None)
    case Full(content) => Written(content, None)
    case Streamed(items) => ChunkedText(items, trailers)
  }

  function BodyText(r: ResponseValue, m: Method): Written {
    PayloadText(if AllowsBody(r.status, m) then r.body else Empty, r.trailers)
  }

  /** Everything `WriteResponse` puts on the wire. */
  function ResponseText(r: ResponseValue, reasons: Reasons, m: Method, d: Directive, date: string): Written {
    if Conflicting(r) then Written("", Some(ConflictingLengthAndEncoding))
    else After(HeadText(r, reasons, m, d, date), BodyText(r, m))
  }

  const CONTINUE_TEXT := "HTTP/1.1 100 Continue\r\n\r\n"

  // ---------------------------------------------------------------- the imperative writer

  class Response {
    var version: Version
    var status: nat
    var reason: Option<string>
    const headers: Headers
    var body: Body
    var trailers: Headers?

    ghost predicate Valid()
      reads this, headers, trailers
    {
      headers.Valid() && (trailers != null ==> trailers.Valid() && trailers != headers)
    }

    ghost function Value(): ResponseValue
      requires Valid()
      reads this, headers, trailers
    {
      ResponseValue(version, status, reason, headers.Model(), body, if trailers == null then None else Some(trailers.Model()))
    }

    constructor New(status: nat)
      ensures Valid() && Value() == ResponseValue(Http11, status, None, [], Empty, None)
      ensures fresh(headers) && trailers == null
    {
      version, this.status, reason, body, trailers := Http11, status, None, Empty, null;
      headers := new Headers();
    }

    /** The response a handler returns. */
    constructor From(v: ResponseData)
      ensures Valid() && Value() == v
      ensures fresh(headers) && (trailers != null ==> fresh(trailers))
    {
      version, status, reason, body := v.version, v.status, v.reason, v.body;
      headers := new Headers.From(v.headers);
      if v.trailers.Some? {
        trailers := new Headers.From(v.trailers.value);
      } else {
        trailers := null;
      }
    }
  }

  function PrintPairs(ps: seq<Pair>): string {
    PrintLines(LinesOf(ps))
  }

  /** Appends the field section of a collection to a text. */
  method AppendHeaders(buffer: string, headers: Headers) returns (text: string)
    requires headers.Valid()
    ensures text == buffer + PrintFields(headers.Model())
  {
    text := buffer;
    var l := headers.Iter();
    var i := 0;
    assert l[0..] == l;
    while i < |l|
      invariant 0 <= i <= |l|
      invariant buffer + PrintPairs(AllPairs(l)) == text + PrintPairs(AllPairs(l[i..]))
    {
      assert l[i..][1..] == l[i + 1..];
      PrintEntry(text, l[i..]);
      text := AppendValues(text, l[i].name, l[i].values);
      i := i + 1;
    }
    assert l[i..] == [] && text + PrintPairs([]) == text;
    text := text + "\r\n";
  }

  /** The inner loop: one line for each value of a name. */
  method AppendValues(buffer: string, name: string, values: seq<string>) returns (text: string)
    ensures text == buffer + PrintPairs(PairsOf(name, values))
  {
    text := buffer;
    var j := 0;
    assert values[0..] == values;
    while j < |values|
      invariant 0 <= j <= |values|
      invariant buffer + PrintPairs(PairsOf(name, values)) == text + PrintPairs(PairsOf(name, values[j..]))
    {
      PrintValue(name, values[j..]);
      assert values[j..][1..] == values[j + 1..];
      text := text + (name + ": " + values[j] + "\r\n");
      j := j + 1;
    }
  }

  lemma PrintEntry(before: string, l: FieldList)
    requires l != []
    ensures before + PrintPairs(AllPairs(l))
         == before + PrintPairs(PairsOf(l[0].name, l[0].values)) + PrintPairs(AllPairs(l[1..]))
  {
    var a, b := PairsOf(l[0].name, l[0].values), AllPairs(l[1..]);
    LinesConcat(a, b);
    Assoc(before, PrintPairs(a), PrintPairs(b));
  }

  lemma PrintValue(name: string, values: seq<string>)
    requires values != []
    ensures PrintPairs(PairsOf(name, values)) == (name + ": " + values[0] + "\r\n") + PrintPairs(PairsOf(name, values[1..]))
  {
    assert PairsOf(name, values)[1..] == PairsOf(name, values[1..]);
  }

  lemma {:induction false} LinesConcat(a: seq<Pair>, b: seq<Pair>)
    ensures PrintPairs(a + b) == PrintPairs(a) + PrintPairs(b)
  {
    if a == [] {
      assert a + b == b;
    } else {
      assert (a + b)[1..] == a[1..] + b;
      LinesConcat(a[1..], b);
    }
  }

  method ApplyConnectionDirective(headers: Headers, d: Directive)
    requires headers.Valid()
    modifies headers
    ensures headers.Valid() && headers.Model() == Directed(old(headers.Model()), d)
  {
    FramingKeysAreLower();
    match d {
      case Close => headers.Insert(CONNECTION, "close");
      case KeepAlive =>
    }
  }

  method EnsureChunkedEncoding(headers: Headers)
    requires headers.Valid()
    modifies headers
    ensures headers.Valid() && headers.Model() == EnsureChunked(old(headers.Model()))
  {
    FramingKeysAreLower();
    var existing := headers.Get(TRANSFER_ENCODING);
    if existing.Some? && HasToken(existing.value, "chunked") {
      return;
    }
    headers.Insert(TRANSFER_ENCODING, "chunked");
  }

  /** Chooses the framing headers for a status, method and body. */
  method ApplyFraming(headers: Headers, status: nat, m: Method, body: Body)
    requires headers.Valid()
    modifies headers
    ensures headers.Valid() && headers.Model() == Framed(old(headers.Model()), status, m, body)
  {
    FramingKeysAreLower();
    if !AllowsBody(status, m) {
      if m.HEAD? && body.Full? && !Bodiless(status) && !headers.Contains(CONTENT_LENGTH) {
        headers.Insert(CONTENT_LENGTH, ToDecimal(|body.content|));
      }
      var _ := headers.Remove(TRANSFER_ENCODING);
      if Bodiless(status) {
        var _ := headers.Remove(CONTENT_LENGTH);
      }
    } else {
      match body {
        case Streamed(_) =>
          var _ := headers.Remove(CONTENT_LENGTH);
          EnsureChunkedEncoding(headers);
        case _ =>
          var _ := headers.Remove(TRANSFER_ENCODING);
          if !headers.Contains(CONTENT_LENGTH) {
            headers.Insert(CONTENT_LENGTH, ToDecimal(LengthOf(body)));
          }
      }
    }
  }

  /** Date, connection and framing headers, in that order. */
  method PrepareHeaders(headers: Headers, status: nat, m: Method, body: Body, d: Directive, date: string)
    requires headers.Valid()
    modifies headers
    ensures headers.Valid()
    ensures headers.Model() == Framed(Directed(PutIfAbsent(old(headers.Model()), DATE, date), d), status, m, body)
  {
    FramingKeysAreLower();
    if !headers.Contains(DATE) {
      headers.Insert(DATE, date);
    }
    ApplyConnectionDirective(headers, d);
    ApplyFraming(headers, status, m, body);
  }

  method ComposeHead(response: Response, reasons: Reasons) returns (head: string)
    requires response.headers.Valid()
    ensures head == HeadOf(response.version, response.status, ReasonOf(response.reason, response.status, reasons),
                           response.headers.Model())
  {
    var reason := ReasonOf(response.reason, response.status, reasons);
    head := VersionText(response.version) + " " + ToDecimal(response.status);
    if reason != "" {
      head := head + (" " + reason);
    }
    head := head + "\r\n";
    head := AppendHeaders(head, response.headers);
  }

  method HasBothFramings(headers: Headers) returns (both: bool)
    requires headers.Valid()
    ensures both == (Has(headers.Model(), CONTENT_LENGTH) && Has(headers.Model(), TRANSFER_ENCODING))
  {
    FramingKeysAreLower();
    both := headers.Contains(CONTENT_LENGTH) && headers.Contains(TRANSFER_ENCODING);
  }

  /** Serialises a response, editing its headers and taking its body. */
  method WriteResponse(stream: Stream, response: Response, reasons: Reasons, m: Method, d: Directive, date: string)
    returns (error: Option<EncodeError>)
    requires response.Valid()
    modifies stream`written, response, response.headers
    ensures response.Valid()
    ensures var w := ResponseText(old(response.Value()), reasons, m, d, date);
            stream.written == old(stream.written) + w.bytes && error == w.error
    ensures response.body == Empty && response.trailers == null
    ensures !Conflicting(old(response.Value())) ==>
              response.headers.Model() == FinalHeaders(old(response.Value()), m, d, date)
  {
    hide HeadOf, PayloadText, Framed, Directed, PutIfAbsent;
    ghost var v := response.Value();
    var headers, body, trailers := response.headers, response.body, response.trailers;
    response.body, response.trailers := Empty, null;
    var conflict := HasBothFramings(headers);
    if conflict {
      assert ResponseText(v, reasons, m, d, date) == Written("", Some(ConflictingLengthAndEncoding));
      assert stream.written + "" == stream.written;
      return Some(ConflictingLengthAndEncoding);
    }
    PrepareHeaders(headers, response.status, m, body, d, date);
    assert headers.Model() == FinalHeaders(v, m, d, date);
    if !AllowsBody(response.status, m) {
      body := Empty;
    }
    ResponseTextParts(v, reasons, m, d, date);
    assert (if trailers == null then None else Some(trailers.Model())) == v.trailers;
    error := WriteMessage(stream, response, reasons, body, trailers);
  }

  lemma ResponseTextParts(v: ResponseValue, reasons: Reasons, m: Method, d: Directive, date: string)
    requires !Conflicting(v)
    ensures ResponseText(v, reasons, m, d, date) ==
            After(HeadOf(v.version, v.status, ReasonOf(v.reason, v.status, reasons), FinalHeaders(v, m, d, date)),
                  PayloadText(if AllowsBody(v.status, m) then v.body else Empty, v.trailers))
  {
  }

  /** The head, then the body. */
  method WriteMessage(stream: Stream, response: Response, reasons: Reasons, body: Body, trailers: Headers?)
    returns (error: Option<EncodeError>)
    requires response.headers.Valid() && (trailers != null ==> trailers.Valid())
    modifies stream`written
    ensures var w := After(HeadOf(response.version, response.status, ReasonOf(response.reason, response.status, reasons),
                                  response.headers.Model()),
                           PayloadText(body, if trailers == null then None else Some(trailers.Model())));
            stream.written == old(stream.written) + w.bytes && error == w.error
  {
    ghost var w := PayloadText(body, if trailers == null then None else Some(trailers.Model()));
    var head := ComposeHead(response, reasons);
    stream.WriteAll(head);
    error := WriteBody(stream, body, trailers);
    Assoc(old(stream.written), head, w.bytes);
  }

  method WriteBody(stream: Stream, body: Body, trailers: Headers?) returns (error: Option<EncodeError>)
    requires trailers != null ==> trailers.Valid()
    modifies stream`written
    ensures var w := PayloadText(body, if trailers == null then None else Some(trailers.Model()));
            stream.written == old(stream.written) + w.bytes && error == w.error
  {
    match body {
      case Empty =>
        assert stream.written == stream.written + "";
        error := None;
      case Full(content) =>
        stream.WriteAll(content);
        error := None;
      case Streamed(items) =>
        error := WriteChunkedBody(stream, items, trailers);
    }
  }

  method WriteChunkedBody(stream: Stream, items: seq<Item>, trailers: Headers?) returns (error: Option<EncodeError>)
    requires trailers != null ==> trailers.Valid()
    modifies stream`written
    ensures var w := ChunkedText(items, if trailers == null then None else Some(trailers.Model()));
            stream.written == old(stream.written) + w.bytes && error == w.error
  {
    hide ToHex, PrintFields;
    ghost var fields := if trailers == null then None else Some(trailers.Model());
    ghost var start := stream.written;
    var i := 0;
    assert items[0..] == items;
    while i < |items|
      invariant 0 <= i <= |items|
      invariant trailers != null ==> trailers.Valid() && fields == Some(trailers.Model())
      invariant After(start, ChunkedText(items, fields)) == After(stream.written, ChunkedText(items[i..], fields))
    {
      ghost var here := stream.written;
      assert items[i..][1..] == items[i + 1..];
      ChunkStep(here, items[i..], fields);
      var item := items[i];
      i := i + 1;
      if item.Broken? {
        assert here + "" == here;
        return Some(StreamFailed);
      }
      if item.data == "" {
        assert here + "" == here;
        continue;
      }
      stream.WriteAll(ToHex(|item.data|) + "\r\n");
      stream.WriteAll(item.data);
      stream.WriteAll("\r\n");
      assert stream.written == here + ChunkText(item.data);
    }
    assert items[i..] == [];
    ghost var here := stream.written;
    stream.WriteAll("0\r\n");
    if trailers != null {
      var block := AppendHeaders("", trailers);
      assert block == PrintFields(trailers.Model());
      stream.WriteAll(block);
    } else {
      stream.WriteAll("\r\n");
    }
    LastStep(here, fields);
    return None;
  }

  lemma LastStep(before: string, fields: Option<FieldList>)
    ensures After(before, ChunkedText([], fields)).bytes
         == before + "0\r\n" + (if fields.Some? then PrintFields(fields.value) else "\r\n")
  {
    var tail := if fields.Some? then PrintFields(fields.value) else CRLF;
    assert before + ("0\r\n" + tail) == before + "0\r\n" + tail;
  }

  lemma ChunkStep(before: string, items: seq<Item>, fields: Option<FieldList>)
    requires items != []
    ensures items[0] == Broken ==> ChunkedText(items, fields) == Written("", Some(StreamFailed))
    ensures items[0].Chunk? ==>
      After(before, ChunkedText(items, fields))
      == After(before + (if items[0].data == "" then "" else ChunkText(items[0].data)), ChunkedText(items[1..], fields))
  {
    hide ChunkText, LastChunk;
    if items[0].Chunk? {
      var text := if items[0].data == "" then "" else ChunkText(items[0].data);
      var rest := ChunkedText(items[1..], fields);
      Assoc(before, text, rest.bytes);
    }
  }
}
