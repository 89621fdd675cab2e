/** Bodies take exactly their own bytes: what follows a body changes neither its payload nor the verdict. */
module BodyLaws {
  import opened Wrappers
  import opened Text
  import opened HeaderFields
  import opened RequestHead
  import opened FieldText
  import opened BodyReaders
  import opened Encode

  // ---------------------------------------------------------------- independence of what follows

  /** `after` is the decoding of the same body with `more` behind the input of `before`. */
  predicate Extends(before: Decoded, after: Decoded, more: string) {
    match before.end
    case Ok(f) => after == Decoded(before.data, Ok(Finish(f.trailers, f.rest + more)))
    case Err(e) => e == UnexpectedEof || after == before
  }

  predicate RestWithin(d: Decoded, s: string) {
    d.end.Ok? ==> |d.end.value.rest| <= |s| && d.end.value.rest == s[|s| - |d.end.value.rest|..]
  }

  lemma RestDeeper(d: Decoded, s: string, n: nat)
    requires n <= |s| && RestWithin(d, s[n..])
    ensures RestWithin(d, s)
  {
    if d.end.Ok? {
      DropDrop(s, n, |s| - n - |d.end.value.rest|);
    }
  }

  lemma EmitExtends(piece: string, before: Decoded, after: Decoded, more: string)
    requires Extends(before, after, more)
    ensures Extends(Emit(piece, before), Emit(piece, after), more)
  {
  }

  lemma LineExtends(s: string, more: string)
    requires DecodeLine(s) != Err(UnexpectedEof)
    ensures DecodeLine(s).Err? ==> DecodeLine(s + more) == DecodeLine(s)
    ensures DecodeLine(s).Ok? ==>
              DecodeLine(s + more) == Ok((DecodeLine(s).value.0, DecodeLine(s).value.1 + more))
  {
    var k := Find(s, CRLF).value;
    FindExtends(s, more, CRLF);
    assert (s + more)[..k] == s[..k];
    assert (s + more)[k + 2..] == s[k + 2..] + more;
  }

  lemma LineRest(s: string)
    ensures DecodeLine(s).Ok? ==> exists n :: 2 <= n <= |s| && DecodeLine(s).value.1 == s[n..]
  {
    if Find(s, CRLF).Some? {
      var k := Find(s, CRLF).value;
      assert DecodeLine(s).Ok? ==> DecodeLine(s).value.1 == s[k + 2..];
    }
  }

  lemma ErrorRest(d: Decoded, s: string)
    ensures d.end.Err? ==> RestWithin(d, s)
  {
  }

  lemma EmitRest(piece: string, d: Decoded, s: string)
    ensures RestWithin(Emit(piece, d), s) == RestWithin(d, s)
  {
  }

  lemma WholeRest(trailers: FieldList, s: string)
    ensures RestWithin(Decoded("", Ok(Finish(trailers, s))), s)
  {
  }

  lemma {:induction false} ChunkedRest(state: ChunkState, remaining: nat, trailers: FieldList, s: string)
    ensures RestWithin(DecodeChunked(state, remaining, trailers, s), s)
    decreases |s|, if state.ReadingData? then 1 else 0
  {
    hide DecodeLine, ParseChunkSize, ParseField, Add, RestWithin;
    ErrorRest(DecodeChunked(state, remaining, trailers, s), s);
    match state {
      case ReadingSize =>
        LineRest(s);
        if DecodeLine(s).Ok? && ParseChunkSize(DecodeLine(s).value.0).Ok? {
          var n :| 2 <= n <= |s| && DecodeLine(s).value.1 == s[n..];
          SizeStep(s, trailers);
          var size := ParseChunkSize(DecodeLine(s).value.0).value;
          var next := if size == 0 then ReadingTrailers else ReadingData;
          ChunkedRest(next, size, trailers, s[n..]);
          RestDeeper(DecodeChunked(next, size, trailers, s[n..]), s, n);
        }
      case ReadingData =>
        if remaining <= |s| {
          ChunkedRest(ExpectingCrLf, 0, trailers, s[remaining..]);
          RestDeeper(DecodeChunked(ExpectingCrLf, 0, trailers, s[remaining..]), s, remaining);
          EmitRest(s[..remaining], DecodeChunked(ExpectingCrLf, 0, trailers, s[remaining..]), s);
        }
      case ExpectingCrLf =>
        if |s| >= 2 && s[..2] == CRLF {
          ChunkedRest(ReadingSize, 0, trailers, s[2..]);
          RestDeeper(DecodeChunked(ReadingSize, 0, trailers, s[2..]), s, 2);
        }
      case ReadingTrailers =>
        LineRest(s);
        if DecodeLine(s).Ok? {
          var n :| 2 <= n <= |s| && DecodeLine(s).value.1 == s[n..];
          WholeRest(trailers, s[n..]);
          RestDeeper(Decoded("", Ok(Finish(trailers, s[n..]))), s, n);
          if DecodeLine(s).value.0 != "" && ParseField(DecodeLine(s).value.0).Ok? {
            TrailerStep(s, trailers);
            var f := ParseField(DecodeLine(s).value.0).value;
            ChunkedRest(ReadingTrailers, 0, Add(trailers, f.name, f.value), s[n..]);
            RestDeeper(DecodeChunked(ReadingTrailers, 0, Add(trailers, f.name, f.value), s[n..]), s, n);
          }
        }
      case Done => WholeRest(trailers, s);
    }
  }

  lemma {:induction false} ChunkedExtends(state: ChunkState, remaining: nat, trailers: FieldList, s: string, more: string)
    ensures Extends(DecodeChunked(state, remaining, trailers, s), DecodeChunked(state, remaining, trailers, s + more), more)
    decreases |s|, if state.ReadingData? then 1 else 0
  {
    match state {
      case ReadingSize =>
        if DecodeLine(s) != Err(UnexpectedEof) {
          LineExtends(s, more);
          if DecodeLine(s).Ok? && ParseChunkSize(DecodeLine(s).value.0).Ok? {
            SizeStep(s, trailers);
            SizeStep(s + more, trailers);
            var size := ParseChunkSize(DecodeLine(s).value.0).value;
            ChunkedExtends(if size == 0 then ReadingTrailers else ReadingData, size, trailers, DecodeLine(s).value.1, more);
          }
        }
      case ReadingData =>
        if remaining <= |s| {
          DataStep(remaining, trailers, s);
          DataStep(remaining, trailers, s + more);
          CutInside(s, more, remaining);
          ChunkedExtends(ExpectingCrLf, 0, trailers, s[remaining..], more);
          EmitExtends(s[..remaining], DecodeChunked(ExpectingCrLf, 0, trailers, s[remaining..]),
                      DecodeChunked(ExpectingCrLf, 0, trailers, s[remaining..] + more), more);
        }
      case ExpectingCrLf =>
        if |s| >= 2 {
          CutInside(s, more, 2);
          CrLfStep(s, trailers);
          CrLfStep(s + more, trailers);
          if s[..2] == CRLF {
            ChunkedExtends(ReadingSize, 0, trailers, s[2..], more);
          }
        }
      case ReadingTrailers =>
        if DecodeLine(s) != Err(UnexpectedEof) {
          LineExtends(s, more);
          if DecodeLine(s).Ok? && DecodeLine(s).value.0 != "" && ParseField(DecodeLine(s).value.0).Ok? {
            TrailerStep(s, trailers);
            TrailerStep(s + more, trailers);
            var f := ParseField(DecodeLine(s).value.0).value;
            ChunkedExtends(ReadingTrailers, 0, Add(trailers, f.name, f.value), DecodeLine(s).value.1, more);
          }
        }
      case Done =>
    }
  }

  lemma CutInside(a: string, b: string, n: nat)
    requires n <= |a|
    ensures (a + b)[..n] == a[..n] && (a + b)[n..] == a[n..] + b
  {
  }

  /** A body that decodes, or fails for any reason but lack of bytes, does so whatever follows it; the
      bytes left over are the end of the input, followed by the new ones. */
  lemma BodyExtends(mode: BodyMode, s: string, more: string)
    ensures Extends(DecodeBody(mode, s), DecodeBody(mode, s + more), more)
    ensures RestWithin(DecodeBody(mode, s), s)
  {
    match mode {
      case NoBody =>
      case Fixed(n) => if n <= |s| { CutInside(s, more, n); }
      case Chunked =>
        ChunkedExtends(ReadingSize, 0, [], s, more);
        ChunkedRest(ReadingSize, 0, [], s);
    }
  }

  lemma {:induction false} ChunkedErrors(state: ChunkState, remaining: nat, trailers: FieldList, s: string)
    ensures var d := DecodeChunked(state, remaining, trailers, s); d.end.Err? ==> !d.end.error.Interrupted?
    decreases |s|, if state.ReadingData? then 1 else 0
  {
    match state {
      case ReadingSize =>
        if DecodeLine(s).Ok? && ParseChunkSize(DecodeLine(s).value.0).Ok? {
          var size := ParseChunkSize(DecodeLine(s).value.0).value;
          ChunkedErrors(if size == 0 then ReadingTrailers else ReadingData, size, trailers, DecodeLine(s).value.1);
        }
      case ReadingData =>
        if remaining <= |s| { ChunkedErrors(ExpectingCrLf, 0, trailers, s[remaining..]); }
      case ExpectingCrLf =>
        if |s| >= 2 { ChunkedErrors(ReadingSize, 0, trailers, s[2..]); }
      case ReadingTrailers =>
        if DecodeLine(s).Ok? && ParseField(DecodeLine(s).value.0).Ok? {
          var f := ParseField(DecodeLine(s).value.0).value;
          ChunkedErrors(ReadingTrailers, 0, Add(trailers, f.name, f.value), DecodeLine(s).value.1);
        }
      case Done =>
    }
  }

  /** Whether a body is in error never depends on the transport. */
  lemma BodyErrors(mode: BodyMode, s: string)
    ensures DecodeBody(mode, s).end.Err? ==> !DecodeBody(mode, s).end.error.Interrupted?
    ensures DecodeBody(NoBody, s) == Decoded("", Ok(Finish([], s)))
  {
    ChunkedErrors(ReadingSize, 0, [], s);
  }

  // ---------------------------------------------------------------- chunked text there and back

  /** The payload of a stream that does not break. */
  function Payload(items: seq<Item>): string {
    if items == [] then ""
    else (if items[0].Chunk? then items[0].data else "") + Payload(items[1..])
  }

  predicate Sound(items: seq<Item>) {
    forall i :: 0 <= i < |items| ==> items[i].Chunk? && |items[i].data| < U64_LIMIT
  }

  lemma HexLine(n: nat)
    requires n < U64_LIMIT
    ensures '\r' !in ToHex(n) && Utf8(ToHex(n)) && ParseChunkSize(ToHex(n)) == Ok(n)
  {
    var h := ToHex(n);
    DigitsAreGraphic(n, 16);
    TokenLacks(h, '\r');
    TokenLacks(h, ';');
    Utf8Token(h);
    FindNothing(h, ";");
    ParsePrinted(n, 16, U64_LIMIT);
  }

  lemma TextLine(line: string, rest: string)
    requires '\r' !in line && Utf8(line)
    ensures DecodeLine(line + CRLF + rest) == Ok((line, rest))
  {
    FindAfter(line, CRLF, rest);
    CutBetween(line, CRLF + rest);
    CutBetween(line + CRLF, rest);
    Assoc(line, CRLF, rest);
  }

  lemma ChunkRead(data: string, trailers: FieldList, rest: string)
    requires 0 < |data| < U64_LIMIT
    ensures DecodeChunked(ReadingSize, 0, trailers, ChunkText(data) + rest)
         == Emit(data, DecodeChunked(ReadingSize, 0, trailers, rest))
  {
    var n := |data|;
    HexLine(n);
    var s := ChunkText(data) + rest;
    ChunkPieces(data, rest);
    TextLine(ToHex(n), data + (CRLF + rest));
    SizeStep(s, trailers);
    CutBetween(data, CRLF + rest);
    DataStep(n, trailers, data + (CRLF + rest));
    CutBetween(CRLF, rest);
    CrLfStep(CRLF + rest, trailers);
  }

  lemma ChunkPieces(data: string, rest: string)
    ensures ChunkText(data) + rest == ToHex(|data|) + CRLF + (data + (CRLF + rest))
  {
    var h := ToHex(|data|) + CRLF;
    assert ChunkText(data) == h + data + CRLF;
    Assoc(h + data, CRLF, rest);
    Assoc(h, data, CRLF + rest);
  }

  lemma {:induction false} TrailersRead(acc: FieldList, ps: seq<Pair>, rest: string)
    requires forall i :: 0 <= i < |ps| ==> ReadablePair(ps[i])
    ensures DecodeChunked(ReadingTrailers, 0, acc, PrintLines(LinesOf(ps)) + CRLF + rest)
         == Decoded("", Ok(Finish(CollectFrom(acc, ps), rest)))
    decreases |ps|
  {
    var s := PrintLines(LinesOf(ps)) + CRLF + rest;
    if ps == [] {
      assert s == "" + CRLF + rest;
      TextLine("", rest);
    } else {
      var tail := PrintLines(LinesOf(ps[1..])) + CRLF + rest;
      PrintBlock(LineOf(ps[0]), LinesOf(ps[1..]), rest);
      assert s == LineOf(ps[0]) + CRLF + tail;
      LineShape(ps[0]);
      LineRoundTrip(ps[0]);
      TextLine(LineOf(ps[0]), tail);
      TrailerStep(s, acc);
      TrailersRead(Add(acc, ps[0].name, ps[0].value), ps[1..], rest);
    }
  }

  lemma TrailerSection(l: FieldList, rest: string)
    requires Readable(l)
    ensures DecodeChunked(ReadingTrailers, 0, [], PrintFields(l) + rest) == Decoded("", Ok(Finish(l, rest)))
  {
    AllPairsReadable(l);
    TrailersRead([], AllPairs(l), rest);
    CollectAllPairs(l);
  }

  lemma ZeroLine(rest: string)
    ensures DecodeChunked(ReadingSize, 0, [], "0" + CRLF + rest) == DecodeChunked(ReadingTrailers, 0, [], rest)
  {
    HexLine(0);
    assert ToHex(0) == "0";
    TextLine("0", rest);
    SizeStep("0" + CRLF + rest, []);
  }

  function TrailersOf(trailers: Option<FieldList>): FieldList {
    if trailers.Some? then trailers.value else []
  }

  lemma LastChunkText(trailers: Option<FieldList>, rest: string)
    ensures LastChunk(trailers) + rest == "0" + CRLF + (PrintFields(TrailersOf(trailers)) + rest)
  {
    assert PrintFields([]) == CRLF;
    assert "0" + CRLF == "0\r\n";
    Assoc("0" + CRLF, PrintFields(TrailersOf(trailers)), rest);
  }

  lemma LastChunkRead(trailers: Option<FieldList>, rest: string)
    requires Readable(TrailersOf(trailers))
    ensures DecodeChunked(ReadingSize, 0, [], LastChunk(trailers) + rest)
         == Decoded("", Ok(Finish(TrailersOf(trailers), rest)))
  {
    LastChunkText(trailers, rest);
    ZeroLine(PrintFields(TrailersOf(trailers)) + rest);
    TrailerSection(TrailersOf(trailers), rest);
  }

  /** One more piece in front: its text decodes to its data and then whatever the later text decodes to. */
  lemma PieceRead(data: string, later: string, rest: string)
    requires |data| < U64_LIMIT
    ensures DecodeChunked(ReadingSize, 0, [], (if data == "" then "" else ChunkText(data)) + later + rest)
         == Emit(data, DecodeChunked(ReadingSize, 0, [], later + rest))
  {
    if data == "" {
      assert "" + later == later;
    } else {
      ChunkRead(data, [], later + rest);
      Assoc(ChunkText(data), later, rest);
    }
  }

  /** Reading back what the chunked writer printed gives the concatenated chunks, the same trailers, and
      leaves exactly what follows, for chunks and trailers of any number and any following bytes. */
  lemma {:induction false} ChunkedRoundTrip(items: seq<Item>, trailers: Option<FieldList>, rest: string)
    requires Sound(items) && Readable(TrailersOf(trailers))
    ensures ChunkedText(items, trailers).error == None
    ensures DecodeBody(Chunked, ChunkedText(items, trailers).bytes + rest)
         == Decoded(Payload(items), Ok(Finish(TrailersOf(trailers), rest)))
    decreases |items|
  {
    if items == [] {
      LastChunkRead(trailers, rest);
    } else {
      SoundTail(items);
      ChunkedRoundTrip(items[1..], trailers, rest);
      PieceRead(items[0].data, ChunkedText(items[1..], trailers).bytes, rest);
    }
  }

  lemma SoundTail(items: seq<Item>)
    requires Sound(items) && items != []
    ensures Sound(items[1..]) && items[0].Chunk? && |items[0].data| < U64_LIMIT
  {
    assert forall i :: 0 <= i < |items[1..]| ==> items[1..][i] == items[i + 1];
  }
}
