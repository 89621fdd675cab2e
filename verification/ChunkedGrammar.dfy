/** The chunked transfer coding as section 7.1 of RFC 9112 defines it, read without regard to any server,
    and how the server's writer and reader relate to it. */
module ChunkedGrammar {
  import opened Wrappers
  import opened Text
  import opened HeaderFields
  import opened RequestHead
  import opened FieldText
  import opened BodyReaders
  import opened BodyLaws
  import opened Encode
  import opened EncodeLaws
  import opened GrammarLaws

  // ---------------------------------------------------------------- the coding

  /** The first line of a text, and what follows its line break. */
  function CutLine(s: string): (r: Option<(string, string)>)
    ensures r.Some? ==> |r.value.1| < |s|
  {
    match Find(s, CRLF)
    case None => None
    case Some(k) => Some((s[..k], s[k + 2..]))
  }

  datatype Coded = Coded(data: string, trailers: FieldList, rest: string)

  /** `trailer-section CRLF`. */
  function ReadTrailers(acc: FieldList, s: string): (r: Option<Coded>)
    ensures r.Some? ==> |r.value.rest| < |s|
    decreases |s|
  {
    match CutLine(s)
    case None => None
    case Some((line, rest)) =>
      if line == "" then Some(Coded("", acc, rest))
      else match ReadFieldLine(line)
        case None => None
        case Some(f) => ReadTrailers(Add(acc, f.name, f.value), rest)
  }

  /** The size a line states: by the grammar, or in a lenient reading also one that is signed or padded. */
  function SizeOf(lenient: bool, line: string): Option<nat> {
    if ChunkSizeOf(line).Some? then ChunkSizeOf(line)
    else if lenient && ToleratedSize(line) then NumberIn(Trim(SizeText(line)), 16)
    else None
  }

  /** `*chunk last-chunk trailer-section CRLF`. */
  function ReadCoding(lenient: bool, s: string): (r: Option<Coded>)
    ensures r.Some? ==> |r.value.rest| < |s|
    decreases |s|
  {
    match CutLine(s)
    case None => None
    case Some((line, rest)) =>
      match SizeOf(lenient, line)
      case None => None
      case Some(n) =>
        if n == 0 then ReadTrailers([], rest)
        else if |rest| < n + 2 || rest[n..n + 2] != CRLF then None
        else match ReadCoding(lenient, rest[n + 2..])
          case None => None
          case Some(c) => Some(Coded(rest[..n] + c.data, c.trailers, c.rest))
  }

  /** The coding as the grammar has it. */
  function ReadChunks(s: string): (r: Option<Coded>)
    ensures r.Some? ==> |r.value.rest| < |s|
  {
    ReadCoding(false, s)
  }

  // ---------------------------------------------------------------- the server's writer

  lemma LineCut(line: string, rest: string)
    requires '\r' !in line
    ensures CutLine(line + CRLF + rest) == Some((line, rest))
  {
    FindAfter(line, CRLF, rest);
    CutBetween(line, CRLF + rest);
    CutBetween(line + CRLF, rest);
    Assoc(line, CRLF, rest);
  }

  lemma PrintedSize(n: nat)
    ensures '\r' !in ToHex(n) && ChunkSizeOf(ToHex(n)) == Some(n)
  {
    hide ToDigits;
    DigitsAreGraphic(n, 16);
    DigitsInBase(n, 16);
    DigitsRoundTrip(n, 16);
    TokenLacks(ToHex(n), '\r');
    TokenLacks(ToHex(n), ';');
    FindNothing(ToHex(n), ";");
  }

  lemma {:induction false} TrailersConform(acc: FieldList, ps: seq<Pair>, rest: string)
    requires forall i :: 0 <= i < |ps| ==> ReadablePair(ps[i])
    ensures ReadTrailers(acc, PrintLines(LinesOf(ps)) + CRLF + rest) == Some(Coded("", CollectFrom(acc, ps), rest))
    decreases |ps|
  {
    hide CutLine, ReadFieldLine;
    if ps == [] {
      assert PrintLines(LinesOf(ps)) + CRLF + rest == "" + CRLF + rest;
      LineCut("", rest);
    } else {
      PrintBlock(LineOf(ps[0]), LinesOf(ps[1..]), rest);
      LineShape(ps[0]);
      FieldLineRead(ps[0]);
      LineCut(LineOf(ps[0]), PrintLines(LinesOf(ps[1..])) + CRLF + rest);
      TrailersConform(Add(acc, ps[0].name, ps[0].value), ps[1..], rest);
    }
  }

  lemma LastChunkConforms(trailers: Option<FieldList>, rest: string)
    requires Readable(TrailersOf(trailers))
    ensures ReadChunks(LastChunk(trailers) + rest) == Some(Coded("", TrailersOf(trailers), rest))
  {
    hide CutLine, ReadTrailers, ChunkSizeOf, ToleratedSize;
    var l := TrailersOf(trailers);
    LastChunkText(trailers, rest);
    PrintedSize(0);
    assert ToHex(0) == "0";
    LineCut("0", PrintFields(l) + rest);
    AllPairsReadable(l);
    TrailersConform([], AllPairs(l), rest);
    CollectAllPairs(l);
  }

  lemma ChunkConforms(data: string, later: string)
    requires data != ""
    ensures ReadChunks(ChunkText(data) + later) == match ReadChunks(later)
              case None => None
              case Some(c) => Some(Coded(data + c.data, c.trailers, c.rest))
  {
    hide CutLine, ChunkSizeOf, ToDigits, ToleratedSize;
    var n := |data|;
    PrintedSize(n);
    ChunkPieces(data, later);
    var rest := data + (CRLF + later);
    LineCut(ToHex(n), rest);
    CutBetween(data, CRLF + later);
    assert rest[n..n + 2] == CRLF && rest[n + 2..] == later;
  }

  /** What the chunked writer prints is of the grammar, means the concatenated chunks and the trailers, and
      ends where it ends, whatever follows. */
  lemma {:induction false} WrittenConforms(items: seq<Item>, trailers: Option<FieldList>, rest: string)
    requires Unbroken(items) && Readable(TrailersOf(trailers))
    ensures ChunkedText(items, trailers).error == None
    ensures ReadChunks(ChunkedText(items, trailers).bytes + rest)
         == Some(Coded(Payload(items), TrailersOf(trailers), rest))
    decreases |items|
  {
    hide ReadChunks, ChunkText;
    if items == [] {
      LastChunkConforms(trailers, rest);
    } else {
      assert items[0].Chunk? && forall i :: 0 <= i < |items[1..]| ==> items[1..][i] == items[i + 1];
      WrittenConforms(items[1..], trailers, rest);
      var data, later := items[0].data, ChunkedText(items[1..], trailers).bytes;
      if data == "" {
        assert "" + later == later && "" + Payload(items[1..]) == Payload(items[1..]);
      } else {
        Assoc(ChunkText(data), later, rest);
        ChunkConforms(data, later + rest);
      }
    }
  }

  // ---------------------------------------------------------------- the server's reader

  predicate TrailersBearable(s: string)
    decreases |s|
  {
    match CutLine(s)
    case None => true
    case Some((line, rest)) => Utf8(line) && (line == "" || TrailersBearable(rest))
  }

  /** Every line up to the end of the coding is UTF-8, and every size is below 2^64. */
  predicate Bearable(s: string)
    decreases |s|
  {
    match CutLine(s)
    case None => true
    case Some((line, rest)) =>
      && Utf8(line)
      && match SizeOf(true, line)
         case None => true
         case Some(n) =>
           n < U64_LIMIT && if n == 0 then TrailersBearable(rest) else |rest| >= n + 2 ==> Bearable(rest[n + 2..])
  }

  /** Some size line that is read is signed or padded. */
  predicate SizesTolerated(s: string)
    decreases |s|
  {
    match CutLine(s)
    case None => false
    case Some((line, rest)) =>
      ToleratedSize(line)
      || match SizeOf(true, line)
         case None => false
         case Some(n) => n > 0 && |rest| >= n + 2 && rest[n..n + 2] == CRLF && SizesTolerated(rest[n + 2..])
  }

  function Verdict(bearable: bool, c: Coded): Decoded {
    Decoded(c.data, if bearable then Ok(Finish(c.trailers, c.rest)) else Err(InvalidChunk))
  }

  lemma {:induction false} TrailersTaken(acc: FieldList, s: string)
    requires ReadTrailers(acc, s).Some?
    ensures DecodeChunked(ReadingTrailers, 0, acc, s)
         == Verdict(TrailersBearable(s), ReadTrailers(acc, s).value)
    decreases |s|
  {
    var (line, rest) := CutLine(s).value;
    if Utf8(line) && line != "" {
      FieldLineLanguage(line);
      TrailerStep(s, acc);
      var f := ParseField(line).value;
      TrailersTaken(Add(acc, f.name, f.value), rest);
    }
    TrailersCarryNothing(acc, s);
  }

  lemma {:induction false} TrailersCarryNothing(acc: FieldList, s: string)
    ensures ReadTrailers(acc, s).Some? ==> ReadTrailers(acc, s).value.data == ""
    decreases |s|
  {
    if CutLine(s).Some? && ReadFieldLine(CutLine(s).value.0).Some? {
      var f := ReadFieldLine(CutLine(s).value.0).value;
      TrailersCarryNothing(Add(acc, f.name, f.value), CutLine(s).value.1);
    }
  }

  /** Data and line break of one chunk. */
  lemma ChunkTaken(n: nat, rest: string)
    requires |rest| >= n + 2 && rest[n..n + 2] == CRLF
    ensures DecodeChunked(ReadingData, n, [], rest) == Emit(rest[..n], DecodeChunked(ReadingSize, 0, [], rest[n + 2..]))
  {
    DataStep(n, [], rest);
    assert rest[n..][..2] == CRLF && rest[n..][2..] == rest[n + 2..];
    CrLfStep(rest[n..], []);
  }

  /** The server reads the lenient sizes, if they are below 2^64. */
  lemma SizesRead(line: string)
    ensures ParseChunkSize(line) == match SizeOf(true, line)
              case None => Err(InvalidChunk)
              case Some(n) => if n < U64_LIMIT then Ok(n) else Err(InvalidChunk)
    ensures ToleratedSize(line) ==> ChunkSizeOf(line).None?
  {
    hide ParseChunkSize, Trim, NumberIn, ChunkSizeOf;
    ChunkSizeExact(line);
    ChunkSizeLanguage(line);
    RefusedSize(line);
  }

  lemma {:induction false} TrailersAccepted(acc: FieldList, s: string)
    requires DecodeChunked(ReadingTrailers, 0, acc, s).end.Ok?
    ensures ReadTrailers(acc, s).Some? && TrailersBearable(s)
    decreases |s|
  {
    var (line, rest) := CutLine(s).value;
    if line != "" {
      FieldLineLanguage(line);
      TrailerStep(s, acc);
      var f := ParseField(line).value;
      TrailersAccepted(Add(acc, f.name, f.value), rest);
    }
  }

  /** A chunk that is read to its end has its data and its line break. */
  lemma ChunkAccepted(n: nat, rest: string)
    requires DecodeChunked(ReadingData, n, [], rest).end.Ok?
    ensures |rest| >= n + 2 && rest[n..n + 2] == CRLF
  {
    DataStep(n, [], rest);
    assert |rest| >= n + 2 ==> rest[n..][..2] == rest[n..n + 2];
  }

  /** One size line of the reader. */
  lemma SizeVerdict(s: string)
    ensures DecodeBody(Chunked, s) == match CutLine(s)
      case None => Decoded("", Err(UnexpectedEof))
      case Some((line, rest)) =>
        if !Utf8(line) then Decoded("", Err(InvalidChunk))
        else match ParseChunkSize(line)
          case Err(e) => Decoded("", Err(e))
          case Ok(n) => DecodeChunked(if n == 0 then ReadingTrailers else ReadingData, n, [], rest)
  {
    hide Utf8, ParseChunkSize;
  }

  /** Data and line break as the reader takes them. */
  lemma ChunkVerdict(n: nat, rest: string)
    ensures var d := DecodeChunked(ReadingData, n, [], rest);
            if |rest| >= n + 2 && rest[n..n + 2] == CRLF then d == Emit(rest[..n], DecodeBody(Chunked, rest[n + 2..]))
            else d.end.Err?
  {
    if |rest| >= n + 2 && rest[n..n + 2] == CRLF {
      ChunkTaken(n, rest);
    } else if DecodeChunked(ReadingData, n, [], rest).end.Ok? {
      ChunkAccepted(n, rest);
    }
  }

  /** The trailer section as the reader takes it. */
  lemma TrailersVerdict(s: string)
    ensures var (r, d) := (ReadTrailers([], s), DecodeChunked(ReadingTrailers, 0, [], s));
            if r.Some? then d == Verdict(TrailersBearable(s), r.value) else d.end.Err?
  {
    hide DecodeChunked;
    if ReadTrailers([], s).Some? {
      TrailersTaken([], s);
    } else if DecodeChunked(ReadingTrailers, 0, [], s).end.Ok? {
      TrailersAccepted([], s);
    }
  }

  /** The reader accepts exactly what can be read leniently and borne, as what it means; what it cannot bear of
      that it refuses as an invalid chunk. */
  lemma {:induction false} LenientlyRead(s: string)
    ensures var (r, d) := (ReadCoding(true, s), DecodeBody(Chunked, s));
      && (d.end.Ok? <==> r.Some? && Bearable(s))
      && (r.Some? && Bearable(s) ==> d == Decoded(r.value.data, Ok(Finish(r.value.trailers, r.value.rest))))
      && (r.Some? && !Bearable(s) ==> d.end == Err(InvalidChunk))
    decreases |s|
  {
    hide SizeOf, ParseChunkSize, Utf8, DecodeBody, DecodeChunked, CutLine, ReadTrailers, TrailersBearable;
    SizeVerdict(s);
    if CutLine(s).Some? {
      var (line, rest) := CutLine(s).value;
      SizesRead(line);
      if ParseChunkSize(line).Ok? {
        var n := ParseChunkSize(line).value;
        TrailersVerdict(rest);
        ChunkVerdict(n, rest);
        if n > 0 && |rest| >= n + 2 {
          assert |rest[n + 2..]| < |s|;
          LenientlyRead(rest[n + 2..]);
        }
      }
    }
  }

  /** The lenient reading differs from the grammar exactly when it succeeds with a signed or padded size, and then
      the text is not of the grammar. */
  lemma {:induction false} LeniencyExactly(s: string)
    ensures SizesTolerated(s) ==> ReadCoding(false, s).None?
    ensures !SizesTolerated(s) ==> ReadCoding(false, s) == ReadCoding(true, s)
    decreases |s|
  {
    hide ChunkSizeOf, ToleratedSize, CutLine, ReadTrailers;
    if CutLine(s).Some? {
      var (line, rest) := CutLine(s).value;
      SizesRead(line);
      var n := SizeOf(true, line);
      if n.Some? && n.value > 0 && |rest| >= n.value + 2 && rest[n.value..n.value + 2] == CRLF {
        LeniencyExactly(rest[n.value + 2..]);
      }
    }
  }

  /** The reader accepts what it can bear of the grammar, and besides exactly the texts that read, and can be
      borne, with some signed or padded size on the way. */
  lemma ReaderLanguage(s: string)
    ensures ReadChunks(s).Some? && Bearable(s) ==> DecodeBody(Chunked, s).end.Ok?
    ensures (DecodeBody(Chunked, s).end.Ok? <==> ReadChunks(s).Some? && Bearable(s)) <==>
              !(ReadCoding(true, s).Some? && Bearable(s) && SizesTolerated(s))
    ensures ReadChunks(s) == ReadCoding(true, s) <==> !(ReadCoding(true, s).Some? && SizesTolerated(s))
  {
    hide Bearable, ReadCoding, DecodeBody;
    LenientlyRead(s);
    LeniencyExactly(s);
  }

  /** Whatever coding of the grammar a peer sends, with extensions, leading zeros, either case and any trailers,
      the server reads the same payload and trailers and leaves the same bytes, if and only if its lines are
      UTF-8 and its sizes below 2^64; it refuses the others. */
  lemma ConformingIsRead(s: string)
    requires ReadChunks(s).Some?
    ensures var (c, d) := (ReadChunks(s).value, DecodeBody(Chunked, s));
            if Bearable(s) then d == Decoded(c.data, Ok(Finish(c.trailers, c.rest))) else d.end == Err(InvalidChunk)
  {
    hide Bearable, DecodeBody;
    LenientlyRead(s);
    LeniencyExactly(s);
  }

  // ---------------------------------------------------------------- lines that are not UTF-8

  /** The letter e with an acute accent in ISO 8859-1: `obs-text` in the grammar, and not UTF-8 on its own. */
  const LATIN := [0xE9 as char]

  lemma LatinIsNotUtf8(before: string, after: string)
    requires (forall c :: c in before ==> c as int < 0x80) && (|after| > 0 ==> after[0] as int < 0x80)
    ensures !Utf8(before + (LATIN + after))
  {
    var s := LATIN + after;
    assert s[0] == 0xE9 as char && (|after| > 0 ==> s[1] == after[0]);
    assert Utf8Prefix(s) == 0;
    Utf8BehindAscii(before, s);
  }

  /** An extension and a trailer of the grammar that the server refuses for a byte. */
  lemma LatinLinesRefused()
    ensures var s := "0;" + LATIN + CRLF + CRLF; ReadChunks(s).Some? && DecodeBody(Chunked, s).end == Err(InvalidChunk)
    ensures var s := "0" + CRLF + ("x: " + LATIN + CRLF + CRLF);
            ReadChunks(s).Some? && DecodeBody(Chunked, s).end == Err(InvalidChunk)
  {
    hide Utf8;
    assert LATIN[0] == 0xE9 as char && |LATIN| == 1;
    LatinExtension();
    LatinTrailer();
  }

  lemma EmptyTrailers(more: string)
    ensures CutLine(CRLF + more) == Some(("", more)) && ReadTrailers([], CRLF + more) == Some(Coded("", [], more))
  {
    LineCut("", more);
    assert "" + CRLF + more == CRLF + more;
  }

  lemma LatinExtension()
    ensures var s := "0;" + LATIN + CRLF + CRLF; ReadChunks(s).Some? && DecodeBody(Chunked, s).end == Err(InvalidChunk)
  {
    hide Utf8, CutLine, DecodeBody, ReadTrailers, ChunkSizeOf, ToleratedSize;
    var line := "0;" + LATIN;
    var s := line + CRLF + CRLF;
    LineCut(line, CRLF);
    LatinSize();
    EmptyTrailers("");
    assert CRLF + "" == CRLF;
    LatinIsNotUtf8("0;", "");
    assert line == "0;" + (LATIN + "");
    ConformingIsRead(s);
  }

  lemma LatinSize()
    ensures ChunkSizeOf("0;" + LATIN) == Some(0)
  {
    hide DigitsValue;
    FindAfter("0", ";", LATIN);
    assert "0" + ";" + LATIN == "0;" + LATIN && ("0;" + LATIN)[..1] == "0";
    DigitsRoundTrip(0, 16);
    assert ToDigits(0, 16) == "0";
  }

  lemma LatinField(name: string)
    requires IsToken(name) && Lower(name) == name
    ensures var line := name + ": " + LATIN; ReadFieldLine(line) == Some(Pair(name, LATIN)) && !Utf8(line) && '\r' !in line
  {
    hide Utf8, Find, TrimOws, Lower;
    var line := name + ": " + LATIN;
    TokenLacks(name, ':');
    TokenLacks(name, '\r');
    FindAfter(name, ":", " " + LATIN);
    assert line == name + ":" + (" " + LATIN) && line[..|name|] == name && line[|name| + 1..] == " " + LATIN;
    assert LATIN[0] == 0xE9 as char && !IsOws(LATIN[0]) && FieldByte(LATIN[0]);
    TrimOwsOfTrimmed(LATIN);
    assert ReadFieldLine(line) == Some(Pair(name, LATIN));
    AsciiName(name);
    LatinIsNotUtf8(name + ": ", "");
    assert line == name + ": " + (LATIN + "");
  }

  lemma AsciiName(name: string)
    requires IsToken(name)
    ensures forall c :: c in name + ": " ==> c as int < 0x80
  {
  }

  lemma LatinTrailer()
    ensures var s := "0" + CRLF + ("x: " + LATIN + CRLF + CRLF);
            ReadChunks(s).Some? && DecodeBody(Chunked, s).end == Err(InvalidChunk)
  {
    hide Utf8, CutLine, DecodeBody, ReadFieldLine, ChunkSizeOf, ToleratedSize;
    var line := "x: " + LATIN;
    var rest := line + CRLF + CRLF;
    PrintedSize(0);
    assert ToHex(0) == "0";
    LineCut("0", rest);
    assert "x" + ": " == "x: ";
    LatinField("x");
    LineCut(line, CRLF);
    LineCut("", "");
    assert CRLF == "" + CRLF + "";
    assert ReadTrailers([], rest).Some?;
    assert !TrailersBearable(rest);
    ConformingIsRead("0" + CRLF + rest);
  }

  /** Printed codings are read by the server, so they are among those it can bear. */
  lemma WrittenIsBearable(items: seq<Item>, trailers: Option<FieldList>)
    requires Sound(items) && Readable(TrailersOf(trailers))
    ensures Bearable(ChunkedText(items, trailers).bytes)
  {
    hide ChunkedText, Bearable, DecodeBody;
    var s := ChunkedText(items, trailers).bytes;
    assert s + "" == s;
    WrittenConforms(items, trailers, "");
    ChunkedRoundTrip(items, trailers, "");
    ConformingIsRead(s);
  }
}
