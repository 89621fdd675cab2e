/** Message bodies: pure decoders of a whole byte string, and the readers that take their bytes from a
    shared buffer and a stream. */
module BodyReaders {
  import opened Wrappers
  import opened Text
  import opened HeaderFields
  import opened RequestHead
  import opened Transport

  datatype BodyError = UnexpectedEof | InvalidChunk | InvalidTrailer(cause: ParseError) | Interrupted(fault: Fault)

  // ---------------------------------------------------------------- pure decoders

  /** How a body ends: its trailers and the bytes that follow it. */
  datatype Finish = Finish(trailers: FieldList, rest: string)

  /** The payload found before the end or the first error. */
  datatype Decoded = Decoded(data: string, end: Result<Finish, BodyError>)

  function Emit(piece: string, d: Decoded): Decoded {
    Decoded(piece + d.data, d.end)
  }

  function DecodeFixed(length: nat, s: string): Decoded {
    if |s| < length then Decoded(s, Err(UnexpectedEof))
    else Decoded(s[..length], Ok(Finish([], s[length..])))
  }

  /** The text up to the first CRLF, and what follows it. */
  function DecodeLine(s: string): (r: Result<(string, string), BodyError>)
    ensures r.Ok? ==> |r.value.1| + 2 <= |s|
  {
    match Find(s, CRLF)
    case None => Err(UnexpectedEof)
    case Some(k) => if Utf8(s[..k]) then Ok((s[..k], s[k + 2..])) else Err(InvalidChunk)
  }

  /** A chunk size in hexadecimal; an extension after `;` is ignored. */
  function ParseChunkSize(line: string): Result<nat, BodyError> {
    var size := match Find(line, ";")
                case None => line
                case Some(k) => line[..k];
    match ParseUnsigned(Trim(size), 16, U64_LIMIT)
    case None => Err(InvalidChunk)
    case Some(n) => Ok(n)
  }

  datatype ChunkState = ReadingSize | ReadingData | ExpectingCrLf | ReadingTrailers | Done

  /** The chunked coding, continued from any reader state. */
  function DecodeChunked(state: ChunkState, remaining: nat, trailers: FieldList, s: string): Decoded
    decreases |s|, if state.ReadingData? then 1 else 0
  {
    match state
    case ReadingSize =>
      (match DecodeLine(s)
       case Err(e) => Decoded("", Err(e))
       case Ok((line, rest)) =>
         match ParseChunkSize(line)
         case Err(e) => Decoded("", Err(e))
         case Ok(n) => DecodeChunked(if n == 0 then ReadingTrailers else ReadingData, n, trailers, rest))
    case ReadingData =>
      if |s| < remaining then Decoded(s, Err(UnexpectedEof))
      else Emit(s[..remaining], DecodeChunked(ExpectingCrLf, 0, trailers, s[remaining..]))
    case ExpectingCrLf =>
      if |s| < 2 then Decoded("", Err(UnexpectedEof))
      else if s[..2] != CRLF then Decoded("", Err(InvalidChunk))
      else DecodeChunked(ReadingSize, 0, trailers, s[2..])
    case ReadingTrailers =>
      (match DecodeLine(s)
       case Err(e) => Decoded("", Err(e))
       case Ok((line, rest)) =>
         if line == "" then Decoded("", Ok(Finish(trailers, rest)))
         else match ParseField(line)
           case Err(e) => Decoded("", Err(InvalidTrailer(e)))
           case Ok(f) => DecodeChunked(ReadingTrailers, 0, Add(trailers, f.name, f.value), rest))
    case Done => Decoded("", Ok(Finish(trailers, s)))
  }

  function DecodeBody(mode: BodyMode, s: string): Decoded {
    match mode
    case NoBody => Decoded("", Ok(Finish([], s)))
    case Fixed(n) => DecodeFixed(n, s)
    case Chunked => DecodeChunked(ReadingSize, 0, [], s)
  }

  /** The error a reader reports: bytes that a fault kept from arriving are not a premature end. */
  function Reported(e: BodyError, fault: Option<Fault>): BodyError {
    if e == UnexpectedEof && fault.Some? then Interrupted(fault.value) else e
  }

  /** Nothing can be decoded, for the reason given. */
  predicate Failing(d: Decoded, fault: Option<Fault>, error: BodyError) {
    d.data == "" && d.end.Err? && error == Reported(d.end.error, fault)
  }

  /** What one successful, ended or failed read does to the body still to be decoded. */
  predicate Progress(before: Decoded, after: Decoded, fault: Option<Fault>, r: Result<Option<string>, BodyError>) {
    match r
    case Ok(Some(piece)) => piece != "" && before == Emit(piece, after)
    case Ok(None) => before == after && before.data == "" && before.end.Ok?
    case Err(e) => Failing(before, fault, e)
  }

  function Min(a: nat, b: nat): nat {
    if a < b then a else b
  }

  // ---------------------------------------------------------------- fixed length

  class FixedBodyReader {
    const stream: Stream
    const buffer: Buffer
    var remaining: nat

    constructor (length: nat, stream: Stream, buffer: Buffer)
      ensures this.stream == stream && this.buffer == buffer && remaining == length
    {
      this.stream, this.buffer, remaining := stream, buffer, length;
    }

    /** The body still to be read. */
    ghost function Ahead(): Decoded
      reads this, stream, buffer
    {
      DecodeFixed(remaining, buffer.data + stream.unread)
    }

    method ReadNext() returns (r: Result<Option<string>, BodyError>)
      modifies this`remaining, stream`unread, buffer
      ensures Progress(old(Ahead()), Ahead(), stream.fault, r)
      ensures r.Ok? && r.value.Some? ==> old(buffer.data + stream.unread) == r.value.value + (buffer.data + stream.unread)
      ensures r == Ok(None) ==> remaining == 0
      ensures old(remaining) == 0 ==> r == Ok(None) && unchanged(this) && unchanged(stream) && unchanged(buffer)
    {
      if remaining == 0 {
        return Ok(None);
      }
      if buffer.data != "" {
        var available := Min(|buffer.data|, remaining);
        var piece := buffer.data[..available];
        SplitFixed(remaining, piece, buffer.data[available..] + stream.unread);
        assert buffer.data + stream.unread == piece + (buffer.data[available..] + stream.unread);
        buffer.data := buffer.data[available..];
        remaining := remaining - available;
        return Ok(Some(piece));
      }
      var read := stream.Read(Min(remaining, 8 * 1024));
      if read.Err? {
        return Err(Interrupted(read.error));
      }
      if read.value == "" {
        return Err(UnexpectedEof);
      }
      assert old(buffer.data + stream.unread) == read.value + (buffer.data + stream.unread);
      SplitFixed(remaining, read.value, buffer.data + stream.unread);
      remaining := remaining - |read.value|;
      return Ok(Some(read.value));
    }
  }

  lemma SplitFixed(length: nat, piece: string, s: string)
    requires |piece| <= length
    ensures DecodeFixed(length, piece + s) == Emit(piece, DecodeFixed(length - |piece|, s))
  {
    if |piece + s| >= length {
      CutBehind(piece, s, length);
    }
  }

  // ---------------------------------------------------------------- chunked

  lemma CrLfStep(s: string, trailers: FieldList)
    ensures |s| >= 2 && s[..2] != CRLF ==> DecodeChunked(ExpectingCrLf, 0, trailers, s) == Decoded("", Err(InvalidChunk))
    ensures |s| >= 2 && s[..2] == CRLF ==>
              DecodeChunked(ExpectingCrLf, 0, trailers, s) == DecodeChunked(ReadingSize, 0, trailers, s[2..])
  {
  }

  lemma SizeStep(s: string, trailers: FieldList)
    requires DecodeLine(s).Ok? && ParseChunkSize(DecodeLine(s).value.0).Ok?
    ensures var ((line, rest), n) := (DecodeLine(s).value, ParseChunkSize(DecodeLine(s).value.0).value);
            DecodeChunked(ReadingSize, 0, trailers, s)
            == DecodeChunked(if n == 0 then ReadingTrailers else ReadingData, n, trailers, rest)
  {
  }

  lemma TrailerStep(s: string, trailers: FieldList)
    requires DecodeLine(s).Ok? && DecodeLine(s).value.0 != "" && ParseField(DecodeLine(s).value.0).Ok?
    ensures var ((line, rest), f) := (DecodeLine(s).value, ParseField(DecodeLine(s).value.0).value);
            DecodeChunked(ReadingTrailers, 0, trailers, s)
            == DecodeChunked(ReadingTrailers, 0, Add(trailers, f.name, f.value), rest)
  {
  }

  class ChunkedBodyReader {
    const stream: Stream
    const buffer: Buffer
    var state: ChunkState
    var currentChunkRemaining: nat
    const trailers: Headers
    var trailersComplete: bool

    constructor (stream: Stream, buffer: Buffer)
      ensures this.stream == stream && this.buffer == buffer && fresh(trailers)
      ensures Valid() && state == ReadingSize && trailers.Model() == []
    {
      this.stream, this.buffer := stream, buffer;
      state, currentChunkRemaining, trailersComplete := ReadingSize, 0, false;
      trailers := new Headers();
    }

    /** Only ReadingData has bytes left in its chunk, and the trailers are complete exactly when Done. */
    ghost predicate Valid()
      reads this, trailers
    {
      && trailers.Valid()
      && (state.ReadingData? <==> currentChunkRemaining > 0)
      && (trailersComplete <==> state.Done?)
    }

    ghost function Input(): string
      reads stream, buffer
    {
      buffer.data + stream.unread
    }

    /** The body still to be read. */
    ghost function Ahead(): Decoded
      requires Valid()
      reads this, stream, buffer, trailers
    {
      DecodeChunked(state, currentChunkRemaining, trailers.Model(), Input())
    }

    method ReadLine() returns (r: Result<string, BodyError>)
      modifies stream`unread, buffer
      ensures match DecodeLine(old(Input()))
        case Err(e) => r == Err(Reported(e, stream.fault))
        case Ok((line, rest)) => r == Ok(line) && Input() == rest
    {
      while true
        invariant Input() == old(Input())
        decreases |stream.unread|
      {
        var pos := Find(buffer.data, CRLF);
        if pos.Some? {
          var k := pos.value;
          FindExtends(buffer.data, stream.unread, CRLF);
          var line := buffer.data[..k];
          assert Input()[..k] == line && Input()[k + 2..] == buffer.data[k + 2..] + stream.unread;
          buffer.data := buffer.data[k + 2..];
          return if Utf8(line) then Ok(line) else Err(InvalidChunk);
        }
        assert stream.unread == "" ==> Input() == buffer.data;
        var read := stream.ReadBuf(buffer);
        if read.Err? {
          return Err(Interrupted(read.error));
        }
        if read.value == 0 {
          return Err(UnexpectedEof);
        }
      }
    }

    method ReadNext() returns (r: Result<Option<string>, BodyError>)
      requires Valid()
      modifies this`state, this`currentChunkRemaining, this`trailersComplete, stream`unread, buffer, trailers
      ensures Valid()
      ensures Progress(old(Ahead()), Ahead(), stream.fault, r)
      ensures r.Ok? && r.value.Some? ==> |buffer.data + stream.unread| < |old(buffer.data + stream.unread)|
      ensures r == Ok(None) ==> state.Done?
      ensures old(state).Done? ==> r == Ok(None) && unchanged(this) && unchanged(stream) && unchanged(buffer) && unchanged(trailers)
    {
      while true
        invariant Valid()
        invariant Ahead() == old(Ahead())
        invariant |Input()| <= |old(Input())|
        invariant old(state).Done? ==> unchanged(this) && unchanged(stream) && unchanged(buffer) && unchanged(trailers)
        decreases |Input()|, |stream.unread|
      {
        match state {
          case ReadingSize =>
            var error := ReadSize();
            if error.Some? { return Err(error.value); }
          case ReadingData =>
            r := ReadData();
            return;
          case ExpectingCrLf =>
            var error := ReadCrLf();
            if error.Some? { return Err(error.value); }
          case ReadingTrailers =>
            var error := ReadTrailer();
            if error.Some? { return Err(error.value); }
            if state.Done? { return Ok(None); }
          case Done =>
            return Ok(None);
        }
      }
    }

    /** The size line of a chunk. */
    method ReadSize() returns (error: Option<BodyError>)
      requires Valid() && state.ReadingSize?
      modifies this`state, this`currentChunkRemaining, stream`unread, buffer
      ensures Valid() && !state.Done?
      ensures error.None? ==> Ahead() == old(Ahead()) && |Input()| < |old(Input())|
      ensures error.Some? ==> Failing(old(Ahead()), stream.fault, error.value)
    {
      ghost var s, fields := Input(), trailers.Model();
      var line := ReadLine();
      if line.Err? { return Some(line.error); }
      var size := ParseChunkSize(line.value);
      if size.Err? { return Some(size.error); }
      SizeStep(s, fields);
      if size.value == 0 {
        state := ReadingTrailers;
      } else {
        currentChunkRemaining := size.value;
        state := ReadingData;
      }
      return None;
    }

    /** The line break after the data of a chunk; with fewer than two bytes at hand, one more read. */
    method ReadCrLf() returns (error: Option<BodyError>)
      requires Valid() && state.ExpectingCrLf?
      modifies this`state, stream`unread, buffer
      ensures Valid() && !state.Done?
      ensures error.None? ==>
        && Ahead() == old(Ahead())
        && (|Input()| < |old(Input())| || (Input() == old(Input()) && |stream.unread| < |old(stream.unread)|))
      ensures error.Some? ==> Failing(old(Ahead()), stream.fault, error.value)
    {
      ghost var s, fields := Input(), trailers.Model();
      if |buffer.data| < 2 {
        var read := stream.ReadBuf(buffer);
        if read.Err? { return Some(Interrupted(read.error)); }
        return if read.value == 0 then Some(UnexpectedEof) else None;
      }
      CrLfStep(s, fields);
      assert s[..2] == buffer.data[..2];
      assert s[2..] == buffer.data[2..] + stream.unread;
      if buffer.data[..2] != CRLF { return Some(InvalidChunk); }
      buffer.data := buffer.data[2..];
      state := ReadingSize;
      return None;
    }

    /** One line of the trailer section; the empty one ends the body. */
    method ReadTrailer() returns (error: Option<BodyError>)
      requires Valid() && state.ReadingTrailers?
      modifies this`state, this`trailersComplete, stream`unread, buffer, trailers
      ensures Valid()
      ensures error.None? ==> Ahead() == old(Ahead()) && |Input()| < |old(Input())|
      ensures error.Some? ==> Failing(old(Ahead()), stream.fault, error.value)
      ensures state.Done? ==> error == None
    {
      ghost var s, fields := Input(), trailers.Model();
      var line := ReadLine();
      if line.Err? { return Some(line.error); }
      if line.value == "" {
        state := Done;
        trailersComplete := true;
        return None;
      }
      var field := ParseField(line.value);
      if field.Err? { return Some(InvalidTrailer(field.error)); }
      TrailerStep(s, fields);
      FieldNameIsLower(line.value);
      trailers.Append(field.value.name, field.value.value);
      return None;
    }

    /** One piece of the current chunk, from the buffer if it holds anything, else from the stream. */
    method ReadData() returns (r: Result<Option<string>, BodyError>)
      requires Valid() && state.ReadingData?
      modifies this`state, this`currentChunkRemaining, stream`unread, buffer
      ensures Valid() && !state.Done?
      ensures Progress(old(Ahead()), Ahead(), stream.fault, r) && r != Ok(None)
      ensures r.Ok? && r.value.Some? ==> old(Input()) == r.value.value + Input()
    {
      var before := currentChunkRemaining;
      ghost var input, fields := Input(), trailers.Model();
      var piece;
      if buffer.data != "" {
        var available := Min(|buffer.data|, currentChunkRemaining);
        piece := buffer.data[..available];
        buffer.data := buffer.data[available..];
      } else {
        var read := stream.Read(Min(currentChunkRemaining, 8 * 1024));
        if read.Err? { return Err(Interrupted(read.error)); }
        if read.value == "" { return Err(UnexpectedEof); }
        piece := read.value;
      }
      assert input == piece + Input();
      SplitData(before, piece, fields, Input());
      currentChunkRemaining := currentChunkRemaining - |piece|;
      if currentChunkRemaining == 0 {
        state := ExpectingCrLf;
      }
      return Ok(Some(piece));
    }
  }

  lemma SplitData(remaining: nat, piece: string, trailers: FieldList, s: string)
    requires 0 < |piece| <= remaining
    ensures DecodeChunked(ReadingData, remaining, trailers, piece + s) ==
            Emit(piece, if |piece| == remaining then DecodeChunked(ExpectingCrLf, 0, trailers, s)
                        else DecodeChunked(ReadingData, remaining - |piece|, trailers, s))
  {
    if |piece + s| >= remaining {
      CutBehind(piece, s, remaining);
      DataStep(remaining, trailers, piece + s);
      if |piece| == remaining {
        assert piece + s[..0] == piece && s[0..] == s;
      } else {
        DataStep(remaining - |piece|, trailers, s);
        Assoc(piece, s[..remaining - |piece|], DecodeChunked(ExpectingCrLf, 0, trailers, s[remaining - |piece|..]).data);
      }
    }
  }

  lemma DataStep(remaining: nat, trailers: FieldList, s: string)
    requires remaining <= |s|
    ensures DecodeChunked(ReadingData, remaining, trailers, s) ==
            Emit(s[..remaining], DecodeChunked(ExpectingCrLf, 0, trailers, s[remaining..]))
  {
  }

  // ---------------------------------------------------------------- any body

  datatype BodyReader = EmptyReader | FixedReader(fixed: FixedBodyReader) | ChunkedReader(chunked: ChunkedBodyReader) {

    /** The objects of the reader itself, besides the shared buffer and stream. */
    function Repr(): set<object> {
      match this
      case EmptyReader => {}
      case FixedReader(f) => {f}
      case ChunkedReader(c) => {c, c.trailers}
    }

    ghost predicate Valid(stream: Stream, buffer: Buffer)
      reads Repr()
    {
      match this
      case EmptyReader => true
      case FixedReader(f) => f.stream == stream && f.buffer == buffer
      case ChunkedReader(c) => c.stream == stream && c.buffer == buffer && c.Valid()
    }

    /** The body still to be read. */
    ghost function Ahead(stream: Stream, buffer: Buffer): Decoded
      requires Valid(stream, buffer)
      reads Repr(), stream, buffer
    {
      match this
      case EmptyReader => Decoded("", Ok(Finish([], buffer.data + stream.unread)))
      case FixedReader(f) => f.Ahead()
      case ChunkedReader(c) => c.Ahead()
    }

    /** Nothing of the body is left to be read. */
    predicate IsFinished()
      reads Repr()
    {
      match this
      case EmptyReader => true
      case FixedReader(f) => f.remaining == 0
      case ChunkedReader(c) => c.state == Done
    }

    /** The next piece of the body, or nothing once it has been fully consumed. */
    method ReadNext(stream: Stream, buffer: Buffer) returns (r: Result<Option<string>, BodyError>)
      requires Valid(stream, buffer)
      modifies Repr(), stream`unread, buffer
      ensures Valid(stream, buffer)
      ensures Progress(old(Ahead(stream, buffer)), Ahead(stream, buffer), stream.fault, r)
      ensures r.Ok? && r.value.Some? ==> |buffer.data + stream.unread| < |old(buffer.data + stream.unread)|
      ensures r == Ok(None) ==> IsFinished()
      ensures old(IsFinished()) ==> r == Ok(None) && unchanged(stream) && unchanged(buffer)
    {
      match this {
        case EmptyReader => r := Ok(None);
        case FixedReader(f) => r := f.ReadNext();
        case ChunkedReader(c) => r := c.ReadNext();
      }
    }

    /** At the end of the body, what is left in buffer and stream is exactly what follows it. */
    lemma AtEnd(stream: Stream, buffer: Buffer)
      requires Valid(stream, buffer) && IsFinished()
      ensures var d := Ahead(stream, buffer);
              d.data == "" && d.end.Ok? && d.end.value.rest == buffer.data + stream.unread
    {
    }
  }

  method OpenBody(mode: BodyMode, stream: Stream, buffer: Buffer) returns (reader: BodyReader)
    ensures reader.Valid(stream, buffer) && fresh(reader.Repr())
    ensures reader.Ahead(stream, buffer) == DecodeBody(mode, buffer.data + stream.unread)
  {
    match mode {
      case NoBody => reader := EmptyReader;
      case Fixed(n) =>
        var f := new FixedBodyReader(n, stream, buffer);
        reader := FixedReader(f);
      case Chunked =>
        var c := new ChunkedBodyReader(stream, buffer);
        reader := ChunkedReader(c);
    }
  }

  /** Collects a whole body: whatever the sizes of the reads, the payload, the error and the bytes left
      over are those of the pure decoder. */
  method ReadBody(mode: BodyMode, stream: Stream, buffer: Buffer) returns (r: Result<string, BodyError>)
    modifies stream`unread, buffer
    ensures
      var d := DecodeBody(mode, old(buffer.data + stream.unread));
      match d.end
      case Err(e) => r == Err(Reported(e, stream.fault))
      case Ok(f) => r == Ok(d.data) && buffer.data + stream.unread == f.rest
  {
    hide DecodeFixed, DecodeChunked;
    var reader := OpenBody(mode, stream, buffer);
    ghost var whole := reader.Ahead(stream, buffer);
    var payload := "";
    assert Emit("", whole) == whole;
    while true
      invariant reader.Valid(stream, buffer) && fresh(reader.Repr())
      invariant whole == Emit(payload, reader.Ahead(stream, buffer))
      decreases |buffer.data + stream.unread|
    {
      var next := reader.ReadNext(stream, buffer);
      if next.Err? {
        return Err(next.error);
      }
      if next.value.None? {
        reader.AtEnd(stream, buffer);
        assert payload + "" == payload;
        return Ok(payload);
      }
      Assoc(payload, next.value.value, reader.Ahead(stream, buffer).data);
      payload := payload + next.value.value;
    }
  }
}
