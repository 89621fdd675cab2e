/** Which error each malformed input leads to: that of the first check it fails, by what is wrong with the text. */
module ErrorLaws {
  import opened Wrappers
  import opened Text
  import opened HeaderFields
  import opened RequestHead
  import opened FieldText
  import opened GrammarLaws
  import opened HeadLaws
  import opened BodyReaders
  import opened ChunkedGrammar

  // ---------------------------------------------------------------- header lines

  /** What is wrong with a field behind the fields `before`. */
  function FieldError(before: seq<Pair>, f: Pair): Option<ParseError> {
    if f.name == HOST then
      if Mentions(before, HOST) then Some(MultipleHostValues)
      else if !IsValidHost(f.value) then Some(InvalidHost) else None
    else if f.name == CONTENT_LENGTH then
      if !LengthAccepted(f.value) then Some(InvalidContentLength)
      else if exists i :: 0 <= i < |before| && before[i].name == CONTENT_LENGTH && NumberIn(before[i].value, 10) != NumberIn(f.value, 10)
      then Some(ConflictingContentLength) else None
    else if f.name == TRANSFER_ENCODING then
      if !CodingsGrammar(f.value) then Some(InvalidTransferEncoding) else None
    else None
  }

  /** What is wrong with a header line behind the fields `before`. */
  ghost function LineError(before: seq<Pair>, line: string): Option<ParseError> {
    if |line| > 8192 then Some(HeaderLineTooLong)
    else if line != "" && (line[0] == ' ' || line[0] == '\t') then Some(ObsoleteLineFolding)
    else if ReadFieldLine(line).Some? then FieldError(before, ReadFieldLine(line).value)
    else if Named(line) then Some(InvalidHeaderValue)
    else Some(InvalidHeaderName)
  }

  predicate NamedLine(line: string, name: string, rest: string) {
    IsToken(name) && line == name + ":" + rest
  }

  /** There is a token in front of the first colon. */
  ghost predicate Named(line: string) {
    exists name, rest :: NamedLine(line, name, rest)
  }

  lemma FieldFails(line: string)
    requires ReadFieldLine(line).None?
    ensures ParseField(line) == Err(if Named(line) then InvalidHeaderValue else InvalidHeaderName)
  {
    hide TrimOws, Lower, CleanValue;
    FieldLineLanguage(line);
    if name, rest :| NamedLine(line, name, rest) {
      TokenLacks(name, ':');
      FindAfter(name, ":", rest);
      CutBetween(name, ":" + rest);
      Assoc(name, ":", rest);
    }
    if Find(line, ":").Some? && IsToken(line[..Find(line, ":").value]) {
      var k := Find(line, ":").value;
      ThreePieces(line, k, k + 1);
      assert line[k..k + 1] == ":";
      assert NamedLine(line, line[..k], line[k + 1..]);
    }
  }

  lemma NoteError(acc: Reading, before: seq<Pair>, f: Pair)
    requires Acceptable(before) && Describes(acc, before)
    ensures Note(acc, f).Err? <==> FieldError(before, f).Some?
    ensures Note(acc, f).Err? ==> Note(acc, f) == Err(FieldError(before, f).value)
  {
    hide ParseContentLength, LengthAccepted, NumberIn, Codings, CodingsGrammar, IsValidHost, AllCodings, Collect, Acceptable;
    ContentLengthLanguage(f.value);
    CodingsMeaning(f.value);
    if acc.length.Some? {
      var i :| 0 <= i < |before| && before[i].name == CONTENT_LENGTH;
      assert NumberIn(before[i].value, 10) == Some(acc.length.value);
    }
  }

  lemma LineErrorMeaning(acc: Reading, before: seq<Pair>, line: string)
    requires Acceptable(before) && Describes(acc, before)
    ensures ReadLine(acc, line).Err? <==> LineError(before, line).Some?
    ensures ReadLine(acc, line).Err? ==> ReadLine(acc, line) == Err(LineError(before, line).value)
  {
    hide ParseField, ReadFieldLine, Note, Acceptable, Describes, Named, FieldError;
    FieldLineLanguage(line);
    if ReadFieldLine(line).Some? {
      NoteError(acc, before, ReadFieldLine(line).value);
    } else {
      FieldFails(line);
    }
  }

  /** Lines that are fine are read, and what follows them is read behind them. */
  lemma {:induction false} ReadPrefix(acc: Reading, before: seq<Pair>, a: seq<string>, b: seq<string>) returns (next: Reading)
    requires Acceptable(before) && Describes(acc, before)
    requires (forall i :: 0 <= i < |a| ==> a[i] != "") && AllFields(a) && Acceptable(before + FieldsOf(a))
    ensures ReadLines(acc, a + b) == ReadLines(next, b) && Describes(next, before + FieldsOf(a))
    decreases |a|
  {
    hide ReadFieldLine, HeadField, Note, Acceptable, Describes, FieldsOf;
    if a == [] {
      assert a + b == b && FieldsOf(a) == [] && before + [] == before;
      next := acc;
    } else {
      var line, rest := a[0], a[1..];
      assert a == [line] + rest;
      assert (a + b)[1..] == rest + b && (a + b)[0] == line;
      FieldsCons(line, rest);
      FieldTaken(line);
      var f := ReadFieldLine(line).value;
      assert before + FieldsOf(a) == before + [f] + FieldsOf(rest);
      AcceptablePrefix(before + [f], FieldsOf(rest));
      NoteStep(acc, before, f);
      next := ReadPrefix(Note(acc, f).value, before + [f], rest, b);
    }
  }

  /** A head whose start is in order, and its header lines in front of the k-th, is refused for what is wrong with
      that line. */
  lemma FirstBadLine(s: string, k: nat)
    requires StartFine(s) && ParseRequestLine(RequestLineOf(s)).Ok?
    requires k < |HeaderLines(s)| && AllFields(HeaderLines(s)[..k]) && Acceptable(FieldsOf(HeaderLines(s)[..k]))
    requires LineError(FieldsOf(HeaderLines(s)[..k]), HeaderLines(s)[k]).Some?
    ensures ParseHead(s) == Err(LineError(FieldsOf(HeaderLines(s)[..k]), HeaderLines(s)[k]).value)
  {
    hide ParseHead, LineError, Acceptable, ReadLine, ParseRequestLine, Utf8, HeadEnd, WithinLimits, AllFields, FieldsOf;
    var lines := HeaderLines(s);
    var a, b := lines[..k], [lines[k]] + (lines[k + 1..] + ["", ""]);
    assert lines + ["", ""] == a + b;
    StartHolds();
    assert [] + FieldsOf(a) == FieldsOf(a);
    var acc := ReadPrefix(START, [], a, b);
    LineErrorMeaning(acc, FieldsOf(a), lines[k]);
    ParseHeadUnfolds(s);
  }

  lemma StartHolds()
    ensures Acceptable([]) && Describes(START, [])
  {
  }

  /** What is wrong with the fields of a head all of whose lines are fine. */
  function HeadError(fs: seq<Pair>): Option<ParseError> {
    if !Mentions(fs, HOST) then Some(MissingHost)
    else if !Mentions(fs, TRANSFER_ENCODING) then None
    else if "chunked" !in AllCodings(fs) then Some(UnsupportedTransferEncoding)
    else if !ChunkedOnlyLast(AllCodings(fs)) then Some(InvalidTransferEncoding)
    else if Mentions(fs, CONTENT_LENGTH) then Some(ConflictingLengthAndTransferEncoding)
    else None
  }

  lemma {:induction false} CodingsLower(fs: seq<Pair>)
    ensures forall i :: 0 <= i < |AllCodings(fs)| ==> Lower(AllCodings(fs)[i]) == AllCodings(fs)[i]
  {
    hide CodingNames;
    if fs != [] {
      CodingsLower(fs[..|fs| - 1]);
      NamesLower(fs[|fs| - 1].value);
    }
  }

  lemma NamesLower(value: string)
    ensures forall i :: 0 <= i < |CodingNames(value)| ==> Lower(CodingNames(value)[i]) == CodingNames(value)[i]
  {
    hide Trim, Split;
    var parts := Split(value, ",");
    forall i | 0 <= i < |parts| ensures Lower(CodingNames(value)[i]) == CodingNames(value)[i] {
      LowerIdempotent(Trim(parts[i]));
    }
  }

  lemma ModeError(length: Option<nat>, codings: seq<string>)
    requires codings != [] && forall i :: 0 <= i < |codings| ==> Lower(codings[i]) == codings[i]
    ensures DetermineBodyMode(length, codings) ==
      if "chunked" !in codings then Err(UnsupportedTransferEncoding)
      else if !ChunkedOnlyLast(codings) then Err(InvalidTransferEncoding)
      else if length.Some? then Err(ConflictingLengthAndTransferEncoding)
      else Ok(Chunked)
  {
    hide ChunkedPositions, Lower;
    LowerFixed("chunked");
    OnlyLastPosition(codings);
    var ps := ChunkedPositions(codings);
    if "chunked" in codings {
      var i :| 0 <= i < |codings| && codings[i] == "chunked";
      assert i in ps;
    }
    assert ps != [] ==> ps[0] in ps;
    assert |ps| == 1 && ps[0] == |codings| - 1 ==> ps == [|codings| - 1];
  }

  /** A head whose lines are all fine is refused for its fields as a whole, if at all. */
  lemma WholeHead(s: string)
    requires StartFine(s) && ParseRequestLine(RequestLineOf(s)).Ok?
    requires AllFields(HeaderLines(s)) && Acceptable(FieldsOf(HeaderLines(s)))
    ensures ParseHead(s).Err? <==> HeadError(FieldsOf(HeaderLines(s))).Some?
    ensures ParseHead(s).Err? ==> ParseHead(s) == Err(HeadError(FieldsOf(HeaderLines(s))).value)
  {
    hide ParseHead, Acceptable, ParseRequestLine, Utf8, HeadEnd, WithinLimits, AllFields, FieldsOf, ChunkedOnlyLast, DetermineBodyMode, AllCodings;
    var lines := HeaderLines(s);
    var fs := FieldsOf(lines);
    StartHolds();
    assert [] + fs == fs;
    var acc := ReadPrefix(START, [], lines, ["", ""]);
    ParseHeadUnfolds(s);
    CodingsLower(fs);
    assert CodingsFine(fs) by { AcceptableCodings(fs); }
    CodingsPresent(fs);
    BodyModeMeaning(acc.length, acc.codings);
    if acc.codings != [] {
      ModeError(acc.length, acc.codings);
    }
  }

  lemma AcceptableCodings(fs: seq<Pair>)
    requires Acceptable(fs)
    ensures CodingsFine(fs)
  {
  }

  // ---------------------------------------------------------------- request lines

  /** What is wrong with a request line, from the pieces between its spaces: too few of them, an empty one, too
      many, or one that does not say what it should. */
  function StartError(line: string): Option<ParseError> {
    var parts := Split(line, " ");
    if |parts| == 1 then Some(InvalidRequestLine)
    else if parts[0] == "" then Some(InvalidMethod)
    else if |parts| == 2 then Some(InvalidRequestLine)
    else if parts[1] == "" then Some(InvalidRequestTarget)
    else if |parts| > 3 || parts[2] == "" then Some(InvalidVersion)
    else if ParseMethod(parts[0]).None? then Some(InvalidMethod)
    else if ParseTarget(ParseMethod(parts[0]).value, parts[1]).Err? then Some(InvalidRequestTarget)
    else if !NumeralPair(parts[2], 1, 1) && !NumeralPair(parts[2], 1, 0) then Some(InvalidVersion)
    else None
  }

  lemma SpacesSplit(s: string)
    ensures match Find(s, " ")
      case None => Split(s, " ") == [s] && ' ' !in s
      case Some(k) => Split(s, " ") == [s[..k]] + Split(s[k + 1..], " ") && ' ' in s && ' ' !in s[..k]
  {
    hide Find;
    NotFound(s, ' ');
    match Find(s, " ") {
      case None =>
      case Some(k) =>
        SplitAt(s, " ", k);
        FirstOfChar(s, ' ', k);
        assert s[k..k + 1] == " " && s[k] == ' ';
    }
  }

  lemma TargetError(m: Method, t: string)
    ensures ParseTarget(m, t).Err? ==> ParseTarget(m, t) == Err(InvalidRequestTarget)
  {
    hide IsAuthorityForm, IsUriScheme;
  }

  lemma StartErrorMeaning(line: string)
    ensures ParseRequestLine(line).Err? <==> StartError(line).Some?
    ensures ParseRequestLine(line).Err? ==> ParseRequestLine(line) == Err(StartError(line).value)
  {
    hide ParseMethod, ParseTarget, ParseVersion, NumeralPair, Find, Split;
    SpacesSplit(line);
    if Find(line, " ").Some? {
      var a := Find(line, " ").value;
      var rest := line[a + 1..];
      SpacesSplit(rest);
      if Find(rest, " ").Some? {
        var b := Find(rest, " ").value;
        var version := rest[b + 1..];
        SpacesSplit(version);
        VersionLanguage(version);
        var m := ParseMethod(line[..a]);
        if m.Some? {
          TargetError(m.value, rest[..b]);
        }
      }
    }
  }

  /** A head of text within the size limit is refused for its request line first. */
  lemma BadStart(s: string)
    requires HeadEnd(s).Some? && HeadEnd(s).value <= 65536 && Utf8(s[..HeadEnd(s).value])
    ensures |RequestLineOf(s)| > 8192 ==> ParseHead(s) == Err(RequestLineTooLong)
    ensures |RequestLineOf(s)| <= 8192 && StartError(RequestLineOf(s)).Some? ==>
              ParseHead(s) == Err(StartError(RequestLineOf(s)).value)
  {
    hide Utf8, ParseRequestLine, ReadLines, StartError, HeadEnd;
    StartErrorMeaning(RequestLineOf(s));
  }

  // ---------------------------------------------------------------- bodies

  /** How a trailer section ends, if not well. */
  ghost function TrailerError(s: string): Option<BodyError>
    decreases |s|
  {
    match CutLine(s)
    case None => Some(UnexpectedEof)
    case Some((line, rest)) =>
      if !Utf8(line) then Some(InvalidChunk)
      else if line == "" then None
      else if ReadFieldLine(line).Some? then TrailerError(rest)
      else Some(InvalidTrailer(if Named(line) then InvalidHeaderValue else InvalidHeaderName))
  }

  /** How a chunked coding ends, if not well: too early, or with an invalid line or line break. */
  ghost function CodingError(s: string): Option<BodyError>
    decreases |s|
  {
    match CutLine(s)
    case None => Some(UnexpectedEof)
    case Some((line, rest)) =>
      if !Utf8(line) then Some(InvalidChunk)
      else match SizeOf(true, line)
        case None => Some(InvalidChunk)
        case Some(n) =>
          if n >= U64_LIMIT then Some(InvalidChunk)
          else if n == 0 then TrailerError(rest)
          else if |rest| < n + 2 then Some(UnexpectedEof)
          else if rest[n..n + 2] != CRLF then Some(InvalidChunk)
          else CodingError(rest[n + 2..])
  }

  lemma {:induction false} TrailerErrorMeaning(acc: FieldList, s: string)
    ensures var d := DecodeChunked(ReadingTrailers, 0, acc, s);
            d.end.Ok? == TrailerError(s).None? && (d.end.Err? ==> d.end.error == TrailerError(s).value)
    decreases |s|
  {
    hide Utf8, ParseField, ReadFieldLine, Named, Add;
    if CutLine(s).Some? {
      var (line, rest) := CutLine(s).value;
      FieldLineLanguage(line);
      if Utf8(line) && line != "" {
        if ReadFieldLine(line).Some? {
          TrailerStep(s, acc);
          var f := ParseField(line).value;
          TrailerErrorMeaning(Add(acc, f.name, f.value), rest);
        } else {
          FieldFails(line);
        }
      }
    }
  }

  lemma ChunkEnds(n: nat, rest: string)
    requires |rest| < n + 2 || rest[n..n + 2] != CRLF
    ensures DecodeChunked(ReadingData, n, [], rest).end == Err(if |rest| < n + 2 then UnexpectedEof else InvalidChunk)
  {
    if n <= |rest| {
      DataStep(n, [], rest);
      assert |rest| >= n + 2 ==> rest[n..][..2] == rest[n..n + 2];
      CrLfStep(rest[n..], []);
    }
  }

  /** Which error a body is in: a fixed one ends early iff bytes are missing; a chunked one ends as said. */
  lemma {:induction false} BodyErrorMeaning(mode: BodyMode, s: string)
    ensures var d := DecodeBody(mode, s);
      match mode
      case NoBody => d.end.Ok?
      case Fixed(n) => d.end.Ok? == (|s| >= n) && (d.end.Err? ==> d.end.error == UnexpectedEof)
      case Chunked => d.end.Ok? == CodingError(s).None? && (d.end.Err? ==> d.end.error == CodingError(s).value)
    decreases |s|
  {
    hide Utf8, ParseChunkSize, SizeOf, DecodeChunked, CutLine, TrailerError;
    if mode == Chunked {
      SizeVerdict(s);
      if CutLine(s).Some? {
        var (line, rest) := CutLine(s).value;
        SizesRead(line);
        if Utf8(line) && ParseChunkSize(line).Ok? {
          var n := ParseChunkSize(line).value;
          if n == 0 {
            TrailerErrorMeaning([], rest);
          } else if |rest| >= n + 2 && rest[n..n + 2] == CRLF {
            ChunkTaken(n, rest);
            BodyErrorMeaning(Chunked, rest[n + 2..]);
          } else {
            ChunkEnds(n, rest);
          }
        }
      }
    }
  }
}
