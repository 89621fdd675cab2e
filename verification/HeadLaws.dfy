/** What head parsing accepts, stated over all header lines at once, and its stability. */
module HeadLaws {
  import opened Wrappers
  import opened Text
  import opened HeaderFields
  import opened RequestHead
  import opened FieldText
  import opened GrammarLaws

  // ---------------------------------------------------------------- lines of a head

  lemma SplitStep(s: string)
    requires Find(s, CRLF).Some?
    ensures var (k, tail) := (Find(s, CRLF).value, Split(s[Find(s, CRLF).value + 2..], CRLF));
            && s == s[..k] + CRLF + s[k + 2..]
            && Split(s, CRLF) == [s[..k]] + tail
            && Split(s, CRLF)[..|tail|] == [s[..k]] + tail[..|tail| - 1]
  {
    hide Find;
    var k := Find(s, CRLF).value;
    ThreePieces(s, k, k + 2);
    SplitFound(s, k);
  }

  lemma SplitFound(s: string, k: nat)
    requires Find(s, CRLF) == Some(k)
    ensures k + 2 <= |s| && s[k..k + 2] == CRLF && Split(s, CRLF) == [s[..k]] + Split(s[k + 2..], CRLF)
  {
    hide Find, Split;
    assert |CRLF| == 2 && At(s, CRLF, k);
    SplitAt(s, CRLF, k);
  }

  lemma {:induction false} SplitPrint(s: string)
    ensures var ls := Split(s, CRLF); s == PrintLines(ls[..|ls| - 1]) + ls[|ls| - 1]
    decreases |s|
  {
    var f := Find(s, CRLF);
    if f.None? {
      assert PrintLines([]) + s == s;
    } else {
      var rest := s[f.value + 2..];
      SplitPrint(rest);
      SplitStep(s);
      var tail := Split(rest, CRLF);
      PrintLinesCons(s[..f.value], tail[..|tail| - 1], tail[|tail| - 1]);
    }
  }

  lemma AtCrlf(s: string, i: int)
    ensures At(s, CRLF, i) <==> 0 <= i && i + 2 <= |s| && s[i] == '\r' && s[i + 1] == '\n'
  {
    AtCharacters(s, CRLF, i);
    assert CRLF[0] == '\r' && CRLF[1] == '\n';
  }

  lemma AtCrlfCrlf(s: string, i: int)
    ensures At(s, CRLFCRLF, i) <==> At(s, CRLF, i) && At(s, CRLF, i + 2)
  {
    AtCharacters(s, CRLFCRLF, i);
    assert CRLFCRLF[0] == '\r' && CRLFCRLF[1] == '\n' && CRLFCRLF[2] == '\r' && CRLFCRLF[3] == '\n';
    AtCrlf(s, i);
    AtCrlf(s, i + 2);
  }

  /** The first line break of a text that ends at its first empty line. */
  lemma FirstBreak(h: string, n: nat)
    requires Find(h, CRLFCRLF) == Some(n) && n + 4 == |h|
    ensures Find(h, CRLF).Some?
    ensures var k := Find(h, CRLF).value; k <= n && (At(h, CRLF, k + 2) <==> k == n) && (k == n || k + 2 <= n)
  {
    AtCrlfCrlf(h, n);
    var k := Find(h, CRLF).value;
    AtCrlf(h, n);
    AtCrlf(h, k);
    AtCrlfCrlf(h, k);
  }

  lemma RestOfHead(h: string, k: nat)
    requires Find(h, CRLFCRLF).Some? && Find(h, CRLFCRLF).value + 4 == |h| && k + 2 <= Find(h, CRLFCRLF).value
    ensures HeadEnd(h[k + 2..]) == Some(|h[k + 2..]|)
  {
    hide Find;
    FindDrop(h, CRLFCRLF, k + 2);
  }

  lemma FirstLineOfHead(h: string)
    requires HeadEnd(h) == Some(|h|)
    ensures Find(h, CRLF).Some?
    ensures var k := Find(h, CRLF).value;
            if k + 4 == |h| then h[k + 2..] == CRLF
            else HeadEnd(h[k + 2..]) == Some(|h[k + 2..]|) && !At(h[k + 2..], CRLF, 0)
  {
    var n := |h| - 4;
    FirstBreak(h, n);
    var k := Find(h, CRLF).value;
    TailAt(h, CRLF, k + 2);
    if k == n {
      var rest := h[k + 2..];
      assert rest == rest[0..2];
    } else {
      RestOfHead(h, k);
    }
  }

  lemma TailAt(s: string, pat: string, m: nat)
    requires m <= |s|
    ensures At(s[m..], pat, 0) <==> At(s, pat, m)
  {
    if m + |pat| <= |s| {
      assert s[m..][0..0 + |pat|] == s[m..m + |pat|];
    }
  }

  lemma DropEmptyLine(ls: seq<string>)
    requires |ls| >= 2 && ls[|ls| - 1] == "" && ls[|ls| - 2] == ""
    ensures PrintLines(ls[..|ls| - 1]) + ls[|ls| - 1] == PrintLines(ls[..|ls| - 2]) + CRLF
  {
    var body := ls[..|ls| - 2];
    assert ls[..|ls| - 1] == body + [""];
    PrintLinesConcat(body, [""]);
    assert PrintLines([""]) == "" + CRLF + PrintLines([]);
  }

  /** The lines of a complete head: after the request line every line but the last two, which are
      empty, is a non-empty header line. */
  lemma {:induction false} LinesOfHead(h: string)
    requires HeadEnd(h) == Some(|h|)
    ensures var ls := Split(h, CRLF);
            && |ls| >= 3 && ls[|ls| - 1] == "" && ls[|ls| - 2] == ""
            && (forall i :: 1 <= i < |ls| - 2 ==> ls[i] != "")
    decreases |h|
  {
    hide Find, Split, HeadEnd;
    FirstLineOfHead(h);
    var k := Find(h, CRLF).value;
    var rest := h[k + 2..];
    var tail := Split(rest, CRLF);
    SplitStep(h);
    if k + 4 == |h| {
      SplitCrlf();
    } else {
      LinesOfHead(rest);
      FirstPiece(rest);
    }
  }

  lemma FirstPiece(s: string)
    requires s != "" && !At(s, CRLF, 0)
    ensures Split(s, CRLF)[0] != ""
  {
    hide Find;
    match Find(s, CRLF) {
      case None => assert Split(s, CRLF) == [s];
      case Some(k) => assert k != 0 && |s[..k]| == k;
    }
  }

  lemma SplitCrlf()
    ensures Split(CRLF, CRLF) == ["", ""]
  {
    SplitBlock([]);
    assert PrintLines([]) + CRLF == CRLF;
  }

  function RequestLineOf(s: string): string
    requires HeadEnd(s).Some?
  {
    Split(s[..HeadEnd(s).value], CRLF)[0]
  }

  lemma SplitOfHead(s: string)
    requires HeadEnd(s).Some?
    ensures var h := s[..HeadEnd(s).value];
            var ls := Split(h, CRLF);
            && |ls| >= 3 && ls == [ls[0]] + ls[1..|ls| - 2] + ["", ""]
            && (forall i :: 1 <= i < |ls| - 2 ==> ls[i] != "")
            && h == PrintLines([ls[0]] + ls[1..|ls| - 2]) + CRLF
  {
    var h := s[..HeadEnd(s).value];
    FindTake(s, CRLFCRLF, |h|);
    LinesOfHead(h);
    SplitPrint(h);
    DropEmptyLine(Split(h, CRLF));
    FirstAndMiddle(Split(h, CRLF));
  }

  lemma FirstAndMiddle(ls: seq<string>)
    requires |ls| >= 3 && ls[|ls| - 1] == "" && ls[|ls| - 2] == ""
    ensures ls[..|ls| - 2] == [ls[0]] + ls[1..|ls| - 2]
    ensures ls == [ls[0]] + ls[1..|ls| - 2] + ["", ""]
  {
  }

  /** The header lines between the request line and the empty line: none is empty, and with the
      request line they print back to the head, so the loop that stops at the first empty line has
      seen every one of them. */
  function HeaderLines(s: string): (lines: seq<string>)
    requires HeadEnd(s).Some?
    ensures forall i :: 0 <= i < |lines| ==> lines[i] != ""
    ensures Split(s[..HeadEnd(s).value], CRLF) == [RequestLineOf(s)] + lines + ["", ""]
    ensures s[..HeadEnd(s).value] == PrintLines([RequestLineOf(s)] + lines) + CRLF
  {
    SplitOfHead(s);
    var ls := Split(s[..HeadEnd(s).value], CRLF);
    ls[1..|ls| - 2]
  }

  /** Once a head is complete, further bytes change neither verdict nor result. */
  lemma StableUnderSuffix(s: string, more: string)
    requires HeadEnd(s).Some?
    ensures HeadEnd(s + more) == HeadEnd(s)
    ensures ParseHead(s + more) == ParseHead(s)
  {
    FindExtends(s, more, CRLFCRLF);
    var end := HeadEnd(s).value;
    assert (s + more)[..end] == s[..end];
  }

  /** The limit verdict does not depend on how many bytes have arrived: a refused prefix belongs to a
      stream whose head is refused as a whole, and a head within the limit is never refused early. */
  lemma LimitVerdict(arrived: string, later: string)
    ensures var s := arrived + later;
            && (IncompleteHeadExceedsLimit(arrived) ==>
                  IncompleteHeadExceedsLimit(s) || ParseHead(s) == Err(HeaderTooLarge))
            && (HeadEnd(s).Some? && HeadEnd(s).value <= HEADER_LIMIT ==> !IncompleteHeadExceedsLimit(arrived))
            && (HeadEnd(s).Some? && HeadEnd(s).value > HEADER_LIMIT ==> ParseHead(s) == Err(HeaderTooLarge))
  {
    var s := arrived + later;
    if HeadEnd(s).Some? && HeadEnd(s).value <= |arrived| {
      FindTake(s, CRLFCRLF, |arrived|);
      assert s[..|arrived|] == arrived;
    }
  }

  // ---------------------------------------------------------------- acceptance over all lines

  /** The lines are fields by section 5 of RFC 9112, none longer than 8 KiB. */
  predicate AllFields(lines: seq<string>) {
    forall i :: 0 <= i < |lines| ==> FieldLine(lines[i])
  }

  predicate FieldLine(line: string) {
    |line| <= 8192 && ReadFieldLine(line).Some?
  }

  /** The fields as the RFC reads them: names in either case, any white space around values, in any order. */
  function FieldsOf(lines: seq<string>): (fs: seq<Pair>)
    requires AllFields(lines)
    ensures |fs| == |lines|
    ensures forall i :: 0 <= i < |fs| ==> fs[i] == ReadFieldLine(lines[i]).value
  {
    seq(|lines|, i requires 0 <= i < |lines| => (assert FieldLine(lines[i]); ReadFieldLine(lines[i]).value))
  }

  /** The server takes exactly those lines, and as the RFC reads them. */
  lemma FieldTaken(line: string)
    ensures HeadField(line).Ok? <==> FieldLine(line)
    ensures HeadField(line).Ok? ==> HeadField(line) == Ok(ReadFieldLine(line).value)
  {
    hide TrimOws, Lower;
    FieldLineLanguage(line);
    if k :| Find(line, ":") == Some(k) {
      assert k > 0 ==> line[..k][0] in line[..k] && line[..k][0] == line[0];
    }
  }

  predicate HostsFine(fs: seq<Pair>) {
    && (forall i :: 0 <= i < |fs| && fs[i].name == HOST ==> IsValidHost(fs[i].value))
    && (forall i, j :: 0 <= i < j < |fs| ==> !(fs[i].name == HOST && fs[j].name == HOST))
  }

  predicate LengthsFine(fs: seq<Pair>) {
    && (forall i :: 0 <= i < |fs| && fs[i].name == CONTENT_LENGTH ==> LengthAccepted(fs[i].value))
    && (forall i, j :: 0 <= i < j < |fs| && fs[i].name == CONTENT_LENGTH && fs[j].name == CONTENT_LENGTH ==>
          NumberIn(fs[i].value, 10) == NumberIn(fs[j].value, 10))
  }

  predicate CodingsFine(fs: seq<Pair>) {
    forall i :: 0 <= i < |fs| && fs[i].name == TRANSFER_ENCODING ==> CodingsGrammar(fs[i].value)
  }

  /** At most one host, which is valid; equal lengths; well-formed codings. */
  predicate Acceptable(fs: seq<Pair>) {
    HostsFine(fs) && LengthsFine(fs) && CodingsFine(fs)
  }

  predicate Mentions(fs: seq<Pair>, name: string) {
    exists i :: 0 <= i < |fs| && fs[i].name == name
  }

  /** The codings of all Transfer-Encoding lines, concatenated in order. */
  function AllCodings(fs: seq<Pair>): seq<string> {
    if fs == [] then []
    else
      var f := fs[|fs| - 1];
      AllCodings(fs[..|fs| - 1])
      + if f.name == TRANSFER_ENCODING then CodingNames(f.value) else []
  }

  /** The number every Content-Length line states. */
  predicate StatesLength(fs: seq<Pair>, n: nat) {
    && Mentions(fs, CONTENT_LENGTH)
    && forall i :: 0 <= i < |fs| && fs[i].name == CONTENT_LENGTH ==> NumberIn(fs[i].value, 10) == Some(n)
  }

  ghost predicate Describes(acc: Reading, fs: seq<Pair>) {
    && acc.headers == Collect(fs)
    && (acc.host.Some? <==> Mentions(fs, HOST))
    && (acc.length.None? <==> !Mentions(fs, CONTENT_LENGTH))
    && (acc.length.Some? ==> StatesLength(fs, acc.length.value))
    && acc.codings == AllCodings(fs)
  }

  lemma MentionsSnoc(fs: seq<Pair>, f: Pair, name: string)
    ensures Mentions(fs + [f], name) <==> Mentions(fs, name) || f.name == name
  {
    if i :| 0 <= i < |fs| && fs[i].name == name {
      assert (fs + [f])[i].name == name;
    }
    if f.name == name {
      assert (fs + [f])[|fs|].name == name;
    }
  }

  lemma SnocHosts(fs: seq<Pair>, f: Pair)
    requires HostsFine(fs)
    ensures HostsFine(fs + [f]) <==> (f.name == HOST ==> !Mentions(fs, HOST) && IsValidHost(f.value))
  {
    var gs, n := fs + [f], |fs|;
    assert gs[n] == f && forall i :: 0 <= i < n ==> gs[i] == fs[i];
    if f.name == HOST && Mentions(fs, HOST) {
      var i :| 0 <= i < n && fs[i].name == HOST;
      assert gs[i].name == HOST && gs[n].name == HOST;
    }
  }

  lemma SnocCodings(fs: seq<Pair>, f: Pair)
    requires CodingsFine(fs)
    ensures CodingsFine(fs + [f]) <==> (f.name == TRANSFER_ENCODING ==> CodingsGrammar(f.value))
  {
    hide CodingsGrammar;
    var gs, n := fs + [f], |fs|;
    assert gs[n] == f && forall i :: 0 <= i < n ==> gs[i] == fs[i];
  }

  lemma SnocLengths(fs: seq<Pair>, f: Pair)
    requires LengthsFine(fs)
    ensures f.name != CONTENT_LENGTH ==> LengthsFine(fs + [f])
    ensures f.name == CONTENT_LENGTH && !Mentions(fs, CONTENT_LENGTH) ==>
              (LengthsFine(fs + [f]) <==> LengthAccepted(f.value))
    ensures forall n: nat :: f.name == CONTENT_LENGTH && StatesLength(fs, n) ==>
              (LengthsFine(fs + [f]) <==> LengthAccepted(f.value) && NumberIn(f.value, 10) == Some(n))
  {
    hide LengthAccepted, NumberIn;
    var gs, n := fs + [f], |fs|;
    assert gs[n] == f && forall i :: 0 <= i < n ==> gs[i] == fs[i];
    if f.name == CONTENT_LENGTH && Mentions(fs, CONTENT_LENGTH) {
      var i :| 0 <= i < n && fs[i].name == CONTENT_LENGTH;
      assert gs[i].name == CONTENT_LENGTH && gs[n].name == CONTENT_LENGTH;
    }
  }

  lemma SnocStates(fs: seq<Pair>, f: Pair, n: nat)
    ensures f.name != CONTENT_LENGTH && StatesLength(fs, n) ==> StatesLength(fs + [f], n)
    ensures f.name == CONTENT_LENGTH && NumberIn(f.value, 10) == Some(n) && (StatesLength(fs, n) || !Mentions(fs, CONTENT_LENGTH)) ==>
              StatesLength(fs + [f], n)
  {
    hide NumberIn;
    var gs := fs + [f];
    assert gs[|fs|] == f && forall i :: 0 <= i < |fs| ==> gs[i] == fs[i];
    MentionsSnoc(fs, f, CONTENT_LENGTH);
  }

  lemma SnocCollected(fs: seq<Pair>, f: Pair)
    ensures Collect(fs + [f]) == Add(Collect(fs), f.name, f.value)
    ensures AllCodings(fs + [f]) == AllCodings(fs) + if f.name == TRANSFER_ENCODING then CodingNames(f.value) else []
  {
    hide CodingNames, Add;
    CollectConcat([], fs, [f]);
    assert [f][1..] == [];
    assert (fs + [f])[..|fs|] == fs && (fs + [f])[|fs|] == f;
  }

  lemma NoteStep(acc: Reading, fs: seq<Pair>, f: Pair)
    requires Acceptable(fs) && Describes(acc, fs)
    ensures Note(acc, f).Ok? <==> Acceptable(fs + [f])
    ensures Note(acc, f).Ok? ==> Describes(Note(acc, f).value, fs + [f])
  {
    hide ParseContentLength, LengthAccepted, NumberIn, Codings, CodingsGrammar, CodingNames, IsValidHost;
    hide HostsFine, LengthsFine, CodingsFine, Mentions, StatesLength, AllCodings, CollectFrom, Add;
    ContentLengthLanguage(f.value);
    CodingsMeaning(f.value);
    SnocHosts(fs, f);
    SnocCodings(fs, f);
    SnocLengths(fs, f);
    MentionsSnoc(fs, f, HOST);
    MentionsSnoc(fs, f, CONTENT_LENGTH);
    SnocCollected(fs, f);
    if acc.length.Some? {
      SnocStates(fs, f, acc.length.value);
    } else if f.name == CONTENT_LENGTH && ParseContentLength(f.value).Ok? {
      SnocStates(fs, f, ParseContentLength(f.value).value);
    }
  }

  lemma AcceptablePrefix(a: seq<Pair>, b: seq<Pair>)
    requires Acceptable(a + b)
    ensures Acceptable(a)
  {
    assert forall i :: 0 <= i < |a| ==> a[i] == (a + b)[i];
  }

  lemma FieldsCons(line: string, lines: seq<string>)
    ensures AllFields([line] + lines) <==> FieldLine(line) && AllFields(lines)
    ensures AllFields([line] + lines) ==> FieldsOf([line] + lines) == [ReadFieldLine(line).value] + FieldsOf(lines)
  {
    hide ReadFieldLine, FieldsOf;
    var all := [line] + lines;
    assert all[0] == line && forall i :: 0 <= i < |lines| ==> all[i + 1] == lines[i];
    if AllFields(all) {
      assert FieldLine(all[0]);
      forall i | 0 <= i < |lines| ensures FieldLine(lines[i]) { assert FieldLine(all[i + 1]); }
      assert AllFields(lines);
    } else if FieldLine(line) && AllFields(lines) {
      forall i | 0 <= i < |all| ensures FieldLine(all[i]) { assert i == 0 || FieldLine(lines[i - 1]); }
    }
  }

  lemma ReadStep(acc: Reading, before: seq<Pair>, line: string, lines: seq<string>)
    requires line != ""
    ensures ReadLine(acc, line).Err? ==> ReadLines(acc, [line] + lines + ["", ""]).Err?
    ensures ReadLine(acc, line).Ok? ==>
              ReadLines(acc, [line] + lines + ["", ""]) == ReadLines(ReadLine(acc, line).value, lines + ["", ""])
    ensures AllFields([line] + lines) <==> HeadField(line).Ok? && AllFields(lines)
    ensures AllFields([line] + lines) ==>
              before + FieldsOf([line] + lines) == before + [HeadField(line).value] + FieldsOf(lines)
  {
    hide ReadFieldLine, HeadField, ReadLine, FieldLine, AllFields, FieldsOf;
    FieldTaken(line);
    FieldsCons(line, lines);
    assert ([line] + lines + ["", ""])[1..] == lines + ["", ""];
  }

  lemma {:induction false} ReadLinesMeaning(acc: Reading, before: seq<Pair>, lines: seq<string>)
    requires Acceptable(before) && Describes(acc, before)
    requires forall i :: 0 <= i < |lines| ==> lines[i] != ""
    ensures ReadLines(acc, lines + ["", ""]).Ok? <==> AllFields(lines) && Acceptable(before + FieldsOf(lines))
    ensures ReadLines(acc, lines + ["", ""]).Ok? ==> Describes(ReadLines(acc, lines + ["", ""]).value, before + FieldsOf(lines))
    decreases |lines|
  {
    hide FieldLine, ReadFieldLine, HeadField, Note, Acceptable, Describes, FieldsOf;
    if lines == [] {
      assert FieldsOf(lines) == [] && before + [] == before;
    } else {
      var line, rest := lines[0], lines[1..];
      assert lines == [line] + rest;
      ReadStep(acc, before, line, rest);
      if HeadField(line).Ok? {
        var f := HeadField(line).value;
        NoteStep(acc, before, f);
        if Note(acc, f).Ok? {
          ReadLinesMeaning(Note(acc, f).value, before + [f], rest);
        } else if AllFields(rest) && Acceptable(before + [f] + FieldsOf(rest)) {
          AcceptablePrefix(before + [f], FieldsOf(rest));
        }
      }
    }
  }

  lemma {:induction false} CodingsPresent(fs: seq<Pair>)
    requires CodingsFine(fs)
    ensures AllCodings(fs) == [] <==> !Mentions(fs, TRANSFER_ENCODING)
  {
    if fs != [] {
      var n := |fs| - 1;
      assert fs == fs[..n] + [fs[n]];
      MentionsSnoc(fs[..n], fs[n], TRANSFER_ENCODING);
      CodingsPresent(fs[..n]);
    }
  }

  /** The head is complete, of text, and within the limits that precede the header lines. */
  predicate StartFine(s: string) {
    HeadEnd(s).Some? && Utf8(s[..HeadEnd(s).value]) && WithinLimits(s)
  }

  predicate WithinLimits(s: string)
    requires HeadEnd(s).Some?
  {
    HeadEnd(s).value <= 65536 && |RequestLineOf(s)| <= 8192
  }

  /** What the fields of a head must keep to: fine on their own, with a host, and one framing. */
  predicate FieldsFine(fs: seq<Pair>) {
    && Acceptable(fs) && Mentions(fs, HOST)
    && (Mentions(fs, TRANSFER_ENCODING) ==> ChunkedOnlyLast(AllCodings(fs)) && !Mentions(fs, CONTENT_LENGTH))
  }

  /** Everything a head must keep to but its encoding. */
  predicate Regular(s: string) {
    && HeadEnd(s).Some? && WithinLimits(s)
    && ParseRequestLine(RequestLineOf(s)).Ok?
    && AllFields(HeaderLines(s)) && FieldsFine(FieldsOf(HeaderLines(s)))
  }

  /** Exactly the heads that are accepted, by looking at all lines at once. */
  predicate Accepted(s: string) {
    Regular(s) && Utf8(s[..HeadEnd(s).value])
  }

  lemma ParseHeadUnfolds(s: string)
    requires StartFine(s) && ParseRequestLine(RequestLineOf(s)).Ok?
    ensures ParseHead(s) == FinishHead(ParseRequestLine(RequestLineOf(s)).value,
                                       ReadLines(START, HeaderLines(s) + ["", ""]), HeadEnd(s).value)
  {
    hide Utf8, ParseRequestLine, ReadLines, FinishHead;
    assert ([RequestLineOf(s)] + HeaderLines(s) + ["", ""])[1..] == HeaderLines(s) + ["", ""];
  }

  lemma FinishMeaning(line: RequestLine, acc: Reading, fs: seq<Pair>, end: nat)
    requires Acceptable(fs) && Describes(acc, fs)
    ensures var r := FinishHead(line, Ok(acc), end);
      && (r.Ok? <==> FieldsFine(fs))
      && (r.Ok? ==> r.value.headers == Collect(fs) && r.value.line == line && FramedBy(r.value.mode, fs))
  {
    CodingsPresent(fs);
    BodyModeMeaning(acc.length, acc.codings);
    OneLength(acc, fs);
  }

  /** Chunked iff some Transfer-Encoding is present, fixed at n iff there is none and all lengths say n,
      and absent iff neither is present. */
  ghost predicate FramedBy(mode: BodyMode, fs: seq<Pair>) {
    && (mode == Chunked <==> Mentions(fs, TRANSFER_ENCODING))
    && (forall n: nat :: mode == Fixed(n) <==> !Mentions(fs, TRANSFER_ENCODING) && StatesLength(fs, n))
    && (mode == NoBody <==> !Mentions(fs, TRANSFER_ENCODING) && !Mentions(fs, CONTENT_LENGTH))
  }

  /** Parsing succeeds on exactly the accepted heads, and returns every field in order with the framing
      that all lines together call for. */
  lemma ParseHeadMeaning(s: string)
    ensures ParseHead(s).Ok? <==> Accepted(s)
    ensures ParseHead(s).Ok? ==>
      var (head, fs) := (ParseHead(s).value, FieldsOf(HeaderLines(s)));
      && Ok(head.line) == ParseRequestLine(RequestLineOf(s))
      && head.headers == Collect(fs) && FramedBy(head.mode, fs)
      && HeadEnd(s) == Some(head.consumed)
  {
    if StartFine(s) && ParseRequestLine(RequestLineOf(s)).Ok? {
      ParseHeadUnfolds(s);
      var lines := HeaderLines(s);
      ReadLinesMeaning(START, [], lines);
      var r := ReadLines(START, lines + ["", ""]);
      if AllFields(lines) {
        assert [] + FieldsOf(lines) == FieldsOf(lines);
        if r.Ok? {
          FinishMeaning(ParseRequestLine(RequestLineOf(s)).value, r.value, FieldsOf(lines), HeadEnd(s).value);
        }
      }
    }
  }

  /** A head that is otherwise in order is accepted iff it is UTF-8, and refused for its encoding if it is not. */
  lemma EncodingDecides(s: string)
    requires Regular(s)
    ensures ParseHead(s).Ok? <==> Utf8(s[..HeadEnd(s).value])
    ensures ParseHead(s).Err? ==> ParseHead(s) == Err(InvalidHeaderEncoding)
  {
    hide Regular;
    ParseHeadMeaning(s);
    RegularStart(s);
  }

  lemma RegularStart(s: string)
    requires Regular(s)
    ensures HeadEnd(s).Some? && HeadEnd(s).value <= HEADER_LIMIT
  {
  }

  /** The headers of an accepted head hold, under each name, exactly the values of its lines, in order. */
  lemma HeadValues(s: string, name: string)
    requires ParseHead(s).Ok?
    ensures Accepted(s) && WellFormed(ParseHead(s).value.headers)
    ensures Values(ParseHead(s).value.headers, name) == ValuesIn(FieldsOf(HeaderLines(s)), name)
  {
    hide ParseHead, ReadFieldLine, FieldsFine, FramedBy, Utf8, ParseRequestLine, WithinLimits;
    ParseHeadMeaning(s);
    var lines := HeaderLines(s);
    var fs := FieldsOf(lines);
    forall i | 0 <= i < |fs| ensures Lower(fs[i].name) == fs[i].name {
      assert FieldLine(lines[i]);
      FieldNameLower(lines[i]);
    }
    CollectWellFormed([], fs);
    CollectValues([], fs, name);
    assert [] + ValuesIn(fs, name) == ValuesIn(fs, name);
  }

  lemma FieldNameLower(line: string)
    ensures ReadFieldLine(line).Some? ==> Lower(ReadFieldLine(line).value.name) == ReadFieldLine(line).value.name
  {
    hide ParseField, ReadFieldLine;
    FieldLineLanguage(line);
    FieldNameIsLower(line);
  }

  lemma OneLength(acc: Reading, fs: seq<Pair>)
    requires Describes(acc, fs)
    ensures forall n: nat :: StatesLength(fs, n) <==> acc.length == Some(n)
  {
  }

  // ---------------------------------------------------------------- printing a head and parsing it

  function PrintHead(line: RequestLine, headers: FieldList): string {
    MethodText(line.verb) + " " + TargetText(line.target) + " " + VersionText(line.version) + CRLF + PrintFields(headers)
  }

  function StartText(line: RequestLine): string {
    MethodText(line.verb) + " " + TargetText(line.target) + " " + VersionText(line.version)
  }

  predicate ReadableTarget(m: Method, target: Target) {
    var t := TargetText(target);
    t != "" && ParseTarget(m, t) == Ok(target) && ' ' !in t && '\r' !in t && Utf8(t)
  }

  /** A request line whose parts read back on their own. */
  predicate ReadableLine(line: RequestLine) {
    && ParseMethod(MethodText(line.verb)) == Some(line.verb)
    && ReadableTarget(line.verb, line.target)
    && (line.version.Http10? || line.version.Http11?)
  }

  lemma VersionIsPlain(v: Version)
    requires v.Http10? || v.Http11?
    ensures forall c :: c in VersionText(v) ==> Graphic(c)
  {
  }

  lemma VersionRoundTrip(v: Version)
    requires v.Http10? || v.Http11?
    ensures ParseVersion(VersionText(v)) == Some(v)
    ensures ' ' !in VersionText(v) && '\r' !in VersionText(v) && Utf8(VersionText(v))
  {
    hide Utf8, Split, ParseUnsigned;
    var minor := if v.Http10? then "0" else "1";
    VersionParts(minor);
    DottedParts(minor);
    VersionIsPlain(v);
    Utf8Ascii(VersionText(v));
  }

  lemma VersionParts(minor: string)
    requires minor == "0" || minor == "1"
    ensures ("HTTP/1." + minor)[..5] == "HTTP/" && ("HTTP/1." + minor)[5..] == "1" + "." + minor
    ensures "HTTP/1." + "0" == "HTTP/1.0" && "HTTP/1." + "1" == "HTTP/1.1"
  {
  }

  lemma DottedParts(minor: string)
    requires minor == "0" || minor == "1"
    ensures Split("1" + "." + minor, ".") == ["1", minor]
    ensures ParseUnsigned("1", 10, 256) == Some(1)
    ensures ParseUnsigned("0", 10, 256) == Some(0)
  {
    SplitFirst("1", ".", minor);
    SplitWhole(minor, ".");
    ParsePrinted(1, 10, 256);
    ParsePrinted(0, 10, 256);
    assert ToDigits(1, 10) == "1" && ToDigits(0, 10) == "0";
  }

  lemma MethodIsToken(m: Method)
    requires ParseMethod(MethodText(m)) == Some(m)
    ensures IsToken(MethodText(m))
  {
  }

  lemma StartTextUtf8(m: string, t: string, v: string)
    requires Utf8(m) && Utf8(t) && Utf8(v)
    ensures Utf8(m + " " + t + " " + v)
  {
    Utf8Ascii(" ");
    Utf8Concat(m, " ");
    Utf8Concat(m + " ", t);
    Utf8Concat(m + " " + t, " ");
    Utf8Concat(m + " " + t + " ", v);
  }

  /** Cutting at the first two spaces gives the three parts back. */
  lemma ThreeParts(m: string, t: string, v: string)
    requires m != "" && t != "" && v != "" && ' ' !in m && ' ' !in t && ' ' !in v
    ensures CutRequestLine(m + " " + t + " " + v) == Ok(Pieces(m, t, v))
  {
    hide Find;
    Assoc(m + " ", t, " " + v);
    assert m + " " + t + " " + v == m + " " + (t + " " + v);
    FirstWord(m, t + " " + v);
    FirstWord(t, v);
  }

  lemma FirstWord(word: string, rest: string)
    requires ' ' !in word
    ensures var s := word + " " + rest;
            Find(s, " ") == Some(|word|) && s[..|word|] == word && s[|word| + 1..] == rest
  {
    FindAfter(word, " ", rest);
    CutBetween(word, " " + rest);
    CutBetween(word + " ", rest);
    Assoc(word, " ", rest);
  }

  lemma ThreePartsParse(m: string, t: string, v: string, line: RequestLine)
    requires IsToken(m) && t != "" && ' ' !in t && v != "" && ' ' !in v
    requires ParseMethod(m) == Some(line.verb) && ParseTarget(line.verb, t) == Ok(line.target)
    requires ParseVersion(v) == Some(line.version) && (line.version.Http10? || line.version.Http11?)
    ensures ParseRequestLine(m + " " + t + " " + v) == Ok(line)
  {
    hide ParseMethod, ParseTarget, ParseVersion, CutRequestLine;
    TokenLacks(m, ' ');
    ThreeParts(m, t, v);
  }

  /** Method, target and version, one space apart. */
  predicate LineParts(line: string, m: string, t: string, v: string) {
    line == m + " " + t + " " + v && IsToken(m) && t != "" && v != "" && ' ' !in t && ' ' !in v
  }

  predicate LineSays(line: string, l: RequestLine, t: string, v: string) {
    && LineParts(line, MethodText(l.verb), t, v)
    && ParseMethod(MethodText(l.verb)) == Some(l.verb) && ParseTarget(l.verb, t) == Ok(l.target)
    && ((l.version == Http11 && NumeralPair(v, 1, 1)) || (l.version == Http10 && NumeralPair(v, 1, 0)))
  }

  /** A request line is accepted, as what it says, iff it is a method, a target that the method allows and a version,
      one space apart. */
  lemma RequestLineLanguage(line: string, l: RequestLine)
    ensures ParseRequestLine(line) == Ok(l) <==> exists t, v :: LineSays(line, l, t, v)
  {
    hide ParseMethod, ParseTarget, ParseVersion, CutRequestLine, MethodText, NumeralPair;
    if t, v :| LineSays(line, l, t, v) {
      VersionLanguage(v);
      ThreePartsParse(MethodText(l.verb), t, v, l);
    }
    if ParseRequestLine(line) == Ok(l) {
      var p := CutRequestLine(line).value;
      CutLosesNothing(line);
      CutParts(line);
      MethodSound(p.verb);
      VersionLanguage(p.version);
      assert LineSays(line, l, p.target, p.version);
    }
  }

  lemma CutParts(line: string)
    requires CutRequestLine(line).Ok?
    ensures var p := CutRequestLine(line).value; p.target != "" && p.version != "" && ' ' !in p.target && ' ' !in p.version
  {
    var a := Find(line, " ").value;
    var rest := line[a + 1..];
    FirstOfChar(rest, ' ', Find(rest, " ").value);
  }

  lemma StartTextRoundTrip(line: RequestLine)
    requires ReadableLine(line)
    ensures ParseRequestLine(StartText(line)) == Ok(line)
    ensures '\r' !in StartText(line) && Utf8(StartText(line))
  {
    var (m, t, v) := (MethodText(line.verb), TargetText(line.target), VersionText(line.version));
    MethodIsToken(line.verb);
    TokenLacks(m, '\r');
    Utf8Token(m);
    VersionRoundTrip(line.version);
    ThreePartsParse(m, t, v, line);
    StartTextUtf8(m, t, v);
  }

  /** Every line fits, the whole fits, and the fields are acceptable to a server. */
  predicate Sendable(line: RequestLine, headers: FieldList) {
    var (ps, lines) := (AllPairs(headers), LinesOf(AllPairs(headers)));
    && ReadableLine(line) && Readable(headers)
    && |StartText(line)| <= LINE_LIMIT && (forall i :: 0 <= i < |lines| ==> |lines[i]| <= LINE_LIMIT)
    && |PrintHead(line, headers)| <= HEADER_LIMIT
    && FieldsFine(ps)
  }

  lemma PrintedLinesShape(ps: seq<Pair>)
    requires forall i :: 0 <= i < |ps| ==> ReadablePair(ps[i])
    ensures forall i :: 0 <= i < |ps| ==> '\r' !in LinesOf(ps)[i] && LinesOf(ps)[i] != "" && Utf8(LinesOf(ps)[i])
  {
    forall i | 0 <= i < |ps| ensures '\r' !in LinesOf(ps)[i] && LinesOf(ps)[i] != "" && Utf8(LinesOf(ps)[i]) {
      LineShape(ps[i]);
    }
  }

  lemma BlockText(first: string, lines: seq<string>)
    requires '\r' !in first && Utf8(first)
    requires forall i :: 0 <= i < |lines| ==> '\r' !in lines[i] && lines[i] != "" && Utf8(lines[i])
    ensures Block([first] + lines)
    ensures Utf8(PrintLines([first] + lines) + CRLF)
    ensures first + CRLF + (PrintLines(lines) + CRLF) == PrintLines([first] + lines) + CRLF
  {
    PrintLinesUtf8([first] + lines);
    Utf8Ascii(CRLF);
    Utf8Concat(PrintLines([first] + lines), CRLF);
    PrintLinesCons(first, lines, CRLF);
  }

  lemma HeadBlock(line: RequestLine, headers: FieldList)
    requires ReadableLine(line) && Readable(headers)
    ensures var all := [StartText(line)] + LinesOf(AllPairs(headers));
            && PrintHead(line, headers) == PrintLines(all) + CRLF
            && Block(all) && Utf8(PrintHead(line, headers))
  {
    AllPairsReadable(headers);
    StartTextRoundTrip(line);
    PrintedLinesShape(AllPairs(headers));
    BlockText(StartText(line), LinesOf(AllPairs(headers)));
  }

  lemma SameLines(a: string, x: seq<string>, b: string, y: seq<string>)
    requires [a] + x + ["", ""] == [b] + y + ["", ""]
    ensures a == b && x == y
  {
    assert ([a] + x + ["", ""])[0] == a && ([a] + x + ["", ""])[1..|x| + 1] == x;
    assert |x| == |y|;
    assert ([b] + y + ["", ""])[0] == b && ([b] + y + ["", ""])[1..|y| + 1] == y;
  }

  /** A block of lines with an empty one behind it is a head, whatever follows, and these are its lines. */
  lemma BlockIsHead(start: string, lines: seq<string>, more: string)
    requires Block([start] + lines)
    ensures var h := PrintLines([start] + lines) + CRLF;
            && HeadEnd(h + more) == Some(|h|) && (h + more)[..|h|] == h && (h + more)[|h|..] == more
            && RequestLineOf(h + more) == start && HeaderLines(h + more) == lines
  {
    var all := [start] + lines;
    var h := PrintLines(all) + CRLF;
    FindBlockEnd(all, more);
    SplitBlock(all);
    CutBetween(h, more);
    SameLines(RequestLineOf(h + more), HeaderLines(h + more), start, lines);
  }

  lemma PrintedHeadShape(line: RequestLine, headers: FieldList, more: string)
    requires ReadableLine(line) && Readable(headers)
    ensures var (h, s) := (PrintHead(line, headers), PrintHead(line, headers) + more);
            && HeadEnd(s) == Some(|h|) && s[..|h|] == h && Utf8(h)
            && RequestLineOf(s) == StartText(line)
            && HeaderLines(s) == LinesOf(AllPairs(headers))
  {
    HeadBlock(line, headers);
    BlockIsHead(StartText(line), LinesOf(AllPairs(headers)), more);
  }

  lemma PrintedFields(ps: seq<Pair>)
    requires forall i :: 0 <= i < |ps| ==> ReadablePair(ps[i]) && |LineOf(ps[i])| <= 8192
    ensures AllFields(LinesOf(ps)) && FieldsOf(LinesOf(ps)) == ps
  {
    hide ReadablePair, ReadFieldLine, LineOf;
    var lines := LinesOf(ps);
    forall i | 0 <= i < |ps| ensures FieldLine(lines[i]) && ReadFieldLine(lines[i]) == Some(ps[i]) {
      FieldLineRead(ps[i]);
    }
  }

  lemma SendableParts(line: RequestLine, headers: FieldList)
    requires Sendable(line, headers)
    ensures ReadableLine(line) && Readable(headers) && FieldsFine(AllPairs(headers))
    ensures |StartText(line)| <= 8192 && |PrintHead(line, headers)| <= 65536
    ensures forall i :: 0 <= i < |AllPairs(headers)| ==> |LineOf(AllPairs(headers)[i])| <= 8192
  {
    hide ReadableLine, Readable, FieldsFine, StartText, PrintHead, AllPairs, LineOf;
    var ps := AllPairs(headers);
    forall i | 0 <= i < |ps| ensures |LineOf(ps[i])| <= 8192 {
      assert LinesOf(ps)[i] == LineOf(ps[i]);
    }
  }

  lemma ReadableFields(headers: FieldList)
    requires Readable(headers)
    ensures WellFormed(headers)
  {
  }

  /** A printed head parses back to the same line and the same ordered headers, with exactly its own
      bytes consumed, whatever follows, and the framing its fields call for. */
  lemma PrintedHeadParses(line: RequestLine, headers: FieldList, more: string)
    requires Sendable(line, headers)
    ensures var r := ParseHead(PrintHead(line, headers) + more);
            && r.Ok?
            && r.value.line == line && r.value.headers == headers
            && r.value.consumed == |PrintHead(line, headers)|
            && FramedBy(r.value.mode, AllPairs(headers))
  {
    hide ParseHead, Utf8, ParseRequestLine, ReadablePair, Sendable, ReadableLine, Readable, FieldsFine, FramedBy;
    hide StartText, PrintHead, AllPairs, LineOf, ReadFieldLine, HeadEnd, Collect, AllFields;
    var s := PrintHead(line, headers) + more;
    SendableParts(line, headers);
    PrintedHeadShape(line, headers, more);
    StartTextRoundTrip(line);
    AllPairsReadable(headers);
    PrintedFields(AllPairs(headers));
    ParseHeadMeaning(s);
    assert WellFormed(headers) by { ReadableFields(headers); }
    CollectAllPairs(headers);
  }
}
