/** Field sections as text: printing them, finding where they end, and reading them back. */
module FieldText {
  import opened Wrappers
  import opened Text
  import opened HeaderFields
  import opened RequestHead

  // ---------------------------------------------------------------- field lines of the grammar

  /** What a field value may hold: visible characters, blanks, and bytes beyond ASCII. */
  predicate FieldByte(c: char) {
    c == ' ' || c == '\t' || Graphic(c) || c as int >= 0x80
  }

  /** `field-name ":" OWS field-value OWS`, section 5 of RFC 9112. */
  function ReadFieldLine(line: string): Option<Pair> {
    match Find(line, ":")
    case None => None
    case Some(k) =>
      var (name, value) := (line[..k], TrimOws(line[k + 1..]));
      if IsToken(name) && forall c :: c in value ==> FieldByte(c) then Some(Pair(Lower(name), value)) else None
  }

  // ---------------------------------------------------------------- printing

  /** Every line followed by CRLF. */
  function PrintLines(lines: seq<string>): string {
    if lines == [] then "" else lines[0] + CRLF + PrintLines(lines[1..])
  }

  function LineOf(p: Pair): string {
    p.name + ": " + p.value
  }

  function PairsOf(name: string, values: seq<string>): seq<Pair> {
    if values == [] then [] else [Pair(name, values[0])] + PairsOf(name, values[1..])
  }

  /** The (name, value) pairs of a header collection in iteration order. */
  function AllPairs(l: FieldList): seq<Pair> {
    if l == [] then [] else PairsOf(l[0].name, l[0].values) + AllPairs(l[1..])
  }

  function LinesOf(ps: seq<Pair>): (lines: seq<string>)
    ensures |lines| == |ps|
    ensures forall i :: 0 <= i < |ps| ==> lines[i] == LineOf(ps[i])
  {
    if ps == [] then [] else [LineOf(ps[0])] + LinesOf(ps[1..])
  }

  /** A field section with its closing empty line. */
  function PrintFields(l: FieldList): string {
    PrintLines(LinesOf(AllPairs(l))) + CRLF
  }

  lemma {:induction false} PrintLinesConcat(a: seq<string>, b: seq<string>)
    ensures PrintLines(a + b) == PrintLines(a) + PrintLines(b)
  {
    if a == [] {
      assert a + b == b;
    } else {
      assert (a + b)[1..] == a[1..] + b;
      PrintLinesConcat(a[1..], b);
    }
  }

  lemma PrintLinesCons(line: string, lines: seq<string>, tail: string)
    ensures PrintLines([line] + lines) == line + CRLF + PrintLines(lines)
    ensures PrintLines([line] + lines) + tail == line + CRLF + (PrintLines(lines) + tail)
  {
    assert ([line] + lines)[1..] == lines;
    Assoc(line + CRLF, PrintLines(lines), tail);
  }

  /** What callers must keep to for a field section to be readable: token names, and values that are
      text, trimmed and free of control bytes. */
  predicate ReadablePair(p: Pair) {
    && IsToken(p.name) && Lower(p.name) == p.name
    && OwsTrimmed(p.value) && CleanValue(p.value) && Utf8(p.value)
  }

  predicate Readable(l: FieldList) {
    && WellFormed(l)
    && forall i, j :: 0 <= i < |l| && 0 <= j < |l[i].values| ==> ReadablePair(Pair(l[i].name, l[i].values[j]))
  }

  lemma {:induction false} PairsOfReadable(name: string, values: seq<string>)
    requires forall j :: 0 <= j < |values| ==> ReadablePair(Pair(name, values[j]))
    ensures forall i :: 0 <= i < |PairsOf(name, values)| ==> ReadablePair(PairsOf(name, values)[i])
  {
    if values != [] {
      PairsOfReadable(name, values[1..]);
    }
  }

  lemma {:induction false} AllPairsReadable(l: FieldList)
    requires Readable(l)
    ensures forall i :: 0 <= i < |AllPairs(l)| ==> ReadablePair(AllPairs(l)[i])
  {
    if l != [] {
      PairsOfReadable(l[0].name, l[0].values);
      AllPairsReadable(l[1..]);
    }
  }

  // ---------------------------------------------------------------- one line there and back

  lemma TokenLacks(s: string, c: char)
    requires IsToken(s) && !IsTchar(c)
    ensures c !in s
  {
  }

  lemma LineRoundTrip(p: Pair)
    requires ReadablePair(p)
    ensures ParseField(LineOf(p)) == Ok(p)
  {
    TokenLacks(p.name, ':');
    FindAfter(p.name, ":", " " + p.value);
    var line := p.name + ":" + (" " + p.value);
    assert line == LineOf(p);
    assert line[..|p.name|] == p.name;
    assert line[|p.name| + 1..] == " " + p.value;
    TrimOwsOfTrimmed(p.value);
  }

  lemma FieldLineRead(p: Pair)
    requires ReadablePair(p)
    ensures ReadFieldLine(LineOf(p)) == Some(p)
  {
    LineRoundTrip(p);
    FieldLineLanguage(LineOf(p));
  }

  /** The server reads exactly the field lines of the grammar. */
  lemma FieldLineLanguage(line: string)
    ensures ReadFieldLine(line) == match ParseField(line) case Ok(f) => Some(f) case Err(_) => None
  {
    assert forall c :: FieldByte(c) <==> !InvalidValueByte(c);
  }

  /** A printed line has no CR, is not empty, starts with no blank and is UTF-8. */
  lemma LineShape(p: Pair)
    requires ReadablePair(p)
    ensures '\r' !in LineOf(p) && LineOf(p) != "" && !IsOws(LineOf(p)[0]) && Utf8(LineOf(p))
  {
    TokenLacks(p.name, '\r');
    assert InvalidValueByte('\r');
    assert LineOf(p)[0] == p.name[0] && p.name[0] in p.name;
    assert IsTchar(p.name[0]);
    Utf8Token(p.name);
    Utf8Ascii(": ");
    Utf8Concat(p.name, ": ");
    Utf8Concat(p.name + ": ", p.value);
  }

  lemma Utf8Token(s: string)
    requires IsToken(s)
    ensures Utf8(s)
  {
    Utf8Ascii(s);
  }

  lemma {:induction false} PrintLinesUtf8(lines: seq<string>)
    requires forall i :: 0 <= i < |lines| ==> Utf8(lines[i])
    ensures Utf8(PrintLines(lines))
  {
    if lines != [] {
      PrintLinesUtf8(lines[1..]);
      Utf8Ascii(CRLF);
      Utf8Concat(lines[0], CRLF);
      Utf8Concat(lines[0] + CRLF, PrintLines(lines[1..]));
    }
  }

  // ---------------------------------------------------------------- blocks of lines

  /** A start line and non-empty lines after it, none of them with a CR. */
  predicate Block(lines: seq<string>) {
    && lines != []
    && (forall i :: 0 <= i < |lines| ==> '\r' !in lines[i])
    && (forall i :: 1 <= i < |lines| ==> lines[i] != "")
  }

  lemma {:induction false} SplitBlock(lines: seq<string>)
    requires forall i :: 0 <= i < |lines| ==> '\r' !in lines[i]
    ensures Split(PrintLines(lines) + CRLF, CRLF) == lines + ["", ""]
  {
    if lines == [] {
      assert PrintLines(lines) + CRLF == "" + CRLF + "";
      SplitFirst("", CRLF, "");
      SplitWhole("", CRLF);
    } else {
      SplitBlock(lines[1..]);
      PrintSplitStep(lines[0], lines[1..]);
      assert lines == [lines[0]] + lines[1..];
    }
  }

  lemma PrintSplitStep(line: string, lines: seq<string>)
    requires '\r' !in line
    ensures Split(PrintLines([line] + lines) + CRLF, CRLF) == [line] + Split(PrintLines(lines) + CRLF, CRLF)
  {
    var rest := PrintLines(lines) + CRLF;
    assert ([line] + lines)[1..] == lines;
    assert PrintLines([line] + lines) + CRLF == line + CRLF + rest;
    SplitFirst(line, CRLF, rest);
  }

  lemma {:induction false} FindSkip(front: string, s: string, pat: string)
    requires |pat| > 0 && Find(s, pat).Some?
    requires forall j :: 0 <= j < |front| ==> !At(front + s, pat, j)
    ensures Find(front + s, pat) == Some(|front| + Find(s, pat).value)
    decreases |front|
  {
    hide Find;
    if front == "" {
      assert front + s == s;
    } else {
      var t := front + s;
      TailOfConcat(front, s);
      AtTail(t, pat);
      forall j | 0 <= j < |front[1..]| ensures !At(front[1..] + s, pat, j) {
        assert !At(t, pat, j + 1);
      }
      FindSkip(front[1..], s, pat);
      FindLater(t, pat);
    }
  }

  lemma NoEmptyLineYet(line: string, rest: string)
    requires '\r' !in line && rest != "" && rest[0] != '\r'
    ensures forall j :: 0 <= j < |line + CRLF| ==> !At(line + CRLF + rest, CRLFCRLF, j)
  {
    var text := line + CRLF + rest;
    forall j | 0 <= j < |line| + 2 ensures !At(text, CRLFCRLF, j) {
      AtCharacters(text, CRLFCRLF, j);
      assert CRLFCRLF[0] == '\r' && CRLFCRLF[2] == '\r';
      assert text[|line| + 1] == '\n' && text[|line| + 2] == rest[0];
      assert j < |line| ==> text[j] == line[j];
    }
  }

  /** The first empty line of a block is the one printed after it. */
  lemma {:induction false} FindBlockEnd(lines: seq<string>, suffix: string)
    requires Block(lines)
    ensures |PrintLines(lines)| >= 2
    ensures Find(PrintLines(lines) + CRLF + suffix, CRLFCRLF) == Some(|PrintLines(lines)| - 2)
  {
    var line, rest := lines[0], lines[1..];
    assert lines == [line] + rest;
    PrintBlock(line, rest, suffix);
    if rest == [] {
      OneLineBlock(line, suffix);
    } else {
      FindBlockEnd(rest, suffix);
      var text := PrintLines(rest) + CRLF + suffix;
      assert text[0] == rest[0][0] && rest[0][0] in rest[0];
      NoEmptyLineYet(line, text);
      FindSkip(line + CRLF, text, CRLFCRLF);
    }
  }

  lemma PrintBlock(line: string, lines: seq<string>, suffix: string)
    ensures PrintLines([line] + lines) + CRLF + suffix == line + CRLF + (PrintLines(lines) + CRLF + suffix)
    ensures |PrintLines([line] + lines)| == |line| + 2 + |PrintLines(lines)|
  {
    PrintLinesCons(line, lines, CRLF + suffix);
    Assoc(PrintLines([line] + lines), CRLF, suffix);
    Assoc(PrintLines(lines), CRLF, suffix);
  }

  lemma OneLineBlock(line: string, suffix: string)
    requires '\r' !in line
    ensures Find(line + CRLF + (PrintLines([]) + CRLF + suffix), CRLFCRLF) == Some(|line|)
  {
    hide Find;
    assert PrintLines([]) + CRLF + suffix == CRLF + suffix;
    TwoBreaks(line, suffix);
    FindAfter(line, CRLFCRLF, suffix);
  }

  lemma TwoBreaks(line: string, suffix: string)
    ensures line + CRLF + (CRLF + suffix) == line + CRLFCRLF + suffix
  {
    assert CRLFCRLF == CRLF + CRLF;
    Assoc(line, CRLF, CRLF);
    Assoc(line + CRLF, CRLF, suffix);
  }

  // ---------------------------------------------------------------- reading pairs into a collection

  function CollectFrom(acc: FieldList, ps: seq<Pair>): FieldList
    decreases |ps|
  {
    if ps == [] then acc else CollectFrom(Add(acc, ps[0].name, ps[0].value), ps[1..])
  }

  function Collect(ps: seq<Pair>): FieldList {
    CollectFrom([], ps)
  }

  lemma {:induction false} CollectConcat(acc: FieldList, a: seq<Pair>, b: seq<Pair>)
    ensures CollectFrom(acc, a + b) == CollectFrom(CollectFrom(acc, a), b)
    decreases |a|
  {
    if a == [] {
      assert a + b == b;
    } else {
      assert (a + b)[1..] == a[1..] + b;
      CollectConcat(Add(acc, a[0].name, a[0].value), a[1..], b);
    }
  }

  lemma {:induction false} CollectWellFormed(acc: FieldList, ps: seq<Pair>)
    requires WellFormed(acc) && forall i :: 0 <= i < |ps| ==> Lower(ps[i].name) == ps[i].name
    ensures WellFormed(CollectFrom(acc, ps))
    decreases |ps|
  {
    if ps != [] {
      PutWellFormed(acc, ps[0].name, Values(acc, ps[0].name) + [ps[0].value]);
      CollectWellFormed(Add(acc, ps[0].name, ps[0].value), ps[1..]);
    }
  }

  lemma {:induction false} CollectOneName(acc: FieldList, name: string, done: seq<string>, todo: seq<string>)
    requires forall i :: 0 <= i < |acc| ==> acc[i].name != name
    ensures CollectFrom(acc + [Field(name, done)], PairsOf(name, todo)) == acc + [Field(name, done + todo)]
    decreases |todo|
  {
    var here := acc + [Field(name, done)];
    if todo == [] {
      assert done + todo == done;
    } else {
      PutAt(here, name, done + [todo[0]], |acc|);
      assert Add(here, name, todo[0]) == acc + [Field(name, done + [todo[0]])];
      assert PairsOf(name, todo)[1..] == PairsOf(name, todo[1..]);
      CollectOneName(acc, name, done + [todo[0]], todo[1..]);
      assert done + [todo[0]] + todo[1..] == done + todo;
    }
  }

  lemma {:induction false} CollectOntoDistinct(acc: FieldList, l: FieldList)
    requires WellFormed(acc + l)
    ensures CollectFrom(acc, AllPairs(l)) == acc + l
    decreases |l|
  {
    if l == [] {
      assert acc + l == acc;
    } else {
      var name, vs := l[0].name, l[0].values;
      assert (acc + l)[|acc|] == l[0];
      assert forall i :: 0 <= i < |acc| ==> acc[i] == (acc + l)[i];
      AddFirst(acc, name, vs[0]);
      CollectConcat(acc, PairsOf(name, vs), AllPairs(l[1..]));
      CollectOneName(acc, name, [vs[0]], vs[1..]);
      assert vs == [vs[0]] + vs[1..];
      MoveHead(acc, l);
      CollectOntoDistinct(acc + [l[0]], l[1..]);
    }
  }

  lemma AddFirst(acc: FieldList, name: string, value: string)
    requires forall i :: 0 <= i < |acc| ==> acc[i].name != name
    ensures Add(acc, name, value) == acc + [Field(name, [value])]
  {
    PutAt(acc, name, [value], |acc|);
    assert [] + [value] == [value];
  }

  lemma MoveHead(acc: FieldList, l: FieldList)
    requires l != []
    ensures acc + [l[0]] + l[1..] == acc + l
  {
  }

  /** Reading back the pairs of a collection rebuilds it, order included. */
  lemma CollectAllPairs(l: FieldList)
    requires WellFormed(l)
    ensures Collect(AllPairs(l)) == l
  {
    assert [] + l == l;
    CollectOntoDistinct([], l);
  }

  // ---------------------------------------------------------------- what the pairs contain

  /** All values carried by pairs of a name, in order. */
  function ValuesIn(ps: seq<Pair>, name: string): seq<string> {
    if ps == [] then []
    else (if ps[0].name == name then [ps[0].value] else []) + ValuesIn(ps[1..], name)
  }

  /** A collection holds for each name exactly the values of its lines, in order. */
  lemma {:induction false} CollectValues(acc: FieldList, ps: seq<Pair>, name: string)
    ensures Values(CollectFrom(acc, ps), name) == Values(acc, name) + ValuesIn(ps, name)
    decreases |ps|
  {
    if ps != [] {
      var acc' := Add(acc, ps[0].name, ps[0].value);
      PutLaws(acc, ps[0].name, Values(acc, ps[0].name) + [ps[0].value], name);
      CollectValues(acc', ps[1..], name);
    }
  }
}
