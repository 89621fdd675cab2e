/** The languages that the small parsers accept, where they are wider than the RFC grammar, and what a
    parsed line says about its text. */
module GrammarLaws {
  import opened Wrappers
  import opened Text
  import opened RequestHead
  import opened BodyReaders

  // ---------------------------------------------------------------- numbers

  lemma {:induction false} DigitsMeaning(s: string, base: nat)
    requires 2 <= base <= 16
    ensures DigitsValue(s, base).Some? <==> forall c :: c in s ==> DigitValue(c).Some? && DigitValue(c).value < base
  {
    if s != "" {
      var n := |s| - 1;
      DigitsMeaning(s[..n], base);
      assert s == s[..n] + [s[n]];
    }
  }

  predicate AllInBase(s: string, base: nat) {
    s != "" && forall c :: c in s ==> DigitValue(c).Some? && DigitValue(c).value < base
  }

  predicate PlusInBase(s: string, base: nat) {
    s != "" && s[0] == '+' && AllInBase(s[1..], base)
  }

  predicate Below(n: Option<nat>, limit: nat) {
    n.Some? && n.value < limit
  }

  /** The number a text stands for, its leading plus sign aside. */
  function NumberIn(s: string, base: nat): Option<nat>
    requires 2 <= base <= 16
  {
    DigitsValue(if s != "" && s[0] == '+' then s[1..] else s, base)
  }

  /** Integers are accepted exactly when they are digits, or digits behind one plus sign, of a value below
      the limit; without the second form this is the grammar 1*DIGIT. */
  lemma IntegerLanguage(s: string, base: nat, limit: nat)
    requires 2 <= base <= 16
    ensures ParseUnsigned(s, base, limit).Some? <==>
              (AllInBase(s, base) || PlusInBase(s, base)) && Below(NumberIn(s, base), limit)
    ensures ParseUnsigned(s, base, limit).Some? ==> ParseUnsigned(s, base, limit) == NumberIn(s, base)
  {
    DigitsMeaning(s, base);
    if s != "" {
      DigitsMeaning(s[1..], base);
      assert s[0] in s;
      assert s[0] == '+' ==> DigitValue(s[0]).None?;
    }
  }

  /** The form section 8.6 of RFC 9110 gives a Content-Length, with a value below 2^64. */
  predicate LengthGrammar(value: string) {
    AllDigits(value) && Below(DigitsValue(value, 10), U64_LIMIT)
  }

  /** Digits behind a plus sign, of a value below 2^64. */
  predicate SignedLength(value: string) {
    PlusInBase(value, 10) && Below(NumberIn(value, 10), U64_LIMIT)
  }

  predicate LengthAccepted(value: string) {
    LengthGrammar(value) || SignedLength(value)
  }

  /** A Content-Length is accepted iff it has the form of the RFC or is signed, so the code meets the RFC on
      exactly the values that are not signed; and it is the number its digits say. */
  lemma ContentLengthLanguage(value: string)
    ensures ParseContentLength(value).Ok? <==> LengthAccepted(value)
    ensures ParseContentLength(value).Ok? ==> Some(ParseContentLength(value).value) == NumberIn(value, 10)
    ensures ParseContentLength(value).Err? ==> ParseContentLength(value) == Err(InvalidContentLength)
    ensures LengthGrammar(value) ==> NumberIn(value, 10) == DigitsValue(value, 10)
    ensures (ParseContentLength(value).Ok? <==> LengthGrammar(value)) <==> !SignedLength(value)
  {
    hide ParseUnsigned, DigitsValue;
    IntegerLanguage(value, 10, U64_LIMIT);
    DecimalDigits(value);
    if PlusInBase(value, 10) {
      assert value[0] in value && !IsDigit('+');
    } else if AllDigits(value) {
      assert value[0] in value && !IsDigit('+');
    }
  }

  lemma DecimalDigits(s: string)
    ensures AllInBase(s, 10) <==> AllDigits(s)
  {
    forall c ensures (DigitValue(c).Some? && DigitValue(c).value < 10) <==> IsDigit(c) {
    }
  }

  /** The part of a size line in front of a chunk extension. */
  function SizeText(line: string): string {
    match Find(line, ";")
    case None => line
    case Some(k) => line[..k]
  }

  /** The same without the white space that the grammar allows in front of an extension only. */
  function BareSize(line: string): string {
    match Find(line, ";")
    case None => line
    case Some(k) => TrimOwsEnd(line[..k])
  }

  /** The chunk size by section 7.1 of RFC 9112, 1*HEXDIG of any value. */
  function ChunkSizeOf(line: string): Option<nat> {
    if AllInBase(BareSize(line), 16) then DigitsValue(BareSize(line), 16) else None
  }

  /** A size line is accepted iff what is left of its size text after trimming is hexadecimal digits,
      possibly behind one plus sign, of a value below 2^64; and the size is that value. */
  lemma ChunkSizeLanguage(line: string)
    ensures var t := Trim(SizeText(line));
      && (ParseChunkSize(line).Ok? <==> (AllInBase(t, 16) || PlusInBase(t, 16)) && Below(NumberIn(t, 16), U64_LIMIT))
      && (ParseChunkSize(line).Ok? ==> NumberIn(t, 16) == Some(ParseChunkSize(line).value))
  {
    hide Trim, ParseUnsigned, DigitsValue;
    IntegerLanguage(Trim(SizeText(line)), 16, U64_LIMIT);
  }

  /** A size that is signed, or has white space around it where the grammar has none. */
  predicate ToleratedSize(line: string) {
    var t := Trim(SizeText(line));
    Below(NumberIn(t, 16), U64_LIMIT) && (PlusInBase(t, 16) || (AllInBase(t, 16) && t != BareSize(line)))
  }

  /** Every size of the grammar is read as it is, or refused if it is 2^64 or more; beyond the grammar
      exactly the tolerated sizes are accepted. */
  lemma ChunkSizeExact(line: string)
    ensures Below(ChunkSizeOf(line), U64_LIMIT) ==> ParseChunkSize(line) == Ok(ChunkSizeOf(line).value)
    ensures ChunkSizeOf(line).Some? && ChunkSizeOf(line).value >= U64_LIMIT ==> ParseChunkSize(line) == Err(InvalidChunk)
    ensures ParseChunkSize(line).Ok? && ChunkSizeOf(line).None? <==> ToleratedSize(line)
  {
    hide Trim, DigitsValue, ParseChunkSize;
    var t, bare := Trim(SizeText(line)), BareSize(line);
    ChunkSizeLanguage(line);
    RefusedSize(line);
    DigitsMeaning(bare, 16);
    if AllInBase(bare, 16) {
      TrimSize(line);
      assert bare[0] in bare && DigitValue('+').None?;
    }
  }

  lemma RefusedSize(line: string)
    ensures ParseChunkSize(line).Err? ==> ParseChunkSize(line) == Err(InvalidChunk)
  {
    hide Trim, ParseUnsigned;
  }

  /** Trimming takes from a size of the grammar just the white space in front of its extension. */
  lemma TrimSize(line: string)
    requires AllInBase(BareSize(line), 16)
    ensures Trim(SizeText(line)) == BareSize(line)
  {
    var s, bare := SizeText(line), BareSize(line);
    assert bare[0] in bare && bare[|bare| - 1] in bare;
    forall c | DigitValue(c).Some? ensures Graphic(c) { }
    if Find(line, ";").Some? {
      EndTrims(s);
      TrimEndSteps(s);
    }
  }

  /** Forms outside the grammars that are accepted all the same, for every number below 2^64. */
  lemma PlusSignAccepted(n: nat)
    requires n < U64_LIMIT
    ensures ParseContentLength("+" + ToDecimal(n)) == Ok(n) && !LengthGrammar("+" + ToDecimal(n))
    ensures ParseChunkSize("+" + ToHex(n)) == Ok(n) && ChunkSizeOf("+" + ToHex(n)) == None
  {
    hide DigitsValue, ToDigits;
    SignedNumber(n, 10);
    SignedNumber(n, 16);
    var d, h := "+" + ToDecimal(n), "+" + ToHex(n);
    assert d[0] in d && !IsDigit('+');
    assert h[0] in h && DigitValue('+').None?;
    FindNothing(h, ";");
  }

  lemma BlankInFrontAccepted(n: nat)
    requires n < U64_LIMIT
    ensures ParseChunkSize(" " + ToHex(n)) == Ok(n) && ChunkSizeOf(" " + ToHex(n)) == None
  {
    hide ToDigits;
    var h := ToHex(n);
    var s := " " + h;
    DigitsAreGraphic(n, 16);
    ParsePrinted(n, 16, U64_LIMIT);
    assert !IsTchar(';') && s[0] == ' ' && DigitValue(' ').None?;
    FindNothing(s, ";");
    assert s[1..] == h && WhitePrefix(s) == 1;
    assert h[0] in h && IsTchar(h[0]);
    TcharIsGraphic(h[0]);
    assert TrimStart(s) == h;
  }

  lemma SignedNumber(n: nat, base: nat)
    requires 2 <= base <= 16 && n < U64_LIMIT
    ensures var s := "+" + ToDigits(n, base);
            ParseUnsigned(s, base, U64_LIMIT) == Some(n) && Trim(s) == s && ';' !in s
  {
    hide ToDigits;
    var t := ToDigits(n, base);
    var s := "+" + t;
    DigitsRoundTrip(n, base);
    DigitsAreGraphic(n, base);
    assert s[1..] == t && s[|s| - 1] == t[|t| - 1] && t[|t| - 1] in t;
    TcharIsGraphic(t[|t| - 1]);
    TrimOfGraphic(s);
    assert !IsTchar(';');
  }

  /** A chunk extension, whatever it holds, does not change the size. */
  lemma ExtensionIgnored(size: string, extension: string)
    requires ';' !in size
    ensures ParseChunkSize(size + ";" + extension) == ParseChunkSize(size)
  {
    hide ParseUnsigned, Trim;
    FindAfter(size, ";", extension);
    FindNothing(size, ";");
    CutBetween(size, ";" + extension);
    Assoc(size, ";", extension);
  }

  /** A text for the number `n`, any leading zeros and one plus sign included. */
  predicate NumeralFor(s: string, n: nat) {
    (AllInBase(s, 10) || PlusInBase(s, 10)) && NumberIn(s, 10) == Some(n)
  }

  predicate NumeralPair(s: string, major: nat, minor: nat) {
    && |s| >= 5 && s[..5] == "HTTP/"
    && var parts := Split(s[5..], ".");
       |parts| == 2 && NumeralFor(parts[0], major) && NumeralFor(parts[1], minor)
  }

  /** A version text is taken for HTTP/1.1, or 1.0, iff it is `HTTP/` and two numerals for those numbers with
      a full stop between them; the grammar has one text for each. */
  lemma VersionLanguage(s: string)
    ensures ParseVersion(s) == Some(Http11) <==> NumeralPair(s, 1, 1)
    ensures ParseVersion(s) == Some(Http10) <==> NumeralPair(s, 1, 0)
  {
    hide Split, ParseUnsigned, DigitsValue;
    if |s| >= 5 {
      var parts := Split(s[5..], ".");
      if |parts| == 2 {
        IntegerLanguage(parts[0], 10, 256);
        IntegerLanguage(parts[1], 10, 256);
      }
    }
  }

  lemma SignedVersionAccepted()
    ensures ParseVersion("HTTP/+1.1") == Some(Http11)
  {
    hide Split, DigitsValue, ParseVersion;
    var s := "HTTP/+1.1";
    assert s[5..] == "+1" + "." + "1" && s[..5] == "HTTP/";
    SplitFirst("+1", ".", "1");
    SplitWhole("1", ".");
    DigitsRoundTrip(1, 10);
    assert ToDigits(1, 10) == "1" && "+1"[1..] == "1";
    VersionLanguage(s);
  }

  // ---------------------------------------------------------------- transfer codings

  /** Every member of the list is a token. */
  predicate CodingsGrammar(value: string) {
    var parts := Split(value, ",");
    forall i :: 0 <= i < |parts| ==> IsToken(Trim(parts[i]))
  }

  /** The members of the list in order, in lower case. */
  function CodingNames(value: string): (names: seq<string>)
    ensures |names| == |Split(value, ",")|
    ensures forall i :: 0 <= i < |names| ==> names[i] == Lower(Trim(Split(value, ",")[i]))
  {
    var parts := Split(value, ",");
    seq(|parts|, i requires 0 <= i < |parts| => Lower(Trim(parts[i])))
  }

  /** A Transfer-Encoding is accepted iff all members of its list are tokens, and then it is these in lower case,
      in order. */
  lemma CodingsMeaning(value: string)
    ensures Codings(value).Ok? <==> CodingsGrammar(value)
    ensures Codings(value).Ok? ==> Codings(value).value == CodingNames(value)
    ensures Codings(value).Err? ==> Codings(value) == Err(InvalidTransferEncoding)
  {
    hide Trim, Split, IsToken, Lower;
    PartsMeaning(Split(value, ","));
  }

  lemma {:induction false} PartsMeaning(parts: seq<string>)
    ensures CodingsFrom(parts).Ok? <==> forall i :: 0 <= i < |parts| ==> IsToken(Trim(parts[i]))
    ensures CodingsFrom(parts).Ok? ==>
              var names := CodingsFrom(parts).value;
              |names| == |parts| && forall i :: 0 <= i < |parts| ==> names[i] == Lower(Trim(parts[i]))
    ensures CodingsFrom(parts).Err? ==> CodingsFrom(parts) == Err(InvalidTransferEncoding)
  {
    hide Trim, IsToken, Lower;
    if parts != [] {
      var rest := parts[1..];
      assert forall i :: 0 <= i < |rest| ==> rest[i] == parts[i + 1];
      PartsMeaning(rest);
    }
  }

  /** A written list of tokens is read as these tokens. */
  lemma CodingsOfList(tokens: seq<string>)
    requires tokens != [] && forall i :: 0 <= i < |tokens| ==> IsToken(tokens[i])
    ensures Codings(Join(tokens, ",")).Ok?
    ensures var names := Codings(Join(tokens, ",")).value;
            |names| == |tokens| && forall i :: 0 <= i < |tokens| ==> names[i] == Lower(tokens[i])
  {
    hide Trim, Split, Lower, Join, Codings;
    forall p | p in tokens ensures ',' !in p {
      assert !IsTchar(',');
    }
    SplitJoin(tokens, ",");
    forall i | 0 <= i < |tokens| ensures Trim(tokens[i]) == tokens[i] {
      var t := tokens[i];
      assert t[0] in t && t[|t| - 1] in t;
      TcharIsGraphic(t[0]);
      TcharIsGraphic(t[|t| - 1]);
      TrimOfGraphic(t);
    }
    CodingsMeaning(Join(tokens, ","));
  }

  // ---------------------------------------------------------------- hosts and targets

  /** `[ ":" port ]`. */
  function PortText(port: Option<string>): string {
    match port
    case None => ""
    case Some(p) => ":" + p
  }

  predicate PortFine(port: Option<string>) {
    port.Some? ==> AllDigits(port.value)
  }

  predicate HostName(s: string) {
    s != "" && forall c :: c in s ==> IsAlpha(c) || IsDigit(c) || c == '-' || c == '.'
  }

  predicate BracketText(s: string) {
    s != "" && forall c :: c in s ==> c == ':' || DigitValue(c).Some?
  }

  predicate NamedHost(s: string, name: string, port: Option<string>) {
    HostName(name) && PortFine(port) && s == name + PortText(port)
  }

  predicate BracketHost(s: string, address: string, port: Option<string>) {
    BracketText(address) && PortFine(port) && s == "[" + address + "]" + PortText(port)
  }

  lemma PortIsPlain(port: Option<string>)
    requires PortFine(port)
    ensures ' ' !in PortText(port) && '\t' !in PortText(port)
  {
    assert !IsDigit(' ') && !IsDigit('\t');
  }

  lemma NamedAccepted(s: string, name: string, port: Option<string>)
    requires NamedHost(s, name, port)
    ensures IsValidHost(s)
  {
    hide Find;
    PortIsPlain(port);
    assert name[0] in name && s[0] == name[0] && ':' !in name && ' ' !in name && '\t' !in name;
    match port {
      case None =>
        assert name + "" == name;
        FindNothing(name, ":");
      case Some(p) =>
        Assoc(name, ":", p);
        FindAfter(name, ":", p);
        CutBetween(name, ":" + p);
        CutBetween(name + ":", p);
    }
  }

  lemma BracketAccepted(s: string, address: string, port: Option<string>)
    requires BracketHost(s, address, port)
    ensures IsValidHost(s)
  {
    hide Find;
    PortIsPlain(port);
    var tail := PortText(port);
    assert DigitValue(']').None? && DigitValue(' ').None? && DigitValue('\t').None?;
    var front := "[" + address;
    assert ']' !in front;
    FindAfter(front, "]", tail);
    assert s == front + "]" + tail && s[0] == '[';
    CutBetween(front + "]", tail);
    assert s[1..|front|] == address;
    assert port.Some? ==> tail[1..] == port.value;
  }

  /** A host is accepted iff it is a name of letters, digits, dashes and full stops, or an address of hexadecimal
      digits and colons in brackets, with or without a port of digits. */
  lemma HostLanguage(s: string)
    ensures IsValidHost(s) <==> (exists name, port :: NamedHost(s, name, port)) || (exists address, port :: BracketHost(s, address, port))
  {
    if name, port :| NamedHost(s, name, port) {
      NamedAccepted(s, name, port);
    }
    if address, port :| BracketHost(s, address, port) {
      BracketAccepted(s, address, port);
    }
    if IsValidHost(s) {
      HostParts(s);
    }
  }

  lemma HostParts(s: string)
    requires IsValidHost(s)
    ensures (exists name, port :: NamedHost(s, name, port)) || (exists address, port :: BracketHost(s, address, port))
  {
    if s[0] == '[' {
      var e := Find(s, "]").value;
      var (address, tail) := (s[1..e], s[e + 1..]);
      var port := if tail == "" then None else Some(tail[1..]);
      assert s[e..e + 1] == "]" && s == s[..e] + s[e..e + 1] + s[e + 1..] && s[..e] == "[" + s[1..e];
      assert tail != "" ==> tail == ":" + tail[1..];
      assert BracketHost(s, address, port);
    } else {
      match Find(s, ":") {
        case None =>
          assert s + "" == s;
          assert NamedHost(s, s, None);
        case Some(k) =>
          ThreePieces(s, k, k + 1);
          assert s[k..k + 1] == ":";
          Assoc(s[..k], ":", s[k + 1..]);
          assert NamedHost(s, s[..k], Some(s[k + 1..]));
      }
    }
  }

  /** `host ":" port` with a port of digits; a host in brackets ends at the first closing one, any other has no colon. */
  predicate AuthorityParts(s: string, host: string, port: string) {
    && AllDigits(port) && host != "" && s == host + ":" + port
    && if host[0] == '[' then host[|host| - 1] == ']' && ']' !in host[..|host| - 1] else ':' !in host
  }

  lemma AuthorityLanguage(s: string)
    ensures IsAuthorityForm(s) <==> exists host, port :: AuthorityParts(s, host, port)
  {
    hide AuthorityParts;
    if host, port :| AuthorityParts(s, host, port) {
      AuthorityAccepted(s, host, port);
    }
    if IsAuthorityForm(s) {
      if s[0] == '[' {
        BracketAuthority(s, Find(s, "]").value);
      } else {
        PlainAuthority(s, Find(s, ":").value);
      }
    }
  }

  lemma BracketAuthority(s: string, e: nat)
    requires IsAuthorityForm(s) && s[0] == '[' && Find(s, "]") == Some(e)
    ensures AuthorityParts(s, s[..e + 1], s[e + 2..])
  {
    hide Find;
    var tail := s[e + 1..];
    assert tail == ":" + tail[1..] && s == s[..e + 1] + tail && tail[1..] == s[e + 2..];
    assert s[e..e + 1] == "]" && s[..e + 1][e] == ']';
    FirstOfChar(s, ']', e);
    assert s[..e + 1][..e] == s[..e];
    Assoc(s[..e + 1], ":", tail[1..]);
  }

  lemma PlainAuthority(s: string, k: nat)
    requires IsAuthorityForm(s) && s[0] != '[' && Find(s, ":") == Some(k)
    ensures AuthorityParts(s, s[..k], s[k + 1..])
  {
    hide Find;
    ThreePieces(s, k, k + 1);
    assert s[k..k + 1] == ":";
    FirstOfChar(s, ':', k);
  }

  lemma FirstOfChar(s: string, c: char, k: nat)
    requires Find(s, [c]) == Some(k)
    ensures c !in s[..k]
  {
    forall i | 0 <= i < k ensures s[i] != c {
      assert s[i..i + 1] == [s[i]];
      assert !At(s, [c], i);
    }
  }

  lemma AuthorityAccepted(s: string, host: string, port: string)
    requires AuthorityParts(s, host, port)
    ensures IsAuthorityForm(s)
  {
    hide Find;
    if host[0] == '[' {
      var inner := host[..|host| - 1];
      assert host == inner + "]";
      Assoc(inner, "]", ":" + port);
      Assoc(host, ":", port);
      FindAfter(inner, "]", ":" + port);
      CutBetween(host, ":" + port);
      assert s[0] == '[' && (":" + port)[1..] == port;
    } else {
      FindAfter(host, ":", port);
      CutBetween(host + ":", port);
      assert s[0] == host[0];
    }
  }

  /** `scheme "://" rest`, the scheme a letter and letters, digits, `+`, `-` and full stops. */
  predicate AbsoluteParts(s: string, scheme: string, rest: string) {
    && s == scheme + "://" + rest
    && scheme != "" && IsAlpha(scheme[0]) && forall c :: c in scheme ==> IsAlpha(c) || IsDigit(c) || c == '+' || c == '-' || c == '.'
  }

  lemma SchemeMeaning(s: string)
    ensures IsUriScheme(s) <==>
              s != "" && IsAlpha(s[0]) && forall c :: c in s ==> IsAlpha(c) || IsDigit(c) || c == '+' || c == '-' || c == '.'
  {
    if s != "" {
      assert s == [s[0]] + s[1..];
      assert forall c :: c in s <==> c == s[0] || c in s[1..];
    }
  }

  lemma AbsoluteLanguage(s: string)
    ensures (exists scheme, rest :: AbsoluteParts(s, scheme, rest)) <==>
              Find(s, "://").Some? && IsUriScheme(s[..Find(s, "://").value])
  {
    if scheme, rest :| AbsoluteParts(s, scheme, rest) {
      FindAfter(scheme, "://", rest);
      assert s[..|scheme|] == scheme;
      SchemeMeaning(scheme);
    }
    if Find(s, "://").Some? && IsUriScheme(s[..Find(s, "://").value]) {
      var k := Find(s, "://").value;
      ThreePieces(s, k, k + 3);
      SchemeMeaning(s[..k]);
      assert AbsoluteParts(s, s[..k], s[k + 3..]);
    }
  }

  predicate IsOrigin(s: string) {
    s != "" && s[0] == '/'
  }

  /** The form a target is read as: `*` for OPTIONS only, a path for any method, `host:port` for CONNECT only, and an
      absolute URI for any method but CONNECT; and nothing else is accepted. */
  lemma TargetForms(m: Method, s: string)
    ensures ParseTarget(m, s) == Ok(Asterisk) <==> s == "*" && m == OPTIONS
    ensures ParseTarget(m, s) == Ok(Origin(s)) <==> IsOrigin(s)
    ensures ParseTarget(m, s) == Ok(Authority(s)) <==> m == CONNECT && !IsOrigin(s) && exists host, port :: AuthorityParts(s, host, port)
    ensures ParseTarget(m, s) == Ok(Absolute(s)) <==> m != CONNECT && !IsOrigin(s) && exists scheme, rest :: AbsoluteParts(s, scheme, rest)
    ensures ParseTarget(m, s).Ok? ==> ParseTarget(m, s).value in [Asterisk, Origin(s), Authority(s), Absolute(s)]
  {
    hide IsAuthorityForm, IsUriScheme, AuthorityParts, AbsoluteParts, Find;
    AuthorityLanguage(s);
    AbsoluteLanguage(s);
    StarIsNoUri();
  }

  lemma StarIsNoUri()
    ensures !IsAuthorityForm("*") && Find("*", "://") == None
  {
    FindNothing("*", ":");
    FindNothing("*", "://");
  }

  // ---------------------------------------------------------------- lines

  /** The three pieces and the two spaces between them are the line. */
  lemma CutLosesNothing(line: string)
    ensures CutRequestLine(line).Ok? ==>
      var p := CutRequestLine(line).value; line == p.verb + " " + p.target + " " + p.version
  {
    if CutRequestLine(line).Ok? {
      var p := CutRequestLine(line).value;
      var a := Find(line, " ").value;
      var rest := line[a + 1..];
      ThreePieces(line, a, a + 1);
      ThreePieces(rest, Find(rest, " ").value, Find(rest, " ").value + 1);
      Assoc(p.verb + " ", p.target + " ", p.version);
      Assoc(p.verb + " ", p.target, " ");
    }
  }

  /** An accepted request line is the method, one space, the target, one space, and a version text, with
      nothing else on it. */
  lemma RequestLineSound(line: string)
    ensures ParseRequestLine(line).Ok? ==>
      var l := ParseRequestLine(line).value;
      exists v :: ParseVersion(v) == Some(l.version) && line == MethodText(l.verb) + " " + TargetText(l.target) + " " + v
  {
    hide ParseVersion, ParseTarget, ParseMethod, MethodText, TargetText, CutRequestLine;
    if ParseRequestLine(line).Ok? {
      var l, p := ParseRequestLine(line).value, CutRequestLine(line).value;
      CutLosesNothing(line);
      MethodSound(p.verb);
      TargetSound(l.verb, p.target);
      assert ParseVersion(p.version) == Some(l.version);
    }
  }

  lemma MethodSound(s: string)
    ensures ParseMethod(s).Some? ==> MethodText(ParseMethod(s).value) == s && IsToken(s)
  {
  }

  const NAMED_METHODS := ["GET", "HEAD", "POST", "PUT", "DELETE", "CONNECT", "OPTIONS", "TRACE", "PATCH"]

  /** Every token names a method, the one with that text; only the others are extensions. */
  lemma MethodLanguage(s: string)
    ensures ParseMethod(s).Some? <==> IsToken(s)
    ensures ParseMethod(s).Some? ==>
              MethodText(ParseMethod(s).value) == s && (ParseMethod(s).value.Extension? <==> s !in NAMED_METHODS)
    ensures ParseMethod(s) == Some(GET) <==> s == "GET"
    ensures ParseMethod(s) == Some(HEAD) <==> s == "HEAD"
    ensures ParseMethod(s) == Some(POST) <==> s == "POST"
    ensures ParseMethod(s) == Some(PUT) <==> s == "PUT"
    ensures ParseMethod(s) == Some(DELETE) <==> s == "DELETE"
    ensures ParseMethod(s) == Some(CONNECT) <==> s == "CONNECT"
    ensures ParseMethod(s) == Some(OPTIONS) <==> s == "OPTIONS"
    ensures ParseMethod(s) == Some(TRACE) <==> s == "TRACE"
    ensures ParseMethod(s) == Some(PATCH) <==> s == "PATCH"
  {
    MethodTokens();
  }

  lemma MethodTokens()
    ensures forall i :: 0 <= i < |NAMED_METHODS| ==> IsToken(NAMED_METHODS[i])
  {
  }

  lemma TargetSound(m: Method, s: string)
    ensures ParseTarget(m, s).Ok? ==> TargetText(ParseTarget(m, s).value) == s
  {
    hide IsAuthorityForm, IsUriScheme;
  }

  /** A parsed field has a lower-case token for a name and a trimmed value without control bytes. */
  lemma ParsedFieldClean(line: string)
    ensures ParseField(line).Ok? ==>
      var p := ParseField(line).value;
      IsToken(p.name) && Lower(p.name) == p.name && OwsTrimmed(p.value) && CleanValue(p.value)
  {
    hide CleanValue;
    FieldNameIsLower(line);
    if k :| Find(line, ":") == Some(k) {
      LowerToken(line[..k]);
      TrimOwsTrims(line[k + 1..]);
    }
  }

  lemma LowerToken(s: string)
    ensures IsToken(s) ==> IsToken(Lower(s))
  {
    var l := Lower(s);
    forall i | 0 <= i < |s| ensures IsTchar(s[i]) ==> IsTchar(l[i]) {
    }
    if IsToken(s) {
      assert forall i :: 0 <= i < |s| ==> s[i] in s;
    }
  }
}
