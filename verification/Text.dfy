/** Byte strings. A byte is a Dafny `char`, a byte string a `string`; a Rust `str` is the
    byte string of its UTF-8 encoding. */
module Text {
  import opened Wrappers

  const CRLF := "\r\n"
  const CRLFCRLF := "\r\n\r\n"

  lemma Assoc(a: string, b: string, c: string)
    ensures a + (b + c) == a + b + c
  {
  }

  lemma DropDrop(s: string, i: nat, j: nat)
    requires i + j <= |s|
    ensures s[i..][j..] == s[i + j..]
  {
  }

  /** Cutting a concatenation behind its first part. */
  lemma CutBehind(a: string, b: string, n: nat)
    requires |a| <= n <= |a + b|
    ensures (a + b)[..n] == a + b[..n - |a|]
    ensures (a + b)[n..] == b[n - |a|..]
  {
  }

  lemma CutBetween(a: string, b: string)
    ensures (a + b)[..|a|] == a && (a + b)[|a|..] == b
  {
  }

  lemma TailOfConcat(a: string, b: string)
    requires a != ""
    ensures (a + b)[1..] == a[1..] + b && (a + b)[0] == a[0]
  {
  }

  lemma ThreePieces(s: string, i: nat, j: nat)
    requires i <= j <= |s|
    ensures s == s[..i] + s[i..j] + s[j..]
  {
  }

  // ---------------------------------------------------------------- searching

  /** `pat` occurs in `s` at position `i`. */
  predicate At(s: string, pat: string, i: int) {
    0 <= i && i + |pat| <= |s| && s[i..i + |pat|] == pat
  }

  lemma AtCharacters(s: string, pat: string, i: int)
    ensures At(s, pat, i) <==>
              0 <= i && i + |pat| <= |s| && forall j :: 0 <= j < |pat| ==> s[i + j] == pat[j]
  {
    if 0 <= i && i + |pat| <= |s| {
      var here := s[i..i + |pat|];
      assert forall j :: 0 <= j < |pat| ==> here[j] == s[i + j];
    }
  }

  lemma AtTail(s: string, pat: string)
    requires |s| > 0
    ensures forall j {:trigger At(s, pat, j)} :: j >= 1 ==> (At(s, pat, j) <==> At(s[1..], pat, j - 1))
  {
    forall j | j >= 1 ensures At(s, pat, j) <==> At(s[1..], pat, j - 1) {
      if j + |pat| <= |s| {
        assert s[1..][j - 1..j - 1 + |pat|] == s[j..j + |pat|];
      }
    }
  }

  /** The first position at which `pat` occurs. */
  function Find(s: string, pat: string): (r: Option<nat>)
    requires |pat| > 0
    ensures r.Some? ==> At(s, pat, r.value)
    ensures forall j :: (r.None? || j < r.value) ==> !At(s, pat, j)
    decreases |s|
  {
    if |s| < |pat| then None
    else
      AtTail(s, pat);
      if s[..|pat|] == pat then Some(0)
      else match Find(s[1..], pat)
        case None => None
        case Some(k) => Some(k + 1)
  }

  lemma AtHead(s: string, pat: string, i: int)
    requires |pat| > 0
    ensures At(s, pat, i) ==> s[i] == pat[0]
  {
    assert At(s, pat, i) ==> s[i] == s[i..i + |pat|][0];
  }

  lemma FindIs(s: string, pat: string, k: nat)
    requires |pat| > 0 && At(s, pat, k)
    requires forall j :: 0 <= j < k ==> !At(s, pat, j)
    ensures Find(s, pat) == Some(k)
  {
  }

  /** More bytes at the end do not move the first occurrence. */
  lemma FindExtends(a: string, b: string, pat: string)
    requires |pat| > 0 && Find(a, pat).Some?
    ensures Find(a + b, pat) == Find(a, pat)
  {
    var k := Find(a, pat).value;
    assert (a + b)[k..k + |pat|] == a[k..k + |pat|];
    forall j | 0 <= j < k ensures !At(a + b, pat, j) {
      assert (a + b)[j..j + |pat|] == a[j..j + |pat|];
      assert !At(a, pat, j);
    }
    FindIs(a + b, pat, k);
  }

  lemma FindLater(s: string, pat: string)
    requires |pat| > 0 && s != "" && !At(s, pat, 0) && Find(s[1..], pat).Some?
    ensures Find(s, pat) == Some(Find(s[1..], pat).value + 1)
  {
  }

  /** Dropping bytes before the first occurrence moves it by as much. */
  lemma {:induction false} FindDrop(s: string, pat: string, m: nat)
    requires |pat| > 0 && Find(s, pat).Some? && m <= Find(s, pat).value
    ensures Find(s[m..], pat) == Some(Find(s, pat).value - m)
    decreases m
  {
    if m == 0 {
      assert s[0..] == s;
    } else {
      DropDrop(s, 1, m - 1);
      FindDropOne(s, pat);
      FindDrop(s[1..], pat, m - 1);
    }
  }

  lemma FindDropOne(s: string, pat: string)
    requires |pat| > 0 && Find(s, pat).Some? && Find(s, pat).value > 0
    ensures Find(s[1..], pat) == Some(Find(s, pat).value - 1)
  {
  }

  /** Keeping the bytes up to and including the first occurrence keeps it. */
  lemma FindTake(s: string, pat: string, n: nat)
    requires |pat| > 0 && Find(s, pat).Some? && Find(s, pat).value + |pat| <= n <= |s|
    ensures Find(s[..n], pat) == Find(s, pat)
  {
    var k := Find(s, pat).value;
    assert s[..n][k..k + |pat|] == s[k..k + |pat|];
    forall j | 0 <= j < k ensures !At(s[..n], pat, j) {
      assert !At(s, pat, j);
      assert j + |pat| <= n ==> s[..n][j..j + |pat|] == s[j..j + |pat|];
    }
    FindIs(s[..n], pat, k);
  }

  /** A separator is found right after a part that lacks its first byte. */
  lemma FindAfter(part: string, pat: string, rest: string)
    requires |pat| > 0 && pat[0] !in part
    ensures Find(part + pat + rest, pat) == Some(|part|)
  {
    var s := part + pat + rest;
    assert s[|part|..|part| + |pat|] == pat;
    forall j | 0 <= j < |part| ensures !At(s, pat, j) {
      AtHead(s, pat, j);
      assert s[j] == part[j];
    }
    FindIs(s, pat, |part|);
  }

  lemma FindNothing(s: string, pat: string)
    requires |pat| > 0 && pat[0] !in s
    ensures Find(s, pat) == None
  {
    forall j ensures !At(s, pat, j) { AtHead(s, pat, j); }
  }

  /** Rust's `split`: the pieces between the non-overlapping occurrences of `sep`. */
  function Split(s: string, sep: string): (parts: seq<string>)
    requires |sep| > 0
    ensures |parts| > 0
    decreases |s|
  {
    match Find(s, sep)
    case None => [s]
    case Some(k) => [s[..k]] + Split(s[k + |sep|..], sep)
  }

  lemma SplitAt(s: string, sep: string, k: nat)
    requires |sep| > 0 && Find(s, sep) == Some(k)
    ensures k + |sep| <= |s| && Split(s, sep) == [s[..k]] + Split(s[k + |sep|..], sep)
  {
    hide Find;
  }

  lemma SplitFirst(part: string, sep: string, rest: string)
    requires |sep| > 0 && sep[0] !in part
    ensures Split(part + sep + rest, sep) == [part] + Split(rest, sep)
  {
    hide Find, Split;
    FindAfter(part, sep, rest);
    SplitAt(part + sep + rest, sep, |part|);
    CutBetween(part, sep + rest);
    CutBetween(part + sep, rest);
    Assoc(part, sep, rest);
  }

  lemma SplitWhole(s: string, sep: string)
    requires |sep| > 0 && sep[0] !in s
    ensures Split(s, sep) == [s]
  {
    FindNothing(s, sep);
  }

  /** Rust's `join`. */
  function Join(parts: seq<string>, sep: string): string {
    if |parts| == 0 then ""
    else if |parts| == 1 then parts[0]
    else parts[0] + sep + Join(parts[1..], sep)
  }

  lemma {:induction false} SplitJoin(parts: seq<string>, sep: string)
    requires |parts| > 0 && |sep| > 0
    requires forall p :: p in parts ==> sep[0] !in p
    ensures Split(Join(parts, sep), sep) == parts
  {
    hide Split;
    assert parts[0] in parts;
    if |parts| == 1 {
      SplitWhole(parts[0], sep);
      assert parts == [parts[0]];
    } else {
      var tail := parts[1..];
      assert parts == [parts[0]] + tail;
      SplitFirst(parts[0], sep, Join(tail, sep));
      SplitJoin(tail, sep);
    }
  }

  /** The pieces of several texts, each split on its own. */
  function AllPieces(parts: seq<string>, sep: string): seq<string>
    requires |sep| > 0
  {
    if parts == [] then [] else Split(parts[0], sep) + AllPieces(parts[1..], sep)
  }

  lemma {:induction false} SplitConcat(a: string, c: char, b: string)
    ensures Split(a + [c] + b, [c]) == Split(a, [c]) + Split(b, [c])
    decreases |a|
  {
    match Find(a, [c]) {
      case None =>
        NotFound(a, c);
        SplitFirst(a, [c], b);
      case Some(k) =>
        Assoc(a, [c], b);
        FindExtends(a, [c] + b, [c]);
        CutInFront(a, [c] + b, k, k + 1);
        Assoc(a[k + 1..], [c], b);
        SplitConcat(a[k + 1..], c, b);
        assert [a[..k]] + (Split(a[k + 1..], [c]) + Split(b, [c])) == [a[..k]] + Split(a[k + 1..], [c]) + Split(b, [c]);
    }
  }

  lemma CutInFront(a: string, b: string, n: nat, m: nat)
    requires n <= |a| && m <= |a|
    ensures (a + b)[..n] == a[..n] && (a + b)[m..] == a[m..] + b
  {
  }

  lemma NotFound(s: string, c: char)
    ensures Find(s, [c]).None? <==> c !in s
  {
    forall i | 0 <= i < |s| ensures s[i] == c <==> At(s, [c], i) {
      assert s[i..i + 1] == [s[i]];
    }
  }

  /** Splitting what was joined splits every part: a separator inside a part is one like any other. */
  lemma {:induction false} SplitJoinPieces(parts: seq<string>, c: char)
    requires parts != []
    ensures Split(Join(parts, [c]), [c]) == AllPieces(parts, [c])
  {
    if |parts| == 1 {
      assert parts[1..] == [] && Split(parts[0], [c]) + [] == Split(parts[0], [c]);
    } else {
      SplitConcat(parts[0], c, Join(parts[1..], [c]));
      SplitJoinPieces(parts[1..], c);
    }
  }

  ghost predicate SliceOf(p: string, s: string) {
    exists i, j :: 0 <= i <= j <= |s| && p == s[i..j]
  }

  lemma SliceIs(p: string, s: string, i: nat, j: nat)
    requires i <= j <= |s| && p == s[i..j]
    ensures SliceOf(p, s)
  {
  }

  lemma SliceDeeper(p: string, s: string, k: nat)
    requires k <= |s| && SliceOf(p, s[k..])
    ensures SliceOf(p, s)
  {
    var i, j :| 0 <= i <= j <= |s[k..]| && p == s[k..][i..j];
    assert p == s[k + i..k + j];
  }

  /** Every piece is a slice without the separator. */
  lemma {:induction false} SplitSlices(s: string, c: char)
    ensures forall p :: p in Split(s, [c]) ==> SliceOf(p, s) && c !in p
    decreases |s|
  {
    hide Find, SliceOf;
    NotFound(s, c);
    match Find(s, [c]) {
      case None => SliceIs(s, s, 0, |s|);
      case Some(k) =>
        SplitSlices(s[k + 1..], c);
        SliceIs(s[..k], s, 0, k);
        forall i | 0 <= i < k ensures s[i] != c { assert s[i..i + 1] == [s[i]]; assert !At(s, [c], i); }
        forall p | p in Split(s, [c]) ensures SliceOf(p, s) && c !in p {
          if p != s[..k] {
            assert p in Split(s[k + 1..], [c]);
            SliceDeeper(p, s, k + 1);
          }
        }
    }
  }

  // ---------------------------------------------------------------- white space and case

  predicate IsOws(c: char) {
    c == ' ' || c == '\t'
  }

  function TrimOwsStart(s: string): string {
    if s != "" && IsOws(s[0]) then TrimOwsStart(s[1..]) else s
  }

  function TrimOwsEnd(s: string): string {
    if s != "" && IsOws(s[|s| - 1]) then TrimOwsEnd(s[..|s| - 1]) else s
  }

  /** Removes spaces and tabs at both ends. */
  function TrimOws(s: string): string {
    TrimOwsEnd(TrimOwsStart(s))
  }

  predicate OwsTrimmed(s: string) {
    s == "" || (!IsOws(s[0]) && !IsOws(s[|s| - 1]))
  }

  lemma TrimOwsOfTrimmed(s: string)
    requires OwsTrimmed(s)
    ensures TrimOws(s) == s && TrimOws(" " + s) == s
  {
    assert (" " + s)[1..] == s;
  }

  predicate WhiteByte(c: char) {
    c == ' ' || 9 <= c as int <= 13
  }

  predicate WhitePair(a: char, b: char) {
    a as int == 0xC2 && (b as int == 0x85 || b as int == 0xA0)
  }

  predicate WhiteTriple(a: char, b: char, c: char) {
    var (x, y, z) := (a as int, b as int, c as int);
    || (x == 0xE1 && y == 0x9A && z == 0x80)
    || (x == 0xE2 && y == 0x80 && (0x80 <= z <= 0x8A || z == 0xA8 || z == 0xA9 || z == 0xAF))
    || (x == 0xE2 && y == 0x81 && z == 0x9F)
    || (x == 0xE3 && y == 0x80 && z == 0x80)
  }

  /** Length in bytes of the White_Space character `s` starts with, or 0. */
  function WhitePrefix(s: string): (k: nat)
    ensures k <= |s|
  {
    if |s| >= 1 && WhiteByte(s[0]) then 1
    else if |s| >= 2 && WhitePair(s[0], s[1]) then 2
    else if |s| >= 3 && WhiteTriple(s[0], s[1], s[2]) then 3
    else 0
  }

  function WhiteSuffix(s: string): (k: nat)
    ensures k <= |s|
  {
    var n := |s|;
    if n >= 1 && WhiteByte(s[n - 1]) then 1
    else if n >= 2 && WhitePair(s[n - 2], s[n - 1]) then 2
    else if n >= 3 && WhiteTriple(s[n - 3], s[n - 2], s[n - 1]) then 3
    else 0
  }

  function TrimStart(s: string): string
    decreases |s|
  {
    var k := WhitePrefix(s);
    if k == 0 then s else TrimStart(s[k..])
  }

  function TrimEnd(s: string): string
    decreases |s|
  {
    var k := WhiteSuffix(s);
    if k == 0 then s else TrimEnd(s[..|s| - k])
  }

  /** Rust's `str::trim`: removes Unicode White_Space at both ends. */
  function Trim(s: string): string {
    TrimEnd(TrimStart(s))
  }

  lemma {:induction false} TrimOwsTrims(s: string)
    ensures OwsTrimmed(TrimOws(s))
  {
    StartTrims(s);
    EndTrims(TrimOwsStart(s));
  }

  lemma {:induction false} StartTrims(s: string)
    ensures TrimOwsStart(s) == "" || !IsOws(TrimOwsStart(s)[0])
  {
    if s != "" && IsOws(s[0]) {
      StartTrims(s[1..]);
    }
  }

  lemma {:induction false} EndTrims(s: string)
    ensures var t := TrimOwsEnd(s); t == "" || (t[0] == s[0] && !IsOws(t[|t| - 1]))
    ensures TrimOwsEnd(s) != "" ==> s != ""
  {
    if s != "" && IsOws(s[|s| - 1]) {
      EndTrims(s[..|s| - 1]);
    }
  }

  lemma {:induction false} TrimEndSteps(s: string)
    ensures TrimEnd(s) == TrimEnd(TrimOwsEnd(s))
    decreases |s|
  {
    if s != "" && IsOws(s[|s| - 1]) {
      assert WhiteSuffix(s) == 1;
      TrimEndSteps(s[..|s| - 1]);
    }
  }

  predicate Graphic(c: char) {
    0x20 < c as int < 0x7F
  }

  lemma TrimOfGraphic(s: string)
    requires s != "" && Graphic(s[0]) && Graphic(s[|s| - 1])
    ensures Trim(s) == s && OwsTrimmed(s)
  {
  }

  /** What `TrimOws` keeps is a slice, with only blanks around it. */
  lemma TrimOwsSlice(s: string) returns (i: nat, j: nat)
    ensures i <= j <= |s| && TrimOws(s) == s[i..j]
    ensures forall k :: 0 <= k < i || j <= k < |s| ==> IsOws(s[k])
  {
    i := StartSlice(s);
    j := EndSlice(s[i..]);
    j := i + j;
    forall k | j <= k < |s| ensures IsOws(s[k]) {
      assert s[k] == s[i..][k - i];
    }
  }

  lemma {:induction false} StartSlice(s: string) returns (i: nat)
    ensures i <= |s| && TrimOwsStart(s) == s[i..] && forall k :: 0 <= k < i ==> IsOws(s[k])
  {
    if s != "" && IsOws(s[0]) {
      i := StartSlice(s[1..]);
      assert s[1..][i..] == s[i + 1..];
      assert forall k :: 0 < k < i + 1 ==> s[k] == s[1..][k - 1];
      i := i + 1;
    } else {
      i := 0;
    }
  }

  lemma {:induction false} EndSlice(s: string) returns (j: nat)
    ensures j <= |s| && TrimOwsEnd(s) == s[..j] && forall k :: j <= k < |s| ==> IsOws(s[k])
  {
    if s != "" && IsOws(s[|s| - 1]) {
      j := EndSlice(s[..|s| - 1]);
      assert s[..|s| - 1][..j] == s[..j];
      assert forall k :: j <= k < |s| - 1 ==> s[k] == s[..|s| - 1][k];
    } else {
      j := |s|;
    }
  }

  lemma {:induction false} TrimStartSteps(s: string)
    ensures TrimStart(s) == TrimStart(TrimOwsStart(s))
    decreases |s|
  {
    if s != "" && IsOws(s[0]) {
      assert WhitePrefix(s) == 1;
      TrimStartSteps(s[1..]);
    }
  }

  /** Around a visible core, trimming white space and trimming blanks come to the same if only blanks are there. */
  lemma TrimIsTrimOws(s: string)
    requires var t := TrimOws(s); t != "" && Graphic(t[0]) && Graphic(t[|t| - 1])
    ensures Trim(s) == TrimOws(s)
  {
    var u := TrimOwsStart(s);
    TrimStartSteps(s);
    EndTrims(u);
    TrimEndSteps(u);
    TrimOfGraphic(TrimOws(s));
  }

  /** Nothing but blanks. */
  lemma BlankTrims(s: string)
    requires TrimOws(s) == ""
    ensures Trim(s) == "" && forall c :: c in s ==> IsOws(c)
  {
    var i, j := TrimOwsSlice(s);
    assert forall k :: 0 <= k < |s| ==> IsOws(s[k]);
    var u := TrimOwsStart(s);
    StartTrims(s);
    var k := EndSlice(u);
    assert u == "";
    TrimStartSteps(s);
  }

  function LowerChar(c: char): char {
    if 'A' <= c <= 'Z' then (c as int + 32) as char else c
  }

  /** ASCII lower-casing. */
  function Lower(s: string): (r: string)
    ensures |r| == |s|
    ensures forall i :: 0 <= i < |s| ==> r[i] == LowerChar(s[i])
  {
    seq(|s|, i requires 0 <= i < |s| => LowerChar(s[i]))
  }

  lemma LowerIdempotent(s: string)
    ensures Lower(Lower(s)) == Lower(s)
  {
  }

  lemma LowerFixed(s: string)
    requires forall i :: 0 <= i < |s| ==> !('A' <= s[i] <= 'Z')
    ensures Lower(s) == s
  {
  }

  predicate EqIgnoreCase(a: string, b: string) {
    Lower(a) == Lower(b)
  }

  predicate IsDigit(c: char) {
    '0' <= c <= '9'
  }

  predicate IsAlpha(c: char) {
    'A' <= c <= 'Z' || 'a' <= c <= 'z'
  }

  /** The `tchar` rule of section 5.6.2 of RFC 9110. */
  predicate IsTchar(c: char) {
    IsDigit(c) || IsAlpha(c) || c in "!#$%&'*+-.^_`|~"
  }

  predicate IsToken(s: string) {
    s != "" && forall c :: c in s ==> IsTchar(c)
  }

  lemma TcharIsGraphic(c: char)
    requires IsTchar(c)
    ensures Graphic(c) && c != ':' && c != ',' && c != ';' && c != '"'
  {
  }

  // ---------------------------------------------------------------- numbers

  const U64_LIMIT: nat := 0x1_0000_0000_0000_0000

  function DigitChar(d: nat): char
    requires d < 16
  {
    if d < 10 then ('0' as int + d) as char else ('A' as int + d - 10) as char
  }

  function DigitValue(c: char): Option<nat> {
    if IsDigit(c) then Some(c as int - '0' as int)
    else if 'A' <= c <= 'F' then Some(c as int - 'A' as int + 10)
    else if 'a' <= c <= 'f' then Some(c as int - 'a' as int + 10)
    else None
  }

  /** A number in the given base, without leading zeros and with upper-case letters. */
  function ToDigits(n: nat, base: nat): (s: string)
    requires 2 <= base <= 16
    ensures s != ""
  {
    if n < base then [DigitChar(n)] else ToDigits(n / base, base) + [DigitChar(n % base)]
  }

  function ToDecimal(n: nat): string {
    ToDigits(n, 10)
  }

  function ToHex(n: nat): string {
    ToDigits(n, 16)
  }

  function DigitsValue(s: string, base: nat): Option<nat>
    requires 2 <= base <= 16
  {
    if s == "" then Some(0)
    else
      var v := DigitsValue(s[..|s| - 1], base);
      var d := DigitValue(s[|s| - 1]);
      if v.Some? && d.Some? && d.value < base then Some(v.value * base + d.value) else None
  }

  /** Rust's integer parsing: an optional `+`, then digits, with the value below `limit`. */
  function ParseUnsigned(s: string, base: nat, limit: nat): (r: Option<nat>)
    requires 2 <= base <= 16
    ensures r.Some? ==> r.value < limit
  {
    var t := if s != "" && s[0] == '+' then s[1..] else s;
    if t == "" then None
    else match DigitsValue(t, base)
      case None => None
      case Some(n) => if n < limit then Some(n) else None
  }

  lemma DigitsStep(s: string, q: nat, d: nat, base: nat)
    requires 2 <= base <= 16 && d < base && DigitsValue(s, base) == Some(q)
    ensures DigitsValue(s + [DigitChar(d)], base) == Some(q * base + d)
    ensures DigitValue(DigitChar(d)) == Some(d)
  {
    var t := s + [DigitChar(d)];
    assert t[..|t| - 1] == s;
  }

  lemma DivideStep(n: nat, base: nat)
    requires base > 0
    ensures n / base * base + n % base == n
  {
  }

  lemma {:induction false} DigitsRoundTrip(n: nat, base: nat)
    requires 2 <= base <= 16
    ensures DigitsValue(ToDigits(n, base), base) == Some(n)
  {
    if n < base {
      DigitsStep("", 0, n, base);
      assert "" + [DigitChar(n)] == [DigitChar(n)];
    } else {
      DigitsRoundTrip(n / base, base);
      DigitsStep(ToDigits(n / base, base), n / base, n % base, base);
      DivideStep(n, base);
    }
  }

  lemma {:induction false} DigitsInBase(n: nat, base: nat)
    requires 2 <= base <= 16
    ensures forall c :: c in ToDigits(n, base) ==> DigitValue(c).Some? && DigitValue(c).value < base
  {
    hide DigitsValue;
    var s := ToDigits(n, base);
    if n >= base {
      DigitsInBase(n / base, base);
      forall c | c in s ensures DigitValue(c).Some? && DigitValue(c).value < base {
        assert c in ToDigits(n / base, base) || c == DigitChar(n % base);
      }
    }
  }

  lemma ParsePrinted(n: nat, base: nat, limit: nat)
    requires 2 <= base <= 16 && n < limit
    ensures ParseUnsigned(ToDigits(n, base), base, limit) == Some(n)
  {
    DigitsRoundTrip(n, base);
    DigitsInBase(n, base);
    assert ToDigits(n, base)[0] in ToDigits(n, base);
  }

  /** Printed numbers are graphic ASCII without separators. */
  lemma DigitsAreGraphic(n: nat, base: nat)
    requires 2 <= base <= 16
    ensures forall c :: c in ToDigits(n, base) ==> IsTchar(c)
    ensures base <= 10 ==> forall c :: c in ToDigits(n, base) ==> IsDigit(c)
    ensures IsToken(ToDigits(n, base)) && Trim(ToDigits(n, base)) == ToDigits(n, base)
  {
    DigitsInBase(n, base);
    var s := ToDigits(n, base);
    assert s[0] in s && s[|s| - 1] in s;
    TrimOfGraphic(s);
  }

  // ---------------------------------------------------------------- UTF-8

  predicate Tail(c: char) {
    0x80 <= c as int <= 0xBF
  }

  /** Length of the well-formed UTF-8 sequence `s` starts with, or 0 (section 4 of RFC 3629). */
  function Utf8Prefix(s: string): (k: nat)
    ensures k <= |s|
  {
    if s == "" then 0
    else
      var a := s[0] as int;
      if a < 0x80 then 1
      else if 0xC2 <= a <= 0xDF && |s| >= 2 && Tail(s[1]) then 2
      else if |s| >= 3 && Tail(s[1]) && Tail(s[2]) && 0xE0 <= a <= 0xEF
              && (a == 0xE0 ==> s[1] as int >= 0xA0) && (a == 0xED ==> s[1] as int <= 0x9F) then 3
      else if |s| >= 4 && Tail(s[1]) && Tail(s[2]) && Tail(s[3]) && 0xF0 <= a <= 0xF4
              && (a == 0xF0 ==> s[1] as int >= 0x90) && (a == 0xF4 ==> s[1] as int <= 0x8F) then 4
      else 0
  }

  predicate Utf8(s: string)
    decreases |s|
  {
    s == "" || (Utf8Prefix(s) > 0 && Utf8(s[Utf8Prefix(s)..]))
  }

  lemma {:induction false} Utf8Concat(a: string, b: string)
    requires Utf8(a) && Utf8(b)
    ensures Utf8(a + b)
    decreases |a|
  {
    if a == "" {
      assert a + b == b;
    } else {
      var k := Utf8Prefix(a);
      assert Utf8Prefix(a + b) == k;
      assert (a + b)[k..] == a[k..] + b;
      Utf8Concat(a[k..], b);
    }
  }

  /** ASCII in front does not change whether a text is UTF-8. */
  lemma {:induction false} Utf8BehindAscii(a: string, b: string)
    requires forall c :: c in a ==> c as int < 0x80
    ensures Utf8(a + b) <==> Utf8(b)
    decreases |a|
  {
    if a == "" {
      assert a + b == b;
    } else {
      assert a[0] in a && Utf8Prefix(a + b) == 1;
      TailOfConcat(a, b);
      assert forall c :: c in a[1..] ==> c in a;
      Utf8BehindAscii(a[1..], b);
    }
  }

  lemma {:induction false} Utf8Ascii(s: string)
    requires forall c :: c in s ==> c as int < 0x80
    ensures Utf8(s)
  {
    if s != "" {
      assert s[0] in s;
      forall c | c in s[1..] ensures c as int < 0x80 { assert c in s; }
      Utf8Ascii(s[1..]);
    }
  }
}
