/** Byte ranges: parsing a Range value and applying it to an entity. */
module Range {
  import opened Wrappers
  import opened Text

  datatype RangeSpec = FromTo(start: nat, end: nat) | From(start: nat) | Suffix(length: nat)

  datatype SatisfiableRange = SatisfiableRange(start: nat, end: nat)

  datatype RangeParseError = InvalidUnit | InvalidSyntax | InvalidBounds | InvalidNumber | NoRanges

  // ---------------------------------------------------------------- parsing

  function ParseU64(s: string): Option<nat> {
    ParseUnsigned(Trim(s), 10, U64_LIMIT)
  }

  /** One non-empty, trimmed part of the list. */
  function ParsePart(part: string): (r: Result<RangeSpec, RangeParseError>)
    requires part != ""
  {
    if part[0] == '-' then
      match ParseU64(part[1..])
      case None => Err(InvalidNumber)
      case Some(n) => Ok(Suffix(n))
    else
      var dash := Find(part, "-");
      match ParseU64(if dash.Some? then part[..dash.value] else part)
      case None => Err(InvalidNumber)
      case Some(start) =>
        if dash.None? || part[dash.value + 1..] == "" then Ok(From(start))
        else match ParseU64(part[dash.value + 1..])
          case None => Err(InvalidNumber)
          case Some(end) => if start > end then Err(InvalidBounds) else Ok(FromTo(start, end))
  }

  function ParseParts(parts: seq<string>): Result<seq<RangeSpec>, RangeParseError> {
    if parts == [] then Ok([])
    else if Trim(parts[0]) == "" then ParseParts(parts[1..])
    else match ParsePart(Trim(parts[0]))
      case Err(e) => Err(e)
      case Ok(spec) =>
        match ParseParts(parts[1..])
        case Err(e) => Err(e)
        case Ok(rest) => Ok([spec] + rest)
  }

  /** The value `ParseRangeHeader` computes. */
  function ParseRange(value: string): Result<seq<RangeSpec>, RangeParseError> {
    match Find(value, "=")
    case None => Err(InvalidSyntax)
    case Some(k) =>
      if !EqIgnoreCase(Trim(value[..k]), "bytes") then Err(InvalidUnit)
      else match ParseParts(Split(value[k + 1..], ","))
        case Err(e) => Err(e)
        case Ok(specs) => if specs == [] then Err(NoRanges) else Ok(specs)
  }

  function Prefixed(specs: seq<RangeSpec>, r: Result<seq<RangeSpec>, RangeParseError>): Result<seq<RangeSpec>, RangeParseError> {
    match r
    case Err(e) => Err(e)
    case Ok(rest) => Ok(specs + rest)
  }

  lemma PartStep(specs: seq<RangeSpec>, parts: seq<string>)
    requires parts != []
    ensures Trim(parts[0]) == "" ==> ParseParts(parts) == ParseParts(parts[1..])
    ensures Trim(parts[0]) != "" && ParsePart(Trim(parts[0])).Err? ==>
              Prefixed(specs, ParseParts(parts)) == Err(ParsePart(Trim(parts[0])).error)
    ensures Trim(parts[0]) != "" && ParsePart(Trim(parts[0])).Ok? ==>
              Prefixed(specs, ParseParts(parts)) == Prefixed(specs + [ParsePart(Trim(parts[0])).value], ParseParts(parts[1..]))
  {
    hide ParsePart, Trim;
    var later := ParseParts(parts[1..]);
    if Trim(parts[0]) != "" && ParsePart(Trim(parts[0])).Ok? && later.Ok? {
      var spec := ParsePart(Trim(parts[0])).value;
      assert specs + ([spec] + later.value) == specs + [spec] + later.value;
    }
  }

  /** Parse a Range header value into byte range specifications. */
  method ParseRangeHeader(value: string) returns (r: Result<seq<RangeSpec>, RangeParseError>)
    ensures r == ParseRange(value)
  {
    hide Trim, Split, ParsePart;
    var k := Find(value, "=");
    if k.None? { return Err(InvalidSyntax); }
    if !EqIgnoreCase(Trim(value[..k.value]), "bytes") { return Err(InvalidUnit); }
    var specs: seq<RangeSpec> := [];
    var parts := Split(value[k.value + 1..], ",");
    ghost var all := ParseParts(parts);
    assert parts[0..] == parts;
    assert all.Ok? ==> [] + all.value == all.value;
    var i := 0;
    while i < |parts|
      invariant 0 <= i <= |parts|
      invariant all == Prefixed(specs, ParseParts(parts[i..]))
    {
      PartStep(specs, parts[i..]);
      assert parts[i..][1..] == parts[i + 1..];
      var part := Trim(parts[i]);
      i := i + 1;
      if part == "" {
        continue;
      }
      var spec := ParsePart(part);
      if spec.Err? { return Err(spec.error); }
      specs := specs + [spec.value];
    }
    assert specs + [] == specs;
    if specs == [] { return Err(NoRanges); }
    return Ok(specs);
  }

  /** What parsing lets through: 64-bit numbers, and no range that ends before it starts. */
  predicate ValidSpec(spec: RangeSpec) {
    match spec
    case FromTo(start, end) => start <= end < U64_LIMIT
    case From(start) => start < U64_LIMIT
    case Suffix(length) => length < U64_LIMIT
  }

  lemma {:induction false} PartsValid(parts: seq<string>)
    ensures ParseParts(parts).Ok? ==> forall i :: 0 <= i < |ParseParts(parts).value| ==> ValidSpec(ParseParts(parts).value[i])
  {
    hide Trim;
    if parts != [] {
      PartsValid(parts[1..]);
    }
  }

  /** Accepted sets are non-empty and valid throughout. */
  lemma ParsedSpecsValid(value: string)
    ensures ParseRange(value).Ok? ==>
              ParseRange(value).value != [] && forall i :: 0 <= i < |ParseRange(value).value| ==> ValidSpec(ParseRange(value).value[i])
  {
    hide Trim, Split;
    if k :| Find(value, "=") == Some(k) {
      PartsValid(Split(value[k + 1..], ","));
    }
  }

  // ---------------------------------------------------------------- printing and parsing

  function PrintSpec(spec: RangeSpec): string {
    match spec
    case FromTo(start, end) => ToDecimal(start) + "-" + ToDecimal(end)
    case From(start) => ToDecimal(start) + "-"
    case Suffix(length) => "-" + ToDecimal(length)
  }

  function PrintSpecs(specs: seq<RangeSpec>): (parts: seq<string>)
    ensures |parts| == |specs|
    ensures forall i :: 0 <= i < |specs| ==> parts[i] == PrintSpec(specs[i])
  {
    seq(|specs|, i requires 0 <= i < |specs| => PrintSpec(specs[i]))
  }

  function PrintRange(specs: seq<RangeSpec>): string {
    "bytes=" + Join(PrintSpecs(specs), ",")
  }

  lemma Number(n: nat)
    ensures var s := ToDecimal(n);
            && s != "" && '-' !in s && ',' !in s && Trim(s) == s && Graphic(s[0]) && Graphic(s[|s| - 1])
            && (n < U64_LIMIT ==> ParseU64(s) == Some(n))
  {
    var s := ToDecimal(n);
    DigitsAreGraphic(n, 10);
    assert s[0] in s && s[|s| - 1] in s;
    assert IsDigit(s[0]) && IsDigit(s[|s| - 1]);
    if n < U64_LIMIT {
      ParsePrinted(n, 10, U64_LIMIT);
    }
  }

  /** Both sides of the first dash. */
  lemma Dashed(a: string, b: string)
    requires '-' !in a && a != ""
    ensures var s := a + "-" + b;
            s != "" && s[0] == a[0] && s[0] != '-' && Find(s, "-") == Some(|a|) && s[..|a|] == a && s[|a| + 1..] == b
  {
    hide Find;
    Assoc(a, "-", b);
    FindAfter(a, "-", b);
    CutBetween(a, "-" + b);
    CutBetween(a + "-", b);
    assert a[0] in a;
  }

  lemma PartRoundTrip(spec: RangeSpec)
    requires ValidSpec(spec)
    ensures var s := PrintSpec(spec);
            && s != "" && ',' !in s && Trim(s) == s && ParsePart(s) == Ok(spec)
  {
    hide Trim, ToDecimal, ParseU64, Find;
    var s := PrintSpec(spec);
    match spec {
      case FromTo(start, end) =>
        var (a, b) := (ToDecimal(start), ToDecimal(end));
        Number(start);
        Number(end);
        Dashed(a, b);
        assert s[|s| - 1] == b[|b| - 1];
        TrimOfGraphic(s);
      case From(start) =>
        var a := ToDecimal(start);
        Number(start);
        Dashed(a, "");
        assert a + "-" + "" == s;
        TrimOfGraphic(s);
      case Suffix(length) =>
        var a := ToDecimal(length);
        Number(length);
        assert s[1..] == a && s[|s| - 1] == a[|a| - 1];
        TrimOfGraphic(s);
    }
  }

  lemma {:induction false} PartsRoundTrip(specs: seq<RangeSpec>, parts: seq<string>)
    requires forall i :: 0 <= i < |specs| ==> ValidSpec(specs[i])
    requires |parts| == |specs| && forall i :: 0 <= i < |specs| ==> parts[i] == PrintSpec(specs[i])
    ensures ParseParts(parts) == Ok(specs)
  {
    hide PrintSpec, ParsePart, Trim;
    if specs != [] {
      PartRoundTrip(specs[0]);
      PartsRoundTrip(specs[1..], parts[1..]);
      assert specs == [specs[0]] + specs[1..];
    }
  }

  lemma UnitAndList(list: string)
    ensures var value := "bytes=" + list;
            && Find(value, "=") == Some(5)
            && EqIgnoreCase(Trim(value[..5]), "bytes") && value[6..] == list
  {
    assert "bytes" + "=" == "bytes=";
    FindAfter("bytes", "=", list);
    CutBetween("bytes=", list);
    assert ("bytes=" + list)[..5] == "bytes";
    TrimOfGraphic("bytes");
  }

  /** A printed set of ranges parses back to itself, in order. */
  lemma RangeRoundTrip(specs: seq<RangeSpec>)
    requires specs != [] && forall i :: 0 <= i < |specs| ==> ValidSpec(specs[i])
    ensures ParseRange(PrintRange(specs)) == Ok(specs)
  {
    hide PrintSpec, ParsePart, Trim, Join, Split, ParseParts;
    var parts := PrintSpecs(specs);
    var list := Join(parts, ",");
    UnitAndList(list);
    forall p | p in parts ensures ',' !in p {
      var i :| 0 <= i < |parts| && parts[i] == p;
      PartRoundTrip(specs[i]);
    }
    SplitJoin(parts, ",");
    PartsRoundTrip(specs, parts);
  }

  // ---------------------------------------------------------------- applying

  function Lesser(a: nat, b: nat): nat {
    if a < b then a else b
  }

  function Greater(a: nat, b: nat): nat {
    if a > b then a else b
  }

  /** One spec applied to an entity of the given, positive length. */
  function Apply(spec: RangeSpec, total: nat): Option<SatisfiableRange>
    requires total > 0
  {
    match spec
    case FromTo(start, end) =>
      if start >= total then None else Some(SatisfiableRange(start, Greater(start, Lesser(end, total - 1))))
    case From(start) =>
      if start >= total then None else Some(SatisfiableRange(start, total - 1))
    case Suffix(length) =>
      var n := Lesser(length, total);
      if n == 0 then None else Some(SatisfiableRange(total - n, total - 1))
  }

  function ApplyAll(specs: seq<RangeSpec>, total: nat): seq<SatisfiableRange>
    requires total > 0
  {
    if specs == [] then []
    else
      var r := Apply(specs[0], total);
      (if r.Some? then [r.value] else []) + ApplyAll(specs[1..], total)
  }

  /** The satisfiable ranges, in the order of the specs. */
  function ComputeSatisfiableRanges(specs: seq<RangeSpec>, total: nat): seq<SatisfiableRange> {
    if total == 0 then [] else ApplyAll(specs, total)
  }

  function Length(r: SatisfiableRange): int {
    r.end - r.start + 1
  }

  /** Section 14.1.2 of RFC 9110: the bytes of the entity that a spec asks for. */
  predicate Wants(spec: RangeSpec, total: nat, i: int) {
    && 0 <= i < total
    && match spec
       case FromTo(start, end) => start <= i <= end
       case From(start) => start <= i
       case Suffix(length) => total - length <= i
  }

  predicate WantsNothing(spec: RangeSpec, total: nat) {
    match spec
    case FromTo(start, _) => start >= total
    case From(start) => start >= total
    case Suffix(length) => length == 0 || total == 0
  }

  lemma NothingMeaning(spec: RangeSpec, total: nat)
    requires ValidSpec(spec)
    ensures WantsNothing(spec, total) <==> forall i :: !Wants(spec, total, i)
  {
    if !WantsNothing(spec, total) {
      var wanted := if spec.Suffix? then total - 1 else spec.start;
      assert Wants(spec, total, wanted);
    }
  }

  /** The bytes of a range that the entity has. */
  predicate Covers(r: SatisfiableRange, i: int) {
    r.start <= i <= r.end
  }

  /** A spec yields a range iff it wants some byte, and then the range is exactly those bytes: within
      bounds, non-empty, no longer than the entity, and not stretched by the outer maximum. */
  lemma ApplyExact(spec: RangeSpec, total: nat)
    requires ValidSpec(spec) && 0 < total < U64_LIMIT
    ensures Apply(spec, total).None? <==> WantsNothing(spec, total)
    ensures Apply(spec, total).Some? ==>
      var r := Apply(spec, total).value;
      && r.start <= r.end < total
      && (forall i :: Covers(r, i) <==> Wants(spec, total, i))
      && 0 < Length(r) <= total && Length(r) < U64_LIMIT
      && (spec.FromTo? ==> r.end == Lesser(spec.end, total - 1))
  {
  }

  /** The specs that want some byte, in order. */
  function Useful(specs: seq<RangeSpec>, total: nat): seq<RangeSpec> {
    if specs == [] then []
    else (if WantsNothing(specs[0], total) then [] else [specs[0]]) + Useful(specs[1..], total)
  }

  /** The computed ranges correspond one to one and in order to the specs that want some byte, each being
      exactly the bytes wanted; for an empty entity there are none of either. */
  lemma {:induction false} RangesExact(specs: seq<RangeSpec>, total: nat)
    requires total < U64_LIMIT && forall k :: 0 <= k < |specs| ==> ValidSpec(specs[k])
    ensures var (ranges, useful) := (ComputeSatisfiableRanges(specs, total), Useful(specs, total));
      && |ranges| == |useful| && (total == 0 ==> ranges == [])
      && forall k :: 0 <= k < |ranges| ==>
           && ranges[k].start <= ranges[k].end < total && 0 < Length(ranges[k]) <= total
           && forall i :: Covers(ranges[k], i) <==> Wants(useful[k], total, i)
    decreases |specs|
  {
    hide Wants, Covers;
    if specs != [] {
      assert forall k :: 0 <= k < |specs[1..]| ==> specs[1..][k] == specs[k + 1];
      RangesExact(specs[1..], total);
      if total > 0 {
        ApplyExact(specs[0], total);
        var r := Apply(specs[0], total);
        var (later, rest) := (ApplyAll(specs[1..], total), Useful(specs[1..], total));
        if r.Some? {
          assert ComputeSatisfiableRanges(specs, total) == [r.value] + later;
          assert Useful(specs, total) == [specs[0]] + rest;
        }
      }
    }
  }
}
