/** The language of Range values: what is accepted, and where that is more than section 14.1 of RFC 9110 has. */
module RangeLaws {
  import opened Wrappers
  import opened Text
  import opened RequestHead
  import opened GrammarLaws
  import opened Range

  // ---------------------------------------------------------------- the grammar

  /** `first-pos "-" [ last-pos ]` or `"-" suffix-length`, each of them 1*DIGIT, and no range that ends before it
      starts. */
  function SpecOf(part: string): Option<RangeSpec> {
    match Find(part, "-")
    case None => None
    case Some(k) =>
      var (a, b) := (part[..k], part[k + 1..]);
      if (a != "" && !AllDigits(a)) || (b != "" && !AllDigits(b)) then None
      else match (DigitsValue(a, 10), DigitsValue(b, 10))
        case (Some(x), Some(y)) =>
          if a == "" && b == "" then None
          else if a == "" then Some(Suffix(y))
          else if b == "" then Some(From(x))
          else if x <= y then Some(FromTo(x, y)) else None
        case _ => None
  }

  /** A list with blanks around its members, in which empty ones are skipped. */
  function SpecsOf(parts: seq<string>): Option<seq<RangeSpec>> {
    if parts == [] then Some([])
    else if TrimOws(parts[0]) == "" then SpecsOf(parts[1..])
    else match (SpecOf(TrimOws(parts[0])), SpecsOf(parts[1..]))
      case (Some(spec), Some(rest)) => Some([spec] + rest)
      case _ => None
  }

  /** `"bytes" "=" range-set`. */
  function RangeOf(value: string): Option<seq<RangeSpec>> {
    match Find(value, "=")
    case None => None
    case Some(k) =>
      var specs := SpecsOf(Split(value[k + 1..], ","));
      if EqIgnoreCase(value[..k], "bytes") && specs != Some([]) then specs else None
  }

  predicate AllValid(specs: seq<RangeSpec>) {
    forall i :: 0 <= i < |specs| ==> ValidSpec(specs[i])
  }

  // ---------------------------------------------------------------- one spec

  /** A number as it is accepted: digits, possibly behind a plus sign, possibly with white space around, below 2^64. */
  predicate Numeral(s: string) {
    var t := Trim(s);
    (AllInBase(t, 10) || PlusInBase(t, 10)) && Below(NumberIn(t, 10), U64_LIMIT)
  }

  function NumeralValue(s: string): nat
    requires Numeral(s)
  {
    NumberIn(Trim(s), 10).value
  }

  lemma NumeralRead(s: string)
    ensures ParseU64(s) == if Numeral(s) then Some(NumeralValue(s)) else None
  {
    hide Trim, ParseUnsigned, DigitsValue;
    IntegerLanguage(Trim(s), 10, U64_LIMIT);
  }

  /** The specs that are accepted, by their numerals: the dash may even be missing. */
  predicate LoosePart(part: string) {
    match Find(part, "-")
    case None => Numeral(part)
    case Some(k) =>
      var (a, b) := (part[..k], part[k + 1..]);
      if a == "" then Numeral(b)
      else Numeral(a) && (b == "" || (Numeral(b) && NumeralValue(a) <= NumeralValue(b)))
  }

  /** There is a dash, with nothing but digits around it. */
  predicate PlainPart(part: string) {
    match Find(part, "-")
    case None => false
    case Some(k) =>
      (part[..k] == "" || AllDigits(part[..k])) && (part[k + 1..] == "" || AllDigits(part[k + 1..]))
  }

  lemma DashInFront(part: string)
    requires part != ""
    ensures part[0] == '-' <==> Find(part, "-") == Some(0)
  {
    assert part[0..1] == [part[0]];
    assert part[0] == '-' ==> At(part, "-", 0);
  }

  lemma PartAccepted(part: string)
    requires part != ""
    ensures ParsePart(part).Ok? <==> LoosePart(part)
    ensures ParsePart(part).Ok? ==> ParsePart(part).value == match Find(part, "-")
              case None => From(NumeralValue(part))
              case Some(k) =>
                var (a, b) := (part[..k], part[k + 1..]);
                if a == "" then Suffix(NumeralValue(b))
                else if b == "" then From(NumeralValue(a)) else FromTo(NumeralValue(a), NumeralValue(b))
  {
    hide ParseU64, Numeral, NumeralValue;
    DashInFront(part);
    NumeralRead(part);
    NumeralRead(part[1..]);
    if k :| Find(part, "-") == Some(k) {
      NumeralRead(part[..k]);
      NumeralRead(part[k + 1..]);
      assert k == 0 <==> part[..k] == "";
    }
  }

  /** The numerals are there, but the range ends before it starts. */
  predicate EndsEarly(part: string) {
    match Find(part, "-")
    case None => false
    case Some(k) =>
      var (a, b) := (part[..k], part[k + 1..]);
      a != "" && b != "" && Numeral(a) && Numeral(b) && NumeralValue(a) > NumeralValue(b)
  }

  lemma PartError(part: string)
    requires part != ""
    ensures ParsePart(part).Err? ==> ParsePart(part) == Err(if EndsEarly(part) then InvalidBounds else InvalidNumber)
  {
    hide ParseU64, Numeral, NumeralValue;
    DashInFront(part);
    NumeralRead(part);
    NumeralRead(part[1..]);
    if k :| Find(part, "-") == Some(k) {
      NumeralRead(part[..k]);
      NumeralRead(part[k + 1..]);
      assert k == 0 <==> part[..k] == "";
    }
  }

  /** The member is empty or a spec that is accepted. */
  predicate FineMember(p: string) {
    Trim(p) == "" || LoosePart(Trim(p))
  }

  lemma {:induction false} PartsError(parts: seq<string>)
    ensures (forall i :: 0 <= i < |parts| ==> FineMember(parts[i])) <==> ParseParts(parts).Ok?
    ensures ParseParts(parts) == Ok([]) <==> forall i :: 0 <= i < |parts| ==> Trim(parts[i]) == ""
    ensures forall k :: 0 <= k < |parts| && !FineMember(parts[k]) && (forall i :: 0 <= i < k ==> FineMember(parts[i])) ==>
              ParseParts(parts) == Err(if EndsEarly(Trim(parts[k])) then InvalidBounds else InvalidNumber)
  {
    hide Trim, ParsePart, LoosePart, EndsEarly;
    if parts != [] {
      var p, rest := Trim(parts[0]), parts[1..];
      assert forall i :: 0 <= i < |rest| ==> rest[i] == parts[i + 1];
      PartsError(rest);
      if p != "" {
        PartAccepted(p);
        PartError(p);
      }
    }
  }

  /** Without a `=`, or with another unit, a Range value is refused for that. */
  lemma UnitErrors(value: string)
    ensures Find(value, "=") == None ==> ParseRange(value) == Err(InvalidSyntax)
    ensures forall k: nat :: Find(value, "=") == Some(k) && !EqIgnoreCase(Trim(value[..k]), "bytes") ==>
              ParseRange(value) == Err(InvalidUnit)
  {
    hide Trim, Split, ParseParts, EqIgnoreCase, Find;
  }

  /** Else it is accepted iff all members are and some is not empty, and refused for the first one that is not. */
  lemma MemberErrors(value: string, k: nat, parts: seq<string>, j: nat)
    requires Find(value, "=") == Some(k) && EqIgnoreCase(Trim(value[..k]), "bytes") && parts == Split(value[k + 1..], ",")
    ensures (forall i :: 0 <= i < |parts| ==> Trim(parts[i]) == "") ==> ParseRange(value) == Err(NoRanges)
    ensures ParseRange(value).Ok? <==>
              (forall i :: 0 <= i < |parts| ==> FineMember(parts[i])) && exists i :: 0 <= i < |parts| && Trim(parts[i]) != ""
    ensures j < |parts| && !FineMember(parts[j]) && (forall i :: 0 <= i < j ==> FineMember(parts[i])) ==>
              ParseRange(value) == Err(if EndsEarly(Trim(parts[j])) then InvalidBounds else InvalidNumber)
  {
    hide Trim, Split, ParseParts, FineMember, EndsEarly, EqIgnoreCase, Find;
    PartsError(parts);
  }

  lemma PlainNumber(s: string)
    requires AllDigits(s)
    ensures Trim(s) == s && DigitsValue(s, 10).Some?
    ensures Numeral(s) <==> DigitsValue(s, 10).value < U64_LIMIT
    ensures Numeral(s) ==> NumeralValue(s) == DigitsValue(s, 10).value
  {
    hide DigitsValue;
    assert s[0] in s && s[|s| - 1] in s;
    TrimOfGraphic(s);
    DecimalDigits(s);
    DigitsMeaning(s, 10);
    assert !IsDigit('+');
  }

  /** Every spec of the grammar is read as it is, unless one of its numbers is 2^64 or more; and of what is
      accepted exactly the plain specs are of the grammar. */
  lemma PartLanguage(part: string)
    requires part != ""
    ensures SpecOf(part).Some? ==>
              PlainPart(part) && ParsePart(part).Ok? == ValidSpec(SpecOf(part).value)
    ensures ParsePart(part).Ok? ==> (SpecOf(part) == Some(ParsePart(part).value) <==> PlainPart(part))
  {
    hide Numeral, NumeralValue, ParsePart, DigitsValue, AllDigits;
    PartAccepted(part);
    if k :| Find(part, "-") == Some(k) {
      var (a, b) := (part[..k], part[k + 1..]);
      EmptyNumber();
      if AllDigits(a) { PlainNumber(a); NoDigits(a); }
      if AllDigits(b) { PlainNumber(b); NoDigits(b); }
    }
  }

  lemma EmptyNumber()
    ensures DigitsValue("", 10) == Some(0) && !Numeral("")
  {
  }

  lemma NoDigits(s: string)
    requires AllDigits(s)
    ensures s != ""
  {
  }

  // ---------------------------------------------------------------- the list and the unit

  predicate PlainMember(p: string) {
    TrimOws(p) == "" || PlainPart(TrimOws(p))
  }

  /** Around a plain spec there are only blanks to trim. */
  lemma MemberTrims(p: string)
    requires PlainMember(p)
    ensures Trim(p) == TrimOws(p)
  {
    hide Trim, TrimOws;
    var t := TrimOws(p);
    if t == "" {
      BlankTrims(p);
    } else {
      var k := Find(t, "-").value;
      ThreePieces(t, k, k + 1);
      assert k > 0 ==> t[0] in t[..k];
      assert k + 1 < |t| ==> t[|t| - 1] in t[k + 1..];
      assert t[k..k + 1] == "-" && t[k] == '-';
      TrimIsTrimOws(p);
    }
  }

  lemma {:induction false} PartsLanguage(parts: seq<string>)
    ensures SpecsOf(parts).Some? ==>
              if AllValid(SpecsOf(parts).value) then ParseParts(parts) == Ok(SpecsOf(parts).value) else ParseParts(parts).Err?
    ensures ParseParts(parts).Ok? ==>
              (SpecsOf(parts) == Some(ParseParts(parts).value) <==> forall i :: 0 <= i < |parts| ==> PlainMember(parts[i]))
    ensures SpecsOf(parts).Some? ==> forall i :: 0 <= i < |parts| ==> PlainMember(parts[i])
  {
    hide Trim, TrimOws, SpecOf, ParsePart, PlainPart, ValidSpec;
    if parts != [] {
      var p, rest := parts[0], parts[1..];
      assert forall i :: 0 <= i < |rest| ==> rest[i] == parts[i + 1];
      PartsLanguage(rest);
      if PlainMember(p) {
        MemberTrims(p);
      }
      if TrimOws(p) != "" {
        PartLanguage(TrimOws(p));
        if SpecOf(TrimOws(p)).Some? && SpecsOf(rest).Some? {
          var spec, more := SpecOf(TrimOws(p)).value, SpecsOf(rest).value;
          assert AllValid([spec] + more) <==> ValidSpec(spec) && AllValid(more) by { ValidCons(spec, more); }
        }
      }
    }
  }

  lemma ValidCons(spec: RangeSpec, more: seq<RangeSpec>)
    ensures AllValid([spec] + more) <==> ValidSpec(spec) && AllValid(more)
  {
    hide ValidSpec;
    var all := [spec] + more;
    assert all[0] == spec && forall i :: 0 <= i < |more| ==> all[i + 1] == more[i];
  }

  /** The unit is not padded, and every member is plain. */
  predicate PlainRange(value: string) {
    match Find(value, "=")
    case None => true
    case Some(k) =>
      var parts := Split(value[k + 1..], ",");
      EqIgnoreCase(value[..k], "bytes") && forall i :: 0 <= i < |parts| ==> PlainMember(parts[i])
  }

  lemma UnitTrims(unit: string)
    requires EqIgnoreCase(unit, "bytes")
    ensures Trim(unit) == unit
  {
    hide Trim;
    var l := Lower(unit);
    assert |"bytes"| == 5 && Lower("bytes")[0] == 'b' && Lower("bytes")[4] == 's';
    assert |unit| == 5 && LowerChar(unit[0]) == 'b' && LowerChar(unit[4]) == 's';
    TrimOfGraphic(unit);
  }

  /** Every Range value of the grammar is read as it is, or refused if some number is 2^64 or more; and of the values
      that are accepted exactly the plain ones are of the grammar: no padded unit, and in every member a dash
      with nothing but digits around it. */
  lemma RangeLanguage(value: string)
    ensures RangeOf(value).Some? ==>
              if AllValid(RangeOf(value).value) then ParseRange(value) == Ok(RangeOf(value).value) else ParseRange(value).Err?
    ensures ParseRange(value).Ok? ==> (RangeOf(value) == Some(ParseRange(value).value) <==> PlainRange(value))
  {
    hide Trim, Split, SpecsOf, ParseParts, PlainMember, EqIgnoreCase, ValidSpec;
    if k :| Find(value, "=") == Some(k) {
      PartsLanguage(Split(value[k + 1..], ","));
      if EqIgnoreCase(value[..k], "bytes") {
        UnitTrims(value[..k]);
      }
    }
  }

  /** Signs around the dash, or no dash at all, are accepted. */
  lemma LooseRangesAccepted()
    ensures ParsePart("+1-+2") == Ok(FromTo(1, 2)) && SpecOf("+1-+2") == None
    ensures ParsePart("5") == Ok(From(5)) && SpecOf("5") == None
  {
    hide Trim, ParseUnsigned, DigitsValue;
    SignedPart();
    BarePart();
  }

  lemma SignedPart()
    ensures ParsePart("+1-+2") == Ok(FromTo(1, 2)) && SpecOf("+1-+2") == None
  {
    hide Trim, ParseUnsigned, DigitsValue, ToDigits;
    var s := "+1-+2";
    assert s == "+1" + "-" + "+2";
    FindAfter("+1", "-", "+2");
    assert s[..2] == "+1" && s[3..] == "+2" && s[0] == '+';
    SmallNumbers();
    SignedNumber(1, 10);
    SignedNumber(2, 10);
    assert "+" + "1" == "+1" && "+" + "2" == "+2";
    assert s[..2][0] in s[..2] && !IsDigit('+');
  }

  lemma SmallNumbers()
    ensures ToDigits(1, 10) == "1" && ToDigits(2, 10) == "2" && ToDigits(5, 10) == "5"
  {
  }

  lemma BarePart()
    ensures ParsePart("5") == Ok(From(5)) && SpecOf("5") == None
  {
    hide Trim, ParseUnsigned, DigitsValue, ToDigits;
    FindNothing("5", "-");
    SmallNumbers();
    Number(5);
  }
}
