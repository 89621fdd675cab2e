/** What the small character classes and codes stand for, in terms of the alphabets and code points of the RFCs. */
module CharacterLaws {
  import opened Wrappers
  import opened Text

  // ---------------------------------------------------------------- ASCII

  const DELIMITERS := "\"(),/:;<=>?@[\\]{}"

  /** Token characters are the visible ones that are no delimiter (section 5.6.2 of RFC 9110). */
  lemma TcharMeaning(c: char)
    ensures IsTchar(c) <==> Graphic(c) && c !in DELIMITERS
  {
  }

  /** Lower-casing maps one alphabet to the other, letter by letter, and touches nothing else. */
  lemma LowerMeaning(c: char, k: nat)
    ensures k < 26 ==> LowerChar((0x41 + k) as char) == (0x61 + k) as char
    ensures c as int < 0x41 || c as int >= 0x41 + 26 ==> LowerChar(c) == c
    ensures IsAlpha(c) <==> 0x41 <= c as int < 0x41 + 26 || 0x61 <= c as int < 0x61 + 26
  {
  }

  /** A hexadecimal digit has the value of its place, in either case. */
  lemma HexMeaning(c: char, k: nat)
    ensures k < 10 ==> DigitValue((0x30 + k) as char) == Some(k)
    ensures k < 6 ==> DigitValue((0x41 + k) as char) == DigitValue((0x61 + k) as char) == Some(10 + k)
    ensures DigitValue(c).Some? <==> 0x30 <= c as int < 0x3A || 0x41 <= c as int < 0x47 || 0x61 <= c as int < 0x67
  {
  }

  // ---------------------------------------------------------------- UTF-8

  /** Unicode scalar values. */
  predicate Scalar(cp: nat) {
    cp < 0xD800 || 0xE000 <= cp < 0x110000
  }

  type Code = cp: nat | Scalar(cp) witness 0

  function Byte(n: nat): char
    requires n < 0x100
  {
    n as char
  }

  /** Section 3 of RFC 3629: six bits in each byte behind the first. */
  function Encode(cp: Code): (s: string)
    ensures s != ""
  {
    var (a, b, c) := (cp / 64, cp / 64 / 64, cp / 64 / 64 / 64);
    if cp < 0x80 then [Byte(cp)]
    else if cp < 0x800 then [Byte(0xC0 + a), Byte(0x80 + cp % 64)]
    else if cp < 0x10000 then [Byte(0xE0 + b), Byte(0x80 + a % 64), Byte(0x80 + cp % 64)]
    else
      assert c <= 4 by { assert Scalar(cp); SixBits(cp); }
      [Byte(0xF0 + c), Byte(0x80 + b % 64), Byte(0x80 + a % 64), Byte(0x80 + cp % 64)]
  }

  /** A number by its last six bits, and again, and again. */
  lemma SixBits(cp: nat)
    requires cp < 0x110000
    ensures var (a, b, c) := (cp / 64, cp / 64 / 64, cp / 64 / 64 / 64);
      && cp == a * 64 + cp % 64 && a == b * 64 + a % 64 && b == c * 64 + b % 64
      && a < 0x4400 && b < 0x110 && c <= 4
      && (cp < 0x10000 ==> a < 0x400 && b < 0x10)
      && (cp >= 0x10000 ==> b >= 0x10) && (cp >= 0x800 ==> a >= 0x20)
      && (cp < 0xD800 ==> a < 0x360) && (cp >= 0xE000 ==> b >= 14)
  {
    var a := cp / 64;
    DivideStep(cp, 64);
    DivideStep(a, 64);
    DivideStep(a / 64, 64);
    assert a < 0x4400;
    assert a / 64 < 0x110;
  }

  /** The bytes of a code. */
  lemma CodeBytes(cp: Code)
    ensures var s := Encode(cp);
      && |s| == (if cp < 0x80 then 1 else if cp < 0x800 then 2 else if cp < 0x10000 then 3 else 4)
      && (|s| == 1 ==> s[0] as int == cp)
      && (|s| == 2 ==> 0xC2 <= s[0] as int <= 0xDF && cp == (s[0] as int - 0xC0) * 64 + (s[1] as int - 0x80))
      && (|s| == 3 ==> 0xE0 <= s[0] as int <= 0xEF
                       && cp == ((s[0] as int - 0xE0) * 64 + (s[1] as int - 0x80)) * 64 + (s[2] as int - 0x80))
      && (|s| == 4 ==> 0xF0 <= s[0] as int <= 0xF4)
      && forall i :: 1 <= i < |s| ==> Tail(s[i])
  {
    assert Scalar(cp);
    SixBits(cp);
  }

  lemma CodeEdges(cp: Code)
    ensures var s := Encode(cp);
      && (|s| == 3 && s[0] as int == 0xE0 ==> s[1] as int >= 0xA0)
      && (|s| == 3 && s[0] as int == 0xED ==> s[1] as int <= 0x9F)
      && (|s| == 4 && s[0] as int == 0xF0 ==> s[1] as int >= 0x90)
      && (|s| == 4 && s[0] as int == 0xF4 ==> s[1] as int <= 0x8F)
  {
    assert Scalar(cp);
    SixBits(cp);
  }

  function EncodeAll(cps: seq<Code>): string {
    if cps == [] then "" else Encode(cps[0]) + EncodeAll(cps[1..])
  }

  /** A code starts with itself. */
  lemma EncodeRead(cp: Code, rest: string)
    ensures Utf8Prefix(Encode(cp) + rest) == |Encode(cp)|
  {
    hide Encode;
    CodeBytes(cp);
    CodeEdges(cp);
    var s := Encode(cp) + rest;
    assert forall i :: 0 <= i < |Encode(cp)| ==> s[i] == Encode(cp)[i];
  }

  /** Whatever well-formed sequence a text starts with is a code. */
  lemma PrefixIsCode(s: string) returns (cp: Code)
    requires Utf8Prefix(s) > 0
    ensures s[..Utf8Prefix(s)] == Encode(cp)
  {
    var k := Utf8Prefix(s);
    var a := s[0] as int;
    if k == 1 {
      cp := a;
      assert s[..1] == [s[0]];
    } else if k == 2 {
      cp := (a - 0xC0) * 64 + (s[1] as int - 0x80);
      assert s[..2] == [s[0], s[1]];
    } else if k == 3 {
      var x, y := s[1] as int - 0x80, s[2] as int - 0x80;
      cp := ThreeBytes(a - 0xE0, x, y);
      assert s[..3] == [s[0], s[1], s[2]];
    } else {
      var x, y, z := s[1] as int - 0x80, s[2] as int - 0x80, s[3] as int - 0x80;
      cp := FourBytes(a - 0xF0, x, y, z);
      assert s[..4] == [s[0], s[1], s[2], s[3]];
    }
  }

  lemma ThreeBytes(a: nat, x: nat, y: nat) returns (cp: Code)
    requires a < 16 && x < 64 && y < 64 && (a == 0 ==> x >= 32) && (a == 13 ==> x < 32)
    ensures 0x800 <= cp < 0x10000 && cp / 64 / 64 == a && cp / 64 % 64 == x && cp % 64 == y
  {
    cp := (a * 64 + x) * 64 + y;
    assert cp / 64 == a * 64 + x;
  }

  lemma FourBytes(a: nat, x: nat, y: nat, z: nat) returns (cp: Code)
    requires a < 5 && x < 64 && y < 64 && z < 64 && (a == 0 ==> x >= 16) && (a == 4 ==> x < 16)
    ensures 0x10000 <= cp && cp / 64 / 64 / 64 == a && cp / 64 / 64 % 64 == x && cp / 64 % 64 == y && cp % 64 == z
  {
    cp := ((a * 64 + x) * 64 + y) * 64 + z;
    assert cp / 64 == (a * 64 + x) * 64 + y;
    assert cp / 64 / 64 == a * 64 + x;
  }

  lemma {:induction false} EncodedIsUtf8(cps: seq<Code>)
    ensures Utf8(EncodeAll(cps))
  {
    if cps != [] {
      EncodeRead(cps[0], EncodeAll(cps[1..]));
      CutBetween(Encode(cps[0]), EncodeAll(cps[1..]));
      EncodedIsUtf8(cps[1..]);
    }
  }

  lemma {:induction false} Decoded(s: string) returns (cps: seq<Code>)
    requires Utf8(s)
    ensures EncodeAll(cps) == s
    decreases |s|
  {
    if s == "" {
      cps := [];
    } else {
      var k := Utf8Prefix(s);
      var cp := PrefixIsCode(s);
      var rest := Decoded(s[k..]);
      cps := [cp] + rest;
      assert cps[1..] == rest && s == s[..k] + s[k..];
    }
  }

  /** A text is UTF-8 iff it is the codes of some scalar values. */
  lemma Utf8Meaning(s: string)
    ensures Utf8(s) <==> exists cps: seq<Code> :: s == EncodeAll(cps)
  {
    if Utf8(s) {
      var cps := Decoded(s);
    } else if cps: seq<Code> :| s == EncodeAll(cps) {
      EncodedIsUtf8(cps);
    }
  }

  // ---------------------------------------------------------------- white space

  /** The code points with the property White_Space. */
  predicate White(cp: nat) {
    || 9 <= cp <= 13 || cp == 0x20 || cp == 0x85 || cp == 0xA0 || cp == 0x1680 || 0x2000 <= cp <= 0x200A
    || cp == 0x2028 || cp == 0x2029 || cp == 0x202F || cp == 0x205F || cp == 0x3000
  }

  lemma WhiteInFront(cp: Code, rest: string)
    ensures WhitePrefix(Encode(cp) + rest) == if White(cp) then |Encode(cp)| else 0
  {
    hide Encode;
    CodeBytes(cp);
    var s := Encode(cp) + rest;
    assert forall i :: 0 <= i < |Encode(cp)| ==> s[i] == Encode(cp)[i];
  }

  lemma WhiteBehind(before: string, cp: Code)
    ensures WhiteSuffix(before + Encode(cp)) == if White(cp) then |Encode(cp)| else 0
  {
    hide Encode;
    CodeBytes(cp);
    var s, k := before + Encode(cp), |before|;
    assert forall i :: 0 <= i < |Encode(cp)| ==> s[k + i] == Encode(cp)[i];
  }

  function DropFront(cps: seq<Code>): seq<Code> {
    if cps != [] && White(cps[0]) then DropFront(cps[1..]) else cps
  }

  function DropBack(cps: seq<Code>): seq<Code> {
    if cps != [] && White(cps[|cps| - 1]) then DropBack(cps[..|cps| - 1]) else cps
  }

  lemma {:induction false} EncodeSnoc(cps: seq<Code>, cp: Code)
    ensures EncodeAll(cps + [cp]) == EncodeAll(cps) + Encode(cp)
  {
    if cps == [] {
      assert [] + [cp] == [cp] && [cp][1..] == [];
      assert Encode(cp) + "" == Encode(cp) && "" + Encode(cp) == Encode(cp);
    } else {
      assert (cps + [cp])[1..] == cps[1..] + [cp];
      EncodeSnoc(cps[1..], cp);
      Assoc(Encode(cps[0]), EncodeAll(cps[1..]), Encode(cp));
    }
  }

  lemma {:induction false} FrontTrimmed(cps: seq<Code>)
    ensures TrimStart(EncodeAll(cps)) == EncodeAll(DropFront(cps))
  {
    if cps != [] {
      var (c, rest) := (Encode(cps[0]), EncodeAll(cps[1..]));
      WhiteInFront(cps[0], rest);
      CutBetween(c, rest);
      FrontTrimmed(cps[1..]);
    }
  }

  lemma {:induction false} BackTrimmed(cps: seq<Code>)
    ensures TrimEnd(EncodeAll(cps)) == EncodeAll(DropBack(cps))
  {
    if cps != [] {
      var (front, cp) := (cps[..|cps| - 1], cps[|cps| - 1]);
      assert cps == front + [cp];
      EncodeSnoc(front, cp);
      WhiteBehind(EncodeAll(front), cp);
      CutBetween(EncodeAll(front), Encode(cp));
      BackTrimmed(front);
    }
  }

  /** Trimming takes the white space code points off both ends of a text, and nothing else. */
  lemma TrimMeaning(cps: seq<Code>)
    ensures Trim(EncodeAll(cps)) == EncodeAll(DropBack(DropFront(cps)))
  {
    FrontTrimmed(cps);
    BackTrimmed(DropFront(cps));
  }
}
