/** Entity tags and lists of them, as section 8.8.3 of RFC 9110 has them and as the code reads them. */
module EtagLaws {
  import opened Wrappers
  import opened Text
  import opened Preconditions

  // ---------------------------------------------------------------- entity tags

  /** The `etagc` rule of section 8.8.3 of RFC 9110: anything visible but a double quote, commas included. */
  predicate Etagc(c: char) {
    c == '!' || 0x23 <= c as int <= 0x7E || c as int >= 0x80
  }

  predicate QuotedTag(s: string) {
    |s| >= 2 && s[0] == '"' && s[|s| - 1] == '"' && forall i :: 0 < i < |s| - 1 ==> Etagc(s[i])
  }

  /** An entity tag: a quoted one, behind `W/` if it is weak. */
  predicate EntityTag(s: string) {
    QuotedTag(s) || (|s| >= 2 && s[..2] == "W/" && QuotedTag(s[2..]))
  }

  /** A tag without its mark of weakness. */
  function Opaque(tag: string): string {
    if |tag| >= 2 && tag[..2] == "W/" then tag[2..] else tag
  }

  /** Strong comparison by section 8.8.3.2: the same tag, and not a weak one. */
  predicate RfcStrongMatch(candidate: string, entity: string) {
    candidate == entity && QuotedTag(entity)
  }

  /** Weak comparison by section 8.8.3.2: the same opaque tag. */
  predicate RfcWeakMatch(candidate: string, entity: string) {
    Opaque(candidate) == Opaque(entity)
  }

  /** The comparisons of the code: for the strong one, that the tags are the same is enough. */
  predicate Compared(candidate: string, entity: string, strong: bool) {
    if strong then candidate == entity else RfcWeakMatch(candidate, entity)
  }

  /** At most one double quote, so less than an entity tag has. */
  predicate OneQuote(s: string) {
    forall i, j :: 0 <= i < j < |s| ==> !(s[i] == '"' && s[j] == '"')
  }

  lemma {:induction false} OneQuoteTrimmed(s: string)
    requires OneQuote(s)
    ensures OneQuote(TrimStart(s)) && OneQuote(TrimEnd(s))
    decreases |s|
  {
    hide WhitePrefix, WhiteSuffix;
    var k, n := WhitePrefix(s), |s| - WhiteSuffix(s);
    if k > 0 {
      assert forall i :: 0 <= i < |s[k..]| ==> s[k..][i] == s[i + k];
      OneQuoteTrimmed(s[k..]);
    }
    if n < |s| {
      assert forall i :: 0 <= i < n ==> s[..n][i] == s[i];
      OneQuoteTrimmed(s[..n]);
    }
  }

  lemma {:induction false} OneQuoteStripped(s: string)
    requires OneQuote(s)
    ensures OneQuote(StripWeak(s))
  {
    if |s| >= 2 && s[..2] == "W/" {
      assert forall i :: 0 <= i < |s[2..]| ==> s[2..][i] == s[i + 2];
      OneQuoteStripped(s[2..]);
    }
  }

  /** An entity tag starts and ends visibly, has two quotes, and every comma of it stands between them. */
  lemma TagShape(t: string) returns (q: nat)
    requires EntityTag(t)
    ensures Trim(t) == t && Graphic(t[0]) && Graphic(t[|t| - 1])
    ensures q < |t| - 1 && t[q] == '"' && t[|t| - 1] == '"' && StripWeak(t) == t[q..]
    ensures forall i :: 0 <= i < |t| && t[i] == '"' ==> i == q || i == |t| - 1
    ensures forall i :: 0 <= i < |t| && t[i] == ',' ==> q < i < |t| - 1
  {
    q := if QuotedTag(t) then 0 else 2;
    var u := t[q..];
    assert forall i :: q <= i < |t| ==> t[i] == u[i - q];
    assert q == 2 ==> t[0] == t[..2][0] == 'W' && t[1] == t[..2][1] == '/';
    assert |u| >= 2 ==> u[..2] != "W/" by { assert u[0] == '"'; assert |u| >= 2 ==> u[..2][0] == '"'; }
    assert Graphic('"') && Graphic('W');
    TrimOfGraphic(t);
  }

  /** Between entity tags the code compares as said. */
  lemma ComparedMeaning(t: string, entity: string, strong: bool)
    requires EntityTag(t) && EntityTag(entity)
    ensures TagMatches(t, entity, strong) <==> Compared(t, entity, strong)
  {
    hide StripWeak;
    MarkOff(t);
    MarkOff(entity);
  }

  lemma MarkOff(t: string)
    requires EntityTag(t)
    ensures StripWeak(t) == Opaque(t) && t != "" && Opaque(t) != ""
  {
    if !QuotedTag(t) {
      var u := t[2..];
      assert u[0] == '"' && (|u| >= 2 ==> u[..2][0] == '"');
    } else {
      assert t[..2][0] == '"';
    }
  }

  /** What lacks a quote is no match for an entity tag, under either comparison. */
  lemma OneQuoteMatchesNothing(s: string, entity: string, strong: bool)
    requires EntityTag(entity) && OneQuote(s)
    ensures !TagMatches(s, entity, strong)
  {
    var q := TagShape(entity);
    OneQuoteStripped(s);
    var u := StripWeak(entity);
    assert u[0] == '"' && u[|u| - 1] == '"';
  }

  /** Tags that match have their commas in common. */
  lemma MatchKeepsCommas(t: string, entity: string, strong: bool)
    requires EntityTag(t) && EntityTag(entity) && TagMatches(t, entity, strong)
    ensures ',' in t <==> ',' in entity
  {
    hide EntityTag;
    var q := TagShape(t);
    var r := TagShape(entity);
    assert t != entity ==> t[q..] == entity[r..];
    forall i | 0 <= i < |t| && t[i] == ',' ensures t[i] == t[q..][i - q] { }
    forall i | 0 <= i < |entity| && entity[i] == ',' ensures entity[i] == entity[r..][i - r] { }
    assert forall c :: c in t[q..] ==> c in t;
    assert forall c :: c in entity[r..] ==> c in entity;
  }

  /** A member of a list: a tag with any blanks around it, or, as recipients must bear, nothing but blanks
      (section 5.6.1 of RFC 9110). */
  predicate Member(m: string) {
    TrimOws(m) == "" || EntityTag(TrimOws(m))
  }

  /** An empty member is skipped. */
  lemma BlankMember(m: string)
    requires TrimOws(m) == ""
    ensures ',' !in m && Trim(m) == "" && (m == "" || (IsOws(m[0]) && IsOws(m[|m| - 1])))
  {
    BlankTrims(m);
    assert m != "" ==> m[0] in m && m[|m| - 1] in m;
  }

  lemma EmptyMatchesNothing(entity: string, strong: bool)
    requires EntityTag(entity)
    ensures !Compared("", entity, strong)
  {
    MarkOff(entity);
  }

  /** A piece of a member that was split at a comma inside its tag. */
  lemma PieceOfTag(m: string, p: string)
    requires EntityTag(TrimOws(m)) && ',' in m && ',' !in p && SliceOf(p, m)
    ensures OneQuote(p)
  {
    hide TrimOws, EntityTag;
    var i, j := TrimOwsSlice(m);
    var t := TrimOws(m);
    var q := TagShape(t);
    var a, b :| 0 <= a <= b <= |m| && p == m[a..b];
    var c :| 0 <= c < |m| && m[c] == ',';
    assert forall k :: i <= k < j ==> m[k] == t[k - i];
    assert i + q < c < j - 1;
    assert !(a <= c < b) by { assert forall k :: a <= k < b ==> m[k] in p; }
    assert forall k :: 0 <= k < |m| && m[k] == '"' ==> i <= k < j && t[k - i] == '"';
    assert forall x :: 0 <= x < |p| ==> p[x] == m[a + x];
  }

  predicate PieceMatches(p: string, entity: string, strong: bool) {
    Trim(p) != "" && TagMatches(Trim(p), entity, strong)
  }

  /** Split up, a member matches iff its tag does and the entity has no comma. */
  lemma MemberMatches(m: string, entity: string, strong: bool)
    requires Member(m) && EntityTag(entity)
    ensures (exists p :: p in Split(m, ",") && PieceMatches(p, entity, strong)) <==>
              Compared(TrimOws(m), entity, strong) && ',' !in entity
  {
    hide TrimOws, EntityTag, Compared, Split;
    if TrimOws(m) == "" {
      BlankMember(m);
      EmptyMatchesNothing(entity, strong);
      SplitWhole(m, ",");
    } else {
      TagMatchesAlone(m, entity, strong);
    }
  }

  lemma TagMatchesAlone(m: string, entity: string, strong: bool)
    requires EntityTag(TrimOws(m)) && EntityTag(entity)
    ensures (exists p :: p in Split(m, ",") && PieceMatches(p, entity, strong)) <==>
              Compared(TrimOws(m), entity, strong) && ',' !in entity
  {
    hide TrimOws, EntityTag, TagMatches, Compared, Split;
    var i, j := TrimOwsSlice(m);
    var t := TrimOws(m);
    var q := TagShape(t);
    ComparedMeaning(t, entity, strong);
    assert forall k :: i <= k < j ==> m[k] == t[k - i];
    if TagMatches(t, entity, strong) {
      MatchKeepsCommas(t, entity, strong);
    }
    if ',' in m {
      var c :| 0 <= c < |m| && m[c] == ',';
      assert t[c - i] == ',';
      SplitSlices(m, ',');
      forall p | p in Split(m, ",") ensures !PieceMatches(p, entity, strong) {
        PieceOfTag(m, p);
        OneQuoteTrimmed(p);
        OneQuoteTrimmed(TrimStart(p));
        OneQuoteMatchesNothing(Trim(p), entity, strong);
      }
    } else {
      SplitWhole(m, ",");
      TrimIsTrimOws(m);
      assert ',' !in t by { assert forall c :: c in t ==> c in m; }
      assert m in [m];
    }
  }

  /** Some member of the list has a tag that matches. */
  predicate ListNames(members: seq<string>, entity: string, strong: bool) {
    exists i :: 0 <= i < |members| && Compared(TrimOws(members[i]), entity, strong)
  }

  lemma {:induction false} PiecesMatch(members: seq<string>, entity: string, strong: bool)
    requires EntityTag(entity) && forall i :: 0 <= i < |members| ==> Member(members[i])
    ensures (exists p :: p in AllPieces(members, ",") && PieceMatches(p, entity, strong)) <==>
              ListNames(members, entity, strong) && ',' !in entity
  {
    hide Split, PieceMatches, Compared, EntityTag, Member, TrimOws;
    if members != [] {
      var first, rest := members[0], members[1..];
      assert Member(first);
      assert forall i :: 0 <= i < |rest| ==> rest[i] == members[i + 1];
      MemberMatches(first, entity, strong);
      PiecesMatch(rest, entity, strong);
      assert forall p :: p in AllPieces(members, ",") <==> p in Split(first, ",") || p in AllPieces(rest, ",");
      if ListNames(members, entity, strong) && !Compared(TrimOws(first), entity, strong) {
        var i :| 0 <= i < |members| && Compared(TrimOws(members[i]), entity, strong);
        assert rest[i - 1] == members[i];
      }
    }
  }

  /** A byte at the end of a list that is no blank is visible. */
  predicate EndFine(c: char) {
    IsOws(c) || Graphic(c)
  }

  lemma MemberEnds(m: string)
    requires Member(m)
    ensures m != "*" && (m != "" ==> EndFine(m[0]) && EndFine(m[|m| - 1]))
  {
    hide TrimOws, EntityTag;
    if TrimOws(m) == "" {
      BlankMember(m);
    } else {
      var i, j := TrimOwsSlice(m);
      var q := TagShape(TrimOws(m));
      assert |m| >= 2;
      assert i == 0 ==> m[0] == TrimOws(m)[0];
      assert j == |m| ==> m[|m| - 1] == TrimOws(m)[j - i - 1];
    }
  }

  lemma {:induction false} JoinEnds(members: seq<string>)
    requires forall i :: 0 <= i < |members| ==> Member(members[i])
    ensures var s := Join(members, ",");
            && (s != "" ==> EndFine(s[0]) && EndFine(s[|s| - 1]))
            && (|members| > 1 ==> ',' in s)
  {
    hide Member;
    if members != [] {
      assert Member(members[0]);
      MemberEnds(members[0]);
      assert forall i :: 0 <= i < |members[1..]| ==> members[1..][i] == members[i + 1];
      JoinEnds(members[1..]);
      if |members| > 1 {
        var s, rest := Join(members, ","), Join(members[1..], ",");
        assert s == members[0] + "," + rest && s[|members[0]|] == ',';
        assert rest != "" ==> s[|s| - 1] == rest[|rest| - 1];
        assert Graphic(',');
      }
    }
  }

  lemma ListEnds(members: seq<string>)
    requires members != [] && (forall i :: 0 <= i < |members| ==> Member(members[i])) && OwsTrimmed(Join(members, ","))
    ensures Trim(Join(members, ",")) == Join(members, ",") && Join(members, ",") != "*"
  {
    hide Member;
    var s := Join(members, ",");
    JoinEnds(members);
    assert Member(members[0]);
    MemberEnds(members[0]);
    if s != "" {
      TrimOfGraphic(s);
    }
  }

  /** A list of entity tags, with blanks and empty members as the sender likes, matches iff one of its tags does
      and the entity's own tag has no comma, under either comparison. */
  lemma EtagListMeaning(members: seq<string>, entity: string, strong: bool)
    requires members != [] && (forall i :: 0 <= i < |members| ==> Member(members[i])) && OwsTrimmed(Join(members, ","))
    requires EntityTag(entity)
    ensures EtagListMatches(Join(members, ","), Some(entity), strong) <==>
              ListNames(members, entity, strong) && ',' !in entity
  {
    hide Join, Split, Member, EntityTag, Compared, Trim, ListNames;
    ListEnds(members);
    SplitJoinPieces(members, ',');
    PiecesMatch(members, entity, strong);
    var q := TagShape(entity);
    var parts := Split(Join(members, ","), ",");
    assert EtagListMatches(Join(members, ","), Some(entity), strong) <==>
             exists k :: 0 <= k < |parts| && PieceMatches(parts[k], entity, strong);
  }

  /** So a list is read as it was written, whatever the entity, iff none of its tags has a comma. */
  lemma ListReadAsWritten(members: seq<string>, strong: bool)
    requires members != [] && (forall i :: 0 <= i < |members| ==> Member(members[i])) && OwsTrimmed(Join(members, ","))
    ensures (forall entity :: EntityTag(entity) ==>
               (EtagListMatches(Join(members, ","), Some(entity), strong) <==> ListNames(members, entity, strong)))
            <==> forall i :: 0 <= i < |members| ==> ',' !in TrimOws(members[i])
  {
    hide Join, EntityTag, Compared, EtagListMatches, TrimOws, Member, OwsTrimmed;
    if i :| 0 <= i < |members| && ',' in TrimOws(members[i]) {
      var tag := TrimOws(members[i]);
      assert Member(members[i]);
      CommaIsInTag(members[i]);
      EtagListMeaning(members, tag, strong);
      MatchesItself(tag, strong);
    } else {
      forall entity | EntityTag(entity)
        ensures EtagListMatches(Join(members, ","), Some(entity), strong) <==> ListNames(members, entity, strong)
      {
        EtagListMeaning(members, entity, strong);
        if i :| 0 <= i < |members| && Compared(TrimOws(members[i]), entity, strong) {
          assert Member(members[i]);
          MatchingMember(members[i], entity, strong);
        }
      }
    }
  }

  lemma CommaIsInTag(m: string)
    requires Member(m) && ',' in TrimOws(m)
    ensures EntityTag(TrimOws(m))
  {
    hide TrimOws, EntityTag;
  }

  lemma MatchingMember(m: string, entity: string, strong: bool)
    requires Member(m) && EntityTag(entity) && Compared(TrimOws(m), entity, strong)
    ensures ',' in TrimOws(m) <==> ',' in entity
  {
    hide TrimOws, EntityTag, Compared, TagMatches;
    if TrimOws(m) == "" {
      EmptyMatchesNothing(entity, strong);
    } else {
      ComparedMeaning(TrimOws(m), entity, strong);
      MatchKeepsCommas(TrimOws(m), entity, strong);
    }
  }

  lemma MatchesItself(tag: string, strong: bool)
    ensures Compared(tag, tag, strong)
  {
  }

  /** The tag `"a,b"` is not found in the list that consists of just it. */
  lemma CommaInTag(strong: bool)
    ensures var tag := "\"a,b\""; EntityTag(tag) && Compared(tag, tag, strong) && !EtagListMatches(tag, Some(tag), strong)
  {
    hide Compared, EtagListMatches;
    var tag := "\"a,b\"";
    assert |tag| == 5 && tag[2] == ',' && QuotedTag(tag);
    TrimOwsOfTrimmed(tag);
    assert Member([tag][0]) && Join([tag], ",") == tag;
    EtagListMeaning([tag], tag, strong);
    MatchesItself(tag, strong);
  }

  predicate RfcIfMatch(members: seq<string>, entity: string) {
    exists i :: 0 <= i < |members| && RfcStrongMatch(TrimOws(members[i]), entity)
  }

  /** An If-Match list is evaluated as the RFC has it iff the entity's tag is not in it, or the tag has no comma
      and is not weak, or it has a comma and is weak: the code finds weak tags, and does not find those with
      a comma. */
  lemma IfMatchExact(members: seq<string>, entity: string)
    requires members != [] && (forall i :: 0 <= i < |members| ==> Member(members[i])) && OwsTrimmed(Join(members, ","))
    requires EntityTag(entity)
    ensures (EtagListMatches(Join(members, ","), Some(entity), true) <==> RfcIfMatch(members, entity)) <==>
              (forall i :: 0 <= i < |members| ==> TrimOws(members[i]) != entity) || (',' in entity <==> !QuotedTag(entity))
  {
    hide Join, EtagListMatches, TrimOws, QuotedTag, Member;
    EtagListMeaning(members, entity, true);
    if i :| 0 <= i < |members| && TrimOws(members[i]) == entity {
      assert Compared(TrimOws(members[i]), entity, true);
      assert QuotedTag(entity) ==> RfcStrongMatch(TrimOws(members[i]), entity);
    }
  }

  /** A weak tag passes the strong comparison with itself. */
  lemma WeakTagFound()
    ensures var tag := "W/\"a\""; EntityTag(tag) && !RfcIfMatch([tag], tag) && EtagListMatches(tag, Some(tag), true)
  {
    hide EtagListMatches;
    var tag := "W/\"a\"";
    assert |tag| == 5 && tag[..2] == "W/" && tag[2..] == "\"a\"" && tag[0] == 'W';
    TrimOwsOfTrimmed(tag);
    assert Member([tag][0]) && Join([tag], ",") == tag && [tag][0] == tag;
    IfMatchExact([tag], tag);
  }

  // ---------------------------------------------------------------- lists by the grammar

  /** The first comma outside double quotes. */
  function NextComma(s: string, quoted: bool): (r: Option<nat>)
    ensures r.Some? ==> r.value < |s| && s[r.value] == ','
  {
    if s == "" then None
    else if s[0] == ',' && !quoted then Some(0)
    else match NextComma(s[1..], if s[0] == '"' then !quoted else quoted)
      case None => None
      case Some(k) => Some(k + 1)
  }

  /** The members of a list of entity tags: what stands between the commas that are not inside a tag. */
  function TagList(s: string): (members: seq<string>)
    ensures members != []
    decreases |s|
  {
    match NextComma(s, false)
    case None => [s]
    case Some(k) => [s[..k]] + TagList(s[k + 1..])
  }

  lemma {:induction false} TagListJoins(s: string)
    ensures Join(TagList(s), ",") == s
    decreases |s|
  {
    match NextComma(s, false) {
      case None =>
      case Some(k) =>
        TagListJoins(s[k + 1..]);
        ThreePieces(s, k, k + 1);
        assert s[k..k + 1] == ",";
        assert ([s[..k]] + TagList(s[k + 1..]))[1..] == TagList(s[k + 1..]);
    }
  }

  lemma {:induction false} SkipPlain(a: string, b: string, quoted: bool)
    requires '"' !in a && (quoted || ',' !in a)
    ensures NextComma(a + b, quoted) == match NextComma(b, quoted) case None => None case Some(k) => Some(|a| + k)
  {
    if a == "" {
      assert a + b == b;
    } else {
      TailOfConcat(a, b);
      assert a[0] in a && forall c :: c in a[1..] ==> c in a;
      SkipPlain(a[1..], b, quoted);
    }
  }

  lemma QuoteTurns(b: string, quoted: bool)
    ensures NextComma("\"" + b, quoted) == match NextComma(b, !quoted) case None => None case Some(k) => Some(k + 1)
  {
    var s := "\"" + b;
    assert s[0] == '"' && s[1..] == b;
    NextStep(s, quoted);
  }

  lemma NextStep(s: string, quoted: bool)
    requires s != "" && s[0] == '"'
    ensures NextComma(s, quoted) == match NextComma(s[1..], !quoted) case None => None case Some(k) => Some(k + 1)
  {
  }

  /** A tag is its mark, if any, and its text between quotes. */
  lemma TagParts(t: string) returns (mark: string, text: string)
    requires EntityTag(t)
    ensures t == mark + "\"" + text + "\"" && '"' !in mark && ',' !in mark && '"' !in text
  {
    var u := if QuotedTag(t) then t else t[2..];
    mark, text := if QuotedTag(t) then "" else "W/", u[1..|u| - 1];
    assert u == "\"" + text + "\"";
    assert t == mark + u;
    Assoc(mark, "\"" + text, "\"");
    Assoc(mark, "\"", text);
    forall c | c in text ensures Etagc(c) { }
  }

  /** A member that is not empty is blanks, a tag, and blanks. */
  lemma MemberParts(m: string) returns (front: string, back: string)
    requires Member(m) && TrimOws(m) != ""
    ensures m == front + TrimOws(m) + back && EntityTag(TrimOws(m))
    ensures (forall c :: c in front ==> IsOws(c)) && (forall c :: c in back ==> IsOws(c))
  {
    hide TrimOws, EntityTag;
    var i, j := TrimOwsSlice(m);
    front, back := m[..i], m[j..];
    ThreePieces(m, i, j);
  }

  /** No comma of a member stands outside its quotes. */
  lemma MemberHasNone(m: string, rest: string)
    requires Member(m)
    ensures NextComma(m + rest, false) == match NextComma(rest, false) case None => None case Some(k) => Some(|m| + k)
  {
    hide TrimOws, EntityTag, NextComma, Member;
    if TrimOws(m) == "" {
      BlankTrims(m);
      SkipPlain(m, rest, false);
    } else {
      var front, back := MemberParts(m);
      var mark, text := TagParts(TrimOws(m));
      var a := front + mark;
      assert m + rest == a + ("\"" + (text + ("\"" + (back + rest))));
      SkipPlain(a, "\"" + (text + ("\"" + (back + rest))), false);
      QuoteTurns(text + ("\"" + (back + rest)), false);
      SkipPlain(text, "\"" + (back + rest), true);
      QuoteTurns(back + rest, true);
      SkipPlain(back, rest, false);
    }
  }

  /** A written list has the members it was written from. */
  lemma {:induction false} TagListOfJoin(members: seq<string>)
    requires members != [] && forall i :: 0 <= i < |members| ==> Member(members[i])
    ensures TagList(Join(members, ",")) == members
    decreases |members|
  {
    hide NextComma, Member;
    var m, tail := members[0], members[1..];
    assert Member(m);
    if tail == [] {
      MemberHasNone(m, "");
      assert m + "" == m && NextComma("", false) == None by { NothingNext(); }
    } else {
      assert forall i :: 0 <= i < |tail| ==> tail[i] == members[i + 1];
      TagListOfJoin(tail);
      var rest := Join(tail, ",");
      MemberHasNone(m, "," + rest);
      Assoc(m, ",", rest);
      CommaNext(rest);
      CutBetween(m, "," + rest);
      CutBetween(m + ",", rest);
    }
  }

  lemma NothingNext()
    ensures NextComma("", false) == None
  {
  }

  lemma CommaNext(rest: string)
    ensures NextComma("," + rest, false) == Some(0)
  {
  }
}
