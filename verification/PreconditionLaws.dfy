/** Laws of conditional requests: they settle in one application, agree with the encoder, and follow the
    order of evaluation of section 13.2.2 of RFC 9110 on exactly the requests that do not mix two fields. */
module PreconditionLaws {
  import opened Wrappers
  import opened Text
  import opened HeaderFields
  import opened RequestHead
  import opened Encode
  import opened EncodeLaws
  import opened Preconditions
  import opened EtagLaws

  predicate Strippable(name: string) {
    name == CONTENT_LENGTH || name == TRANSFER_ENCODING || name == CONTENT_TYPE
  }

  lemma ValidatorsAreOther(name: string)
    requires Strippable(name)
    ensures name != ETAG && name != LAST_MODIFIED
  {
  }

  lemma DropMissing(h: FieldList, name: string)
    requires !Has(h, name)
    ensures Drop(h, name) == h
  {
    DropAbsent(h, name);
  }

  /** Stripping keeps the validators and removes what it strips. */
  lemma StripLaws(h: FieldList, status: nat)
    ensures Values(StripFraming(h, status), ETAG) == Values(h, ETAG)
    ensures Values(StripFraming(h, status), LAST_MODIFIED) == Values(h, LAST_MODIFIED)
    ensures !Has(StripFraming(h, status), CONTENT_LENGTH) && !Has(StripFraming(h, status), TRANSFER_ENCODING)
    ensures status == 304 ==> !Has(StripFraming(h, status), CONTENT_TYPE)
  {
    var a := Drop(h, CONTENT_LENGTH);
    var b := Drop(a, TRANSFER_ENCODING);
    StripOne(h, CONTENT_LENGTH);
    StripOne(a, TRANSFER_ENCODING);
    StripOne(b, CONTENT_TYPE);
  }

  /** What stripping leaves of each field: nothing of the framing fields, and under 304 of Content-Type, and
      everything of the others. */
  lemma StripExactly(h: FieldList, status: nat, name: string)
    ensures Values(StripFraming(h, status), name) ==
            if name == CONTENT_LENGTH || name == TRANSFER_ENCODING || (status == 304 && name == CONTENT_TYPE) then []
            else Values(h, name)
  {
    DropLaws(h, CONTENT_LENGTH, name);
    DropLaws(Drop(h, CONTENT_LENGTH), TRANSFER_ENCODING, name);
    DropLaws(Drop(Drop(h, CONTENT_LENGTH), TRANSFER_ENCODING), CONTENT_TYPE, name);
  }

  lemma StripOne(h: FieldList, name: string)
    requires Strippable(name)
    ensures Values(Drop(h, name), ETAG) == Values(h, ETAG) && Values(Drop(h, name), LAST_MODIFIED) == Values(h, LAST_MODIFIED)
    ensures !Has(Drop(h, name), name) && forall k :: !Has(h, k) ==> !Has(Drop(h, name), k)
  {
    ValidatorsAreOther(name);
    DropLaws(h, name, ETAG);
    DropLaws(h, name, LAST_MODIFIED);
    forall k ensures Has(Drop(h, name), k) == (k != name && Has(h, k)) { DropLaws(h, name, k); }
  }

  /** The decision only looks at the validators of the response. */
  lemma DecideSame(req: Request, a: FieldList, b: FieldList, parse: DateParser)
    requires Values(a, ETAG) == Values(b, ETAG) && Values(a, LAST_MODIFIED) == Values(b, LAST_MODIFIED)
    ensures Decide(req, a, parse) == Decide(req, b, parse)
  {
    hide EtagListMatches;
  }

  /** Applying preconditions again changes nothing. */
  lemma PreconditionsSettle(req: Request, r: ResponseValue, parse: DateParser)
    ensures var once := Conditioned(req, r, parse); Conditioned(req, once, parse) == once
  {
    hide Decide;
    var decision := Decide(req, r.headers, parse);
    if decision.Some? {
      var h := StripFraming(r.headers, decision.value);
      StripLaws(r.headers, decision.value);
      DecideSame(req, h, r.headers, parse);
      DropMissing(h, CONTENT_LENGTH);
      DropMissing(h, TRANSFER_ENCODING);
      if decision.value == 304 {
        DropMissing(h, CONTENT_TYPE);
      }
    }
  }

  /** A decided response always encodes, without body bytes; a 304 states no framing. */
  lemma DecidedEncodes(req: Request, r: ResponseData, parse: DateParser, reasons: Reasons, m: Method, d: Directive, date: string)
    requires Decide(req, r.headers, parse).Some?
    ensures var c := Conditioned(req, r, parse);
      && WellFormedResponse(c) && !Conflicting(c)
      && ResponseText(c, reasons, m, d, date) == Written(HeadText(c, reasons, m, d, date), None)
      && (c.status == 304 ==> !Has(FinalHeaders(c, m, d, date), CONTENT_LENGTH)
                              && !Has(FinalHeaders(c, m, d, date), TRANSFER_ENCODING))
      && (c.status == 412 ==> !Has(FinalHeaders(c, m, d, date), TRANSFER_ENCODING))
  {
    hide Decide, Framed, HeadOf;
    var c := Conditioned(req, r, parse);
    StripLaws(r.headers, c.status);
    StripWellFormed(r.headers, c.status);
    DirectedWellFormed(c.headers, d, date);
    FramingOutcome(Directed(PutIfAbsent(c.headers, DATE, date), d), c.status, m, c.body);
    NoEncodingAdded(c.headers, d, date, c.status, m);
    var head := HeadText(c, reasons, m, d, date);
    assert head + "" == head;
  }

  lemma StripWellFormed(h: FieldList, status: nat)
    requires WellFormed(h)
    ensures WellFormed(StripFraming(h, status))
  {
    DropWellFormed(h, CONTENT_LENGTH);
    DropWellFormed(Drop(h, CONTENT_LENGTH), TRANSFER_ENCODING);
    DropWellFormed(Drop(Drop(h, CONTENT_LENGTH), TRANSFER_ENCODING), CONTENT_TYPE);
  }

  lemma NoEncodingAdded(h: FieldList, d: Directive, date: string, status: nat, m: Method)
    requires WellFormed(h) && !Has(h, TRANSFER_ENCODING)
    ensures !Has(Framed(Directed(PutIfAbsent(h, DATE, date), d), status, m, Empty), TRANSFER_ENCODING)
  {
    KeysDiffer();
    var g := Directed(PutIfAbsent(h, DATE, date), d);
    DropLaws(g, TRANSFER_ENCODING, TRANSFER_ENCODING);
    PutLaws(Drop(g, TRANSFER_ENCODING), CONTENT_LENGTH, [ToDecimal(0)], TRANSFER_ENCODING);
    DropLaws(Drop(g, TRANSFER_ENCODING), CONTENT_LENGTH, TRANSFER_ENCODING);
  }

  // ---------------------------------------------------------------- the conditions by the RFC

  /** The point in time that the first value of a field stands for. */
  function TimeIn(h: FieldList, name: string, parse: DateParser): Option<int> {
    var values := Values(h, name);
    if values == [] then None else parse(Trim(values[0]))
  }

  function FirstIn(h: FieldList, name: string): Option<string> {
    var values := Values(h, name);
    if values == [] then None else Some(values[0])
  }

  /** `*`, or a list of which some member is the same tag (section 13.1 of RFC 9110). Whether there is a current
      representation, which is what `*` asks, is taken from the answer having a tag. */
  predicate Listed(value: string, tag: Option<string>, strong: bool) {
    if value == "*" then tag.Some?
    else
      var members := TagList(value);
      tag.Some? && exists i :: 0 <= i < |members| && TrimOws(members[i]) != ""
                               && if strong then RfcStrongMatch(TrimOws(members[i]), tag.value)
                                  else RfcWeakMatch(TrimOws(members[i]), tag.value)
  }

  /** Sections 13.1.1 to 13.1.4 of RFC 9110, each true if the field is absent. */
  predicate IfMatchHolds(req: Request, resp: FieldList) {
    var value := FirstIn(req.headers, IF_MATCH);
    value.Some? ==> Listed(value.value, FirstIn(resp, ETAG), true)
  }

  predicate IfNoneMatchHolds(req: Request, resp: FieldList) {
    var value := FirstIn(req.headers, IF_NONE_MATCH);
    value.Some? ==> !Listed(value.value, FirstIn(resp, ETAG), false)
  }

  /** True iff Last-Modified is at or before the date, both being valid. */
  predicate IfUnmodifiedSinceHolds(req: Request, resp: FieldList, parse: DateParser) {
    var (date, modified) := (TimeIn(req.headers, IF_UNMODIFIED_SINCE, parse), TimeIn(resp, LAST_MODIFIED, parse));
    date.Some? && modified.Some? ==> modified.value <= date.value
  }

  /** False iff Last-Modified is at or before the date, both being valid. */
  predicate IfModifiedSinceHolds(req: Request, resp: FieldList, parse: DateParser) {
    var (date, modified) := (TimeIn(req.headers, IF_MODIFIED_SINCE, parse), TimeIn(resp, LAST_MODIFIED, parse));
    !(date.Some? && modified.Some? && modified.value <= date.value)
  }

  predicate GetOrHead(req: Request) {
    req.verb == GET || req.verb == HEAD
  }

  // ---------------------------------------------------------------- the order of RFC 9110

  /** Section 13.2.2 of RFC 9110 for an origin server, step by step; each step either answers or hands over. */
  function RfcDecide(req: Request, resp: FieldList, parse: DateParser): Option<nat> {
    if FirstIn(req.headers, IF_MATCH).Some? then                                          // step 1
      if IfMatchHolds(req, resp) then RfcFromNoneMatch(req, resp, parse) else Some(412)
    else if !IfUnmodifiedSinceHolds(req, resp, parse) then Some(412)                      // step 2
    else RfcFromNoneMatch(req, resp, parse)
  }

  function RfcFromNoneMatch(req: Request, resp: FieldList, parse: DateParser): Option<nat> {
    if FirstIn(req.headers, IF_NONE_MATCH).Some? then                                     // step 3
      if IfNoneMatchHolds(req, resp) then None
      else if GetOrHead(req) then Some(304) else Some(412)
    else if GetOrHead(req) && !IfModifiedSinceHolds(req, resp, parse) then Some(304)      // step 4
    else None                                                                             // step 5
  }

  /** If-Match holds, but If-Unmodified-Since, which is then not to be looked at, does not. */
  predicate MixedFieldsClash(req: Request, resp: FieldList, parse: DateParser) {
    FirstIn(req.headers, IF_MATCH).Some? && IfMatchHolds(req, resp) && !IfUnmodifiedSinceHolds(req, resp, parse)
  }

  /** The code finds the tags that the RFC finds, in both fields. */
  predicate TagsReadAlike(req: Request, resp: FieldList) {
    && (IfMatchFails(req, resp) <==> !IfMatchHolds(req, resp))
    && (NoneMatchHits(req, resp) <==> !IfNoneMatchHolds(req, resp))
  }

  /** The verdicts of the code and of the RFC come to the same: both are 412, at once or by the later steps, or both
      hand over to steps that find the same tags. */
  predicate SameVerdict(req: Request, resp: FieldList, parse: DateParser) {
    var unmodified := IfUnmodifiedSinceHolds(req, resp, parse);
    var early := !IfMatchHolds(req, resp) || (FirstIn(req.headers, IF_MATCH).None? && !unmodified);
    if IfMatchFails(req, resp) || !unmodified then early || RfcFromNoneMatch(req, resp, parse) == Some(412)
    else if early then NoneMatchHits(req, resp) && !GetOrHead(req)
    else NoneMatchHits(req, resp) <==> !IfNoneMatchHolds(req, resp)
  }

  /** When the code decides as the RFC does. Where it reads the tags alike, it departs from the RFC order exactly when
      an If-Match that holds comes with an If-Unmodified-Since that does not and the later steps do not give 412
      anyway; it then answers 412. */
  lemma OrderOfEvaluation(req: Request, resp: FieldList, parse: DateParser)
    ensures Decide(req, resp, parse) == RfcDecide(req, resp, parse) <==> SameVerdict(req, resp, parse)
    ensures TagsReadAlike(req, resp) ==>
      && (Decide(req, resp, parse) == RfcDecide(req, resp, parse) <==>
            !MixedFieldsClash(req, resp, parse) || RfcFromNoneMatch(req, resp, parse) == Some(412))
      && (MixedFieldsClash(req, resp, parse) ==> Decide(req, resp, parse) == Some(412))
  {
    hide EtagListMatches, Listed, TagList;
  }

  // ---------------------------------------------------------------- the tags exactly

  /** The values are `*` or lists of entity tags, and the answer's own tag, if it has one, is an entity tag. */
  predicate ConditionFine(value: string) {
    value == "*" || (OwsTrimmed(value) && forall m :: m in TagList(value) ==> Member(m))
  }

  predicate TagsFine(req: Request, resp: FieldList) {
    && (FirstIn(req.headers, IF_MATCH).Some? ==> ConditionFine(FirstIn(req.headers, IF_MATCH).value))
    && (FirstIn(req.headers, IF_NONE_MATCH).Some? ==> ConditionFine(FirstIn(req.headers, IF_NONE_MATCH).value))
    && (FirstIn(resp, ETAG).Some? ==> EntityTag(FirstIn(resp, ETAG).value))
  }

  /** What the code finds: the tags as they are, without regard to weakness under If-Match, and none with a comma. */
  predicate Found(value: string, tag: Option<string>, strong: bool) {
    if value == "*" then tag.Some?
    else tag.Some? && ',' !in tag.value && ListNames(TagList(value), tag.value, strong)
  }

  lemma FoundMeaning(value: string, tag: Option<string>, strong: bool)
    requires ConditionFine(value) && (tag.Some? ==> EntityTag(tag.value))
    ensures EtagListMatches(Trim(value), tag, strong) <==> Found(value, tag, strong)
  {
    hide TagList, Member, EntityTag, TagMatches, Compared, ListNames, Join;
    if value == "*" {
      TrimOfGraphic("*");
    } else {
      var members := TagList(value);
      assert forall i :: 0 <= i < |members| ==> members[i] in members;
      TagListJoins(value);
      ListEnds(members);
      if tag.Some? {
        EtagListMeaning(members, tag.value, strong);
      }
    }
  }

  /** A tag of the list is the entity's under the RFC's comparison iff it is under the code's, except that a weak
      tag is not found by the strong one. */
  lemma ListedMeaning(value: string, tag: Option<string>, strong: bool)
    requires ConditionFine(value) && (tag.Some? ==> EntityTag(tag.value)) && value != "*"
    ensures Listed(value, tag, strong) <==>
              tag.Some? && (strong ==> QuotedTag(tag.value)) && ListNames(TagList(value), tag.value, strong)
  {
    hide TagList, Member, EntityTag, QuotedTag, TrimOws;
    var members := TagList(value);
    if tag.Some? {
      MarkOff(tag.value);
    }
    if tag.Some? && ListNames(members, tag.value, strong) {
      var i :| 0 <= i < |members| && Compared(TrimOws(members[i]), tag.value, strong);
      EmptyMatchesNothing(tag.value, strong);
      assert TrimOws(members[i]) != "";
    }
    if Listed(value, tag, strong) {
      var i :| 0 <= i < |members| && TrimOws(members[i]) != ""
               && if strong then RfcStrongMatch(TrimOws(members[i]), tag.value) else RfcWeakMatch(TrimOws(members[i]), tag.value);
      assert Compared(TrimOws(members[i]), tag.value, strong);
    }
  }

  /** The decision of the code, from the field values. */
  function CodeDecide(req: Request, resp: FieldList, parse: DateParser): Option<nat> {
    var (tag, match', none) := (FirstIn(resp, ETAG), FirstIn(req.headers, IF_MATCH), FirstIn(req.headers, IF_NONE_MATCH));
    if match'.Some? && !Found(match'.value, tag, true) then Some(412)
    else if !IfUnmodifiedSinceHolds(req, resp, parse) then Some(412)
    else if none.Some? then
      if !Found(none.value, tag, false) then None else if GetOrHead(req) then Some(304) else Some(412)
    else if GetOrHead(req) && !IfModifiedSinceHolds(req, resp, parse) then Some(304)
    else None
  }

  /** For all requests whose lists are of the grammar, and all answers whose tag is: what the code decides. */
  lemma DecideMeaning(req: Request, resp: FieldList, parse: DateParser)
    requires TagsFine(req, resp)
    ensures Decide(req, resp, parse) == CodeDecide(req, resp, parse)
  {
    hide EtagListMatches, Found, ConditionFine, EntityTag;
    var (tag, match', none) := (FirstIn(resp, ETAG), FirstIn(req.headers, IF_MATCH), FirstIn(req.headers, IF_NONE_MATCH));
    if match'.Some? { FoundMeaning(match'.value, tag, true); }
    if none.Some? { FoundMeaning(none.value, tag, false); }
  }

  /** For those the tags are read alike iff no tag with a comma is listed, and none that is weak in If-Match,
      where the one makes up for the other. */
  lemma TagsExactly(req: Request, resp: FieldList)
    requires TagsFine(req, resp)
    ensures var (tag, match', none) := (FirstIn(resp, ETAG), FirstIn(req.headers, IF_MATCH), FirstIn(req.headers, IF_NONE_MATCH));
      TagsReadAlike(req, resp) <==>
        && (match'.Some? && match'.value != "*" && tag.Some? && ListNames(TagList(match'.value), tag.value, true) ==>
              (',' in tag.value <==> !QuotedTag(tag.value)))
        && (none.Some? && none.value != "*" && tag.Some? && ListNames(TagList(none.value), tag.value, false) ==>
              ',' !in tag.value)
  {
    hide EtagListMatches, Listed, ConditionFine, EntityTag, QuotedTag, ListNames, TagList;
    var (tag, match', none) := (FirstIn(resp, ETAG), FirstIn(req.headers, IF_MATCH), FirstIn(req.headers, IF_NONE_MATCH));
    if match'.Some? {
      FoundMeaning(match'.value, tag, true);
      if match'.value != "*" { ListedMeaning(match'.value, tag, true); } else { StarListed(tag, true); }
    }
    if none.Some? {
      FoundMeaning(none.value, tag, false);
      if none.value != "*" { ListedMeaning(none.value, tag, false); } else { StarListed(tag, false); }
    }
  }

  lemma StarListed(tag: Option<string>, strong: bool)
    ensures Listed("*", tag, strong) == tag.Some?
  {
  }

  /** A request that is answered 412 although the RFC order lets it through, for any two dates. */
  lemma OrderCounterexample(parse: DateParser, older: string, newer: string)
    requires parse(Trim(older)).Some? && parse(Trim(newer)).Some? && parse(Trim(older)).value < parse(Trim(newer)).value
    ensures var fields := [Field(HOST, ["a"]), Field(IF_MATCH, ["*"]), Field(IF_UNMODIFIED_SINCE, [older])];
            var req := Request(GET, Origin("/"), Http11, fields, "");
            var resp := [Field(ETAG, ["\"e\""]), Field(LAST_MODIFIED, [newer])];
            Decide(req, resp, parse) == Some(412) && RfcDecide(req, resp, parse) == None
  {
    hide Trim;
    var last := [Field(IF_MATCH, ["*"]), Field(IF_UNMODIFIED_SINCE, [older])];
    var fields := [Field(HOST, ["a"]), Field(IF_MATCH, ["*"]), Field(IF_UNMODIFIED_SINCE, [older])];
    assert fields == [Field(HOST, ["a"])] + last;
    NamesDiffer();
    assert fields[1..] == last;
    assert forall key :: key != HOST ==> Values(fields, key) == Values(last, key);
    TrimOfGraphic("*");
    TwoFields(IF_MATCH, "*", IF_UNMODIFIED_SINCE, older, IF_MATCH);
    TwoFields(IF_MATCH, "*", IF_UNMODIFIED_SINCE, older, IF_UNMODIFIED_SINCE);
    TwoFields(IF_MATCH, "*", IF_UNMODIFIED_SINCE, older, IF_NONE_MATCH);
    TwoFields(IF_MATCH, "*", IF_UNMODIFIED_SINCE, older, IF_MODIFIED_SINCE);
    TwoFields(ETAG, "\"e\"", LAST_MODIFIED, newer, ETAG);
    TwoFields(ETAG, "\"e\"", LAST_MODIFIED, newer, LAST_MODIFIED);
  }

  lemma NamesDiffer()
    ensures |IF_MATCH| == 8 && |IF_UNMODIFIED_SINCE| == 19 && |IF_NONE_MATCH| == 13 && |IF_MODIFIED_SINCE| == 17
    ensures |ETAG| == 4 && |LAST_MODIFIED| == 13 && |HOST| == 4
  {
  }

  lemma TwoFields(name: string, value: string, name': string, value': string, key: string)
    ensures First([Field(name, [value]), Field(name', [value'])], key)
         == if key == name then Some(value) else if key == name' then Some(value') else None
  {
    var l := [Field(name, [value]), Field(name', [value'])];
    assert l[1..] == [Field(name', [value'])] && l[1..][1..] == [];
    assert Values(l[1..], key) == if key == name' then [value'] else [];
  }
}
