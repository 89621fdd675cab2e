/** Conditional requests: the decision and the edit it makes to a response. */
module Preconditions {
  import opened Wrappers
  import opened Text
  import opened HeaderFields
  import opened RequestHead
  import opened Encode

  datatype Request = Request(verb: Method, target: Target, version: Version, headers: FieldList, payload: string)

  /** HTTP dates as points on an ordered time line; none for text that is not a date. */
  type DateParser = string -> Option<int>

  function DateOf(h: FieldList, name: string, parse: DateParser): Option<int> {
    match First(h, name)
    case None => None
    case Some(v) => parse(Trim(v))
  }

  /** Removes every leading `W/`. */
  function StripWeak(tag: string): string {
    if |tag| >= 2 && tag[..2] == "W/" then StripWeak(tag[2..]) else tag
  }

  predicate WeakEqual(a: string, b: string) {
    a == b || StripWeak(a) == StripWeak(b)
  }

  predicate TagMatches(candidate: string, entity: string, strong: bool) {
    if strong then candidate == entity else WeakEqual(candidate, entity)
  }

  /** `*` matches any present tag; otherwise some non-empty member of the list matches the trimmed tag. */
  predicate EtagListMatches(value: string, tag: Option<string>, strong: bool) {
    var list := Trim(value);
    if list == "*" then tag.Some?
    else if tag.None? || Trim(tag.value) == "" then false
    else
      var parts := Split(list, ",");
      exists i :: 0 <= i < |parts| && Trim(parts[i]) != "" && TagMatches(Trim(parts[i]), Trim(tag.value), strong)
  }

  // ---------------------------------------------------------------- the decision

  predicate IfMatchFails(req: Request, resp: FieldList) {
    var v := First(req.headers, IF_MATCH);
    v.Some? && !EtagListMatches(Trim(v.value), First(resp, ETAG), true)
  }

  predicate ModifiedSince(req: Request, resp: FieldList, parse: DateParser) {
    var (since, modified) := (DateOf(req.headers, IF_UNMODIFIED_SINCE, parse), DateOf(resp, LAST_MODIFIED, parse));
    since.Some? && modified.Some? && modified.value > since.value
  }

  predicate NoneMatchHits(req: Request, resp: FieldList) {
    var v := First(req.headers, IF_NONE_MATCH);
    v.Some? && EtagListMatches(Trim(v.value), First(resp, ETAG), false)
  }

  predicate NotModifiedSince(req: Request, resp: FieldList, parse: DateParser) {
    var (since, modified) := (DateOf(req.headers, IF_MODIFIED_SINCE, parse), DateOf(resp, LAST_MODIFIED, parse));
    since.Some? && modified.Some? && modified.value <= since.value
  }

  predicate IsRead(m: Method) {
    m.GET? || m.HEAD?
  }

  /** The status the code decides on. */
  function Decide(req: Request, resp: FieldList, parse: DateParser): (status: Option<nat>)
    ensures status.Some? ==> status.value == 304 || status.value == 412
  {
    if IfMatchFails(req, resp) then Some(412)
    else if ModifiedSince(req, resp, parse) then Some(412)
    else if First(req.headers, IF_NONE_MATCH).Some? then
      if NoneMatchHits(req, resp) then Some(if IsRead(req.verb) then 304 else 412) else None
    else if IsRead(req.verb) && NotModifiedSince(req, resp, parse) then Some(304)
    else None
  }

  function StripFraming(h: FieldList, status: nat): FieldList {
    var h' := Drop(Drop(h, CONTENT_LENGTH), TRANSFER_ENCODING);
    if status == 304 then Drop(h', CONTENT_TYPE) else h'
  }

  /** The response after preconditions. */
  function Conditioned(req: Request, r: ResponseValue, parse: DateParser): ResponseValue {
    match Decide(req, r.headers, parse)
    case None => r
    case Some(status) =>
      r.(status := status, body := Empty, trailers := None, headers := StripFraming(r.headers, status))
  }

  /** The tests in the order the code makes them. */
  method EvaluatePreconditions(req: Request, h: FieldList, parse: DateParser) returns (decision: Option<nat>)
    ensures decision == Decide(req, h, parse)
  {
    hide IfMatchFails, ModifiedSince, NoneMatchHits, NotModifiedSince;
    decision := None;
    if IfMatchFails(req, h) {
      decision := Some(412);
    }
    if decision.None? && ModifiedSince(req, h, parse) {
      decision := Some(412);
    }
    if decision.None? {
      if First(req.headers, IF_NONE_MATCH).Some? {
        if NoneMatchHits(req, h) {
          decision := Some(if IsRead(req.verb) then 304 else 412);
        }
      } else if IsRead(req.verb) && NotModifiedSince(req, h, parse) {
        decision := Some(304);
      }
    }
  }

  /** Edits the response in place. */
  method ApplyRequestPreconditions(req: Request, response: Response, parse: DateParser)
    requires response.Valid()
    modifies response, response.headers
    ensures response.Valid() && response.Value() == Conditioned(req, old(response.Value()), parse)
    ensures response.trailers == old(response.trailers) || response.trailers == null
  {
    hide Decide;
    FramingKeysAreLower();
    var decision := EvaluatePreconditions(req, response.headers.Iter(), parse);
    if decision.Some? {
      response.status := decision.value;
      response.body := Empty;
      response.trailers := null;
      var _ := response.headers.Remove(CONTENT_LENGTH);
      var _ := response.headers.Remove(TRANSFER_ENCODING);
      if decision.value == 304 {
        var _ := response.headers.Remove(CONTENT_TYPE);
      }
    }
  }
}
