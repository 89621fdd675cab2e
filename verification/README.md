# goose-http in Dafny

A model of the request/response path of goose-http, an HTTP/1.1 origin server, with proofs about it. It
covers the header collection, request heads, message bodies, response serialization, conditional requests,
the connection loop, and byte ranges. `dafny verify dfyconfig.toml` checks the whole project.

## How it is laid out

| file | content |
|---|---|
| `Text.dfy`, `CharacterLaws.dfy` | byte strings: searching, splitting, trimming, numbers, UTF-8; and what the character classes stand for |
| `Headers.dfy` | the header collection: an ordered association list, and the class with its map and order vector |
| `Head.dfy`, `FieldText.dfy`, `HeadLaws.dfy`, `GrammarLaws.dfy` | request heads: the parser, printed field sections, what is accepted |
| `Transport.dfy`, `BodyReaders.dfy`, `BodyLaws.dfy` | the stream, the body readers, the pure body decoders and their laws |
| `Encode.dfy`, `EncodeLaws.dfy` | response serialization and the framing decision |
| `ChunkedGrammar.dfy` | the chunked coding by section 7.1 of RFC 9112, against the server's writer and reader |
| `Preconditions.dfy`, `EtagLaws.dfy`, `PreconditionLaws.dfy` | conditional requests, entity tags and lists of them |
| `Conn.dfy`, `ConnLaws.dfy`, `RequestLaws.dfy` | the connection loop, the interpreter it refines, properties of every run |
| `Client.dfy`, `ClientLaws.dfy`, `OutputLaws.dfy` | a client after section 6.3 of RFC 9112, and what it recovers |
| `ErrorLaws.dfy` | which error each malformed head or body leads to |
| `Range.dfy`, `RangeLaws.dfy` | byte ranges, and the language of Range values |
| `Examples.dfy` | concrete inputs: conditions that can be met, and departures from a standard |

A byte is a Dafny `char` and a byte string a `string`; a Rust `str` is the byte string of its UTF-8
encoding, so that `trim`, UTF-8 validity and lengths are those of the bytes. 64-bit limits are written out.

A `Stream` holds the bytes that will still arrive and what then ends the reading: the end of the input, a
failed read, or an expired timer. Both are arbitrary, so a fault may strike at any read, and a read returns any
non-empty piece up to its cap; every statement about a reader or a run therefore holds for every way the
input is cut into reads and interrupted. The handler is a function of all requests so far, which covers any
deterministic handler with state. Date texts, reason phrases and the HTTP date parser are parameters.

## What is proved

- A run of `Connection` makes the handler calls, writes the bytes and ends with the result of `Serve`, a
  pure interpreter of the whole input and of what ends it (`Run`).
- The client recovers from the output of a run, faults included, every interim 100 and every response in
  order, up to the first response that says `close` to it. If none does, nothing is left over but the final
  error reply, if there is one. Taken for the answer to one more request that reply is recovered in full too,
  except that its body is left over if that request is HEAD; a client with no request outstanding, as after an
  idle timeout, is left with all of it (`OutputDecodes`, `AllRecovered`, `IdleExactly`).
- Requests sent by a client are the requests the handler is called with, whatever the handler does: pipelined in
  any number, in any spelling of their heads that section 5 of RFC 9112 has and the server can accept, and
  with bodies in any chunked coding (`PipelineArrives`).
- Both rest on conditions that can be met: `CleanEnvExists`, `SimplestIsWellSent`, `PrintedSays`, `PrintedIsCoding`.
- The chunked writer keeps to the grammar of the RFC, the chunked reader accepts that grammar, and a body never
  takes a byte of what follows it.
- A head is accepted iff a condition on all its lines holds, and that condition fixes the framing; otherwise it
  is refused for the first check it fails.
- Every response is what the handler makes of the requests up to its own, after the preconditions that section
  13 of RFC 9110 has, evaluated in an order that departs from it in one stated case.

The laws do not lean on the code's own definitions: what a field, a length, a coding, a status without body, a date
comparison or a tag comparison is, they write out after the RFCs.

## Where the code and the standards differ

The model follows the code. For each difference below there is a lemma with the exact condition.

| difference | input | when the code meets the standard |
|---|---|---|
| a signed Content-Length is accepted | `PlusSignAccepted` | `ContentLengthLanguage` |
| a chunk size that is signed, or has white space where the grammar has none, is accepted | `PlusSignAccepted`, `BlankInFrontAccepted` | `ChunkSizeExact`, and for whole bodies `ReaderLanguage` |
| heads that are not UTF-8 are refused, though field values may hold any byte beyond ASCII | `LatinHeadRefused` | `EncodingDecides` |
| so are chunk lines and trailer lines | `LatinLinesRefused` | `ConformingIsRead` |
| a version number may be signed or have leading zeros | `SignedVersionAccepted` | `VersionLanguage` |
| numbers in a Range may be signed or padded, and its dash may be missing | `LooseRangesAccepted` | `RangeLanguage` |
| only the first Connection line of a request is read | `ServedPastClose` | `CloseOnWire` |
| only the first Connection value of an answer is read | `LaterAnswerUnread` | `CloseOnEveryValue`, `AllRecovered` |
| an interim 100 is sent to clients of HTTP/1.0 too | `OldVersionGetsInterim` | `InterimExactly` |
| an entity tag with a comma is never found in a list | `CommaInTag` | `EtagListMeaning`, `ListReadAsWritten` |
| a weak tag passes a strong comparison with itself | `WeakTagFound` | `IfMatchExact` |
| If-Unmodified-Since is evaluated behind an If-Match that holds | `OrderCounterexample` | `OrderOfEvaluation`, `TagsExactly` |
| framing fields of a handler's own are sent as they are | `WrongLengthMisread` | `FramedContent`, `MessageReadExactly` |
| the space behind a status code is left out when there is no reason | any response without one | `ReasonSpace` |
| error replies to HEAD are framed as for GET | `HeadErrorLeavesBytes` | `ErrorRead`, `OutputDecodes` |

## Model

| member | source | states |
|---|---|---|
| `HeaderFields.Headers.Insert` | src/headers/mod.rs:114-123 | the collection becomes the list with the name's values replaced, in its old position or at the end |
| `HeaderFields.Headers.Append` | src/headers/mod.rs:126-135 | the collection becomes the list with one more value under the name |
| `HeaderFields.Headers.Remove` | src/headers/mod.rs:158-166 | the collection becomes the list without the name, and the name's values are returned iff it was there |
| `HeaderFields.Headers.Clear` | src/headers/mod.rs:186-189 | nothing is left |
| `HeaderFields.Headers.Get` | src/headers/mod.rs:138-143 | a lookup gives the first value of the list model, up to case of the name |
| `HeaderFields.Headers.GetAll` | src/headers/mod.rs:146-149 | a lookup gives all values of the list model in order |
| `HeaderFields.Headers.Iter` | src/headers/mod.rs:179-183 | iteration by the order vector skips nothing: it is the list model |
| `HeaderFields.PutLaws` | src/headers/mod.rs:114-135 | storing under one name changes no other name's values and adds at most that name |
| `HeaderFields.PutAt` | src/headers/mod.rs:114-123 | storing under a present name touches only its position; an absent one goes last |
| `HeaderFields.DropLaws` | src/headers/mod.rs:158-166 | removing a name leaves every other name's values |
| `HeaderFields.StoreEntry` | src/headers/mod.rs:114-135 | map and order vector stay consistent and stand for the list after a store |
| `HeaderFields.DeleteEntry` | src/headers/mod.rs:158-166 | map and order vector stay consistent and stand for the list after a removal |
| `HeaderFields.EditsKeepWellFormed` | src/headers/mod.rs:98-189 | after any sequence of edits names are unique and lower-case and no name is without a value |
| `RequestHead.ParseRequestHead` | src/parse/mod.rs:37-135 | the method with its line loop computes the head as the fold over all lines |
| `RequestHead.ReadHeaderLines` | src/parse/mod.rs:53-117 | the loop with its mutable headers, host, length and codings is that fold |
| `RequestHead.ParseTransferEncoding` | src/parse/mod.rs:532-545 | the loop yields the codings, or fails on the first that is no token |
| `GrammarLaws.CodingsMeaning` | src/parse/mod.rs:532-545 | a Transfer-Encoding is accepted iff all members of its list are tokens, and is then these in lower case, in order |
| `GrammarLaws.CodingsOfList` | src/parse/mod.rs:532-545 | a written list of tokens is read as these tokens, in order |
| `RequestHead.BodyModeMeaning` | src/parse/mod.rs:547-577 | chunked iff `chunked` is last and only last and there is no length, fixed n iff no codings and length n, none iff neither |
| `HeadLaws.HeaderLines` | src/parse/mod.rs:48-66 | the lines before the first empty one, printed back with the request line, are the whole head: none is lost to the early break |
| `HeadLaws.LinesOfHead` | src/parse/mod.rs:48-66 | in a complete head the first empty line after the request line is the one that ends it |
| `HeadLaws.ParseHeadMeaning` | src/parse/mod.rs:37-135 | parsing succeeds iff the acceptance condition over all lines holds; the result has every field in order and the framing those lines call for |
| `HeadLaws.EncodingDecides` | src/parse/mod.rs:43-45 | a head that is otherwise in order is accepted iff it is UTF-8, and refused with InvalidHeaderEncoding if it is not |
| `HeadLaws.HeadValues` | src/parse/mod.rs:116-134 | the headers of an accepted head hold under each name exactly the values of its lines, in order |
| `HeadLaws.StableUnderSuffix` | src/parse/mod.rs:37-50 | bytes after a complete head change neither verdict nor result |
| `HeadLaws.LimitVerdict` | src/parse/mod.rs:24-41 | a prefix is refused for size only if the whole stream's head is, and a head within the limit never is |
| `HeadLaws.PrintedHeadParses` | src/parse/mod.rs:37-135 | a printed head parses back to the same line, ordered headers, framing and length, whatever follows |
| `HeadLaws.StartTextRoundTrip` | src/parse/mod.rs:453-488 | a printed request line parses back to its method, target and version |
| `HeadLaws.RequestLineLanguage` | src/parse/mod.rs:453-488 | a request line is accepted, as what it says, iff it is a method, a target that the method allows and a version, one space apart |
| `GrammarLaws.MethodLanguage` | src/common/mod.rs:60-103 | every token names the method with that text |
| `GrammarLaws.TargetForms` | src/parse/mod.rs:490-516 | the form each target is read as: `*` for OPTIONS only, a path, `host:port` for CONNECT only, an absolute URI for the others |
| `GrammarLaws.HostLanguage` | src/parse/mod.rs:623-663 | a host is accepted iff it is a name or a bracketed address of the allowed characters, with or without a port of digits |
| `ErrorLaws.FirstBadLine` | src/parse/mod.rs:61-117 | a head is refused for what is wrong with its first bad line |
| `ErrorLaws.WholeHead` | src/parse/mod.rs:119-123 | a head of good lines is refused, if at all, for a missing host or its transfer codings |
| `ErrorLaws.BadStart` | src/parse/mod.rs:43-53 | a request line is refused for its length, its pieces, or what they say, in that order |
| `ErrorLaws.BodyErrorMeaning` | src/parse/mod.rs:239-383 | which error a body is in: bytes missing, an invalid size or line break, or a trailer that is none |
| `CharacterLaws.Utf8Meaning` | src/parse/mod.rs:43-45 | what passes for UTF-8 is exactly the codes of sequences of scalar values |
| `CharacterLaws.TrimMeaning` | src/conn/mod.rs:306-310 | trimming takes exactly the White_Space code points off both ends |
| `GrammarLaws.RequestLineSound` | src/parse/mod.rs:453-488 | an accepted request line holds exactly the method, the target and a version text, one space apart |
| `GrammarLaws.ParsedFieldClean` | src/parse/mod.rs:74-88 | an accepted field has a lower-case token name and a trimmed value free of control bytes |
| `GrammarLaws.IntegerLanguage` | src/parse/mod.rs:523-530 | an integer is accepted iff it is digits, or digits behind one plus sign, below the limit |
| `GrammarLaws.ContentLengthLanguage` | src/parse/mod.rs:523-530 | a Content-Length is accepted iff it is 1*DIGIT below 2^64 or such digits behind a plus sign, and is the number its digits say; the code meets the RFC on exactly the values that are not so signed |
| `GrammarLaws.ChunkSizeLanguage` | src/parse/mod.rs:665-668 | a size line is accepted iff its trimmed size text is hexadecimal digits, possibly behind one plus sign, below 2^64, and the size is that number |
| `GrammarLaws.ChunkSizeExact` | src/parse/mod.rs:665-668 | every size of the grammar is read or refused as 2^64 or more, and outside the grammar exactly the signed and the padded sizes are accepted |
| `GrammarLaws.PlusSignAccepted` | src/parse/mod.rs:523-530 | a plus sign in front is accepted in lengths and chunk sizes although the grammars have none |
| `GrammarLaws.BlankInFrontAccepted` | src/parse/mod.rs:665-668 | white space in front of a chunk size is accepted although the grammar has none |
| `GrammarLaws.VersionLanguage` | src/common/mod.rs:156-181 | a version text is taken for 1.1 or 1.0 iff it is two numerals for these numbers, signs and leading zeros included |
| `GrammarLaws.ExtensionIgnored` | src/parse/mod.rs:665-668 | a chunk extension, whatever it holds, leaves the chunk size as it is |
| `BodyReaders.FixedBodyReader.ReadNext` | src/parse/mod.rs:239-260 | each piece is the next bytes of buffer and stream, the end comes iff nothing remains, too few bytes give UnexpectedEof |
| `BodyReaders.ChunkedBodyReader.ReadNext` | src/parse/mod.rs:290-369 | one call takes a non-empty piece off the front of the decoded body, or reports its end or its error; the state invariant holds after; once done nothing is touched |
| `BodyReaders.ChunkedBodyReader.ReadData` | src/parse/mod.rs:303-333 | data comes from the buffer first, then from the stream, never beyond the chunk |
| `BodyReaders.ChunkedBodyReader.ReadLine` | src/parse/mod.rs:371-383 | the line up to the first CRLF of buffer and stream together, leaving exactly what follows it |
| `BodyReaders.BodyReader.ReadNext` | src/parse/mod.rs:185-191 | the same for any body; once finished, further reads yield nothing and touch nothing |
| `BodyReaders.ReadBody` | src/conn/mod.rs:178-192 | collecting a body gives the decoder's payload or error and leaves exactly the bytes behind the body |
| `BodyLaws.BodyExtends` | src/parse/mod.rs:239-383 | what follows a body changes neither payload nor verdict, and is left over in full |
| `BodyLaws.ChunkedRoundTrip` | src/encode/mod.rs:211-241 | printed chunks and trailers decode to the concatenated chunks and the same trailers, leaving exactly what follows |
| `BodyLaws.TrailerSection` | src/parse/mod.rs:347-366 | a printed trailer section is read back as the same ordered collection |
| `ChunkedGrammar.WrittenConforms` | src/encode/mod.rs:211-241 | printed chunks are of the grammar of section 7.1 of RFC 9112 and mean, read by it, the same payload and trailers, ending where they end |
| `ChunkedGrammar.LenientlyRead` | src/parse/mod.rs:290-383 | the reader accepts exactly what reads as that grammar with signed and padded sizes allowed and can be borne, as what it means |
| `ChunkedGrammar.ConformingIsRead` | src/parse/mod.rs:290-383 | any coding of the grammar is read as what it means iff its lines are UTF-8 and its sizes below 2^64, and is refused otherwise |
| `ChunkedGrammar.ReaderLanguage` | src/parse/mod.rs:290-383 | what can be borne of the grammar is accepted, and reader and grammar agree iff no signed or padded size is met on the way through an accepted text |
| `ChunkedGrammar.LatinLinesRefused` | src/parse/mod.rs:371-383 | an extension and a trailer of the grammar refused for a byte beyond ASCII |
| `Encode.WriteResponse` | src/encode/mod.rs:62-162 | the bytes written, the error, and the edited headers and body are those of the specification functions |
| `Encode.WriteChunkedBody` | src/encode/mod.rs:211-241 | the loop writes the chunked text of the stream up to its end or its break |
| `Encode.AppendHeaders` | src/encode/mod.rs:185-195 | the nested loops append the printed field section |
| `Encode.ApplyFraming` | src/encode/mod.rs:89-134 | the edited headers are those of the framing decision |
| `EncodeLaws.FramingOutcome` | src/encode/mod.rs:89-134 | the exact Content-Length and Transfer-Encoding values sent for every status, method and body: none under 1xx, 204 and 304, chunked for streams, a length otherwise; and never both fields |
| `EncodeLaws.OtherFieldsSent` | src/encode/mod.rs:83-134 | every other field is sent as the handler gave it, and Date is there |
| `EncodeLaws.WriteOutcome` | src/encode/mod.rs:77-162 | a response is refused iff it has both framing fields, and cut short iff its stream is sent and breaks |
| `EncodeLaws.NeverBothFramings` | src/encode/mod.rs:77-134 | no emitted head has both a Content-Length and a Transfer-Encoding |
| `EncodeLaws.HeadAgreesWithGet` | src/encode/mod.rs:86-159 | for a buffered body GET writes what HEAD writes followed by the body the status allows, and both fail together |
| `Preconditions.ApplyRequestPreconditions` | src/conn/mod.rs:312-364 | the response edited in place is the conditioned response |
| `Preconditions.EvaluatePreconditions` | src/conn/mod.rs:312-346 | the sequence of checks computes the decision |
| `PreconditionLaws.PreconditionsSettle` | src/conn/mod.rs:312-364 | applying preconditions a second time changes nothing |
| `PreconditionLaws.DecidedEncodes` | src/conn/mod.rs:348-363 | a decided response encodes without error and without body bytes, and a 304 has no framing field |
| `EtagLaws.EtagListMeaning` | src/conn/mod.rs:373-405 | a list of entity tags, empty members included, matches iff the entity's tag has no comma and one of the members is the same tag, or, weakly, has the same opaque tag |
| `EtagLaws.TagListOfJoin` | src/conn/mod.rs:384-387 | a written list has, by the commas outside its tags, the members it was written from |
| `EtagLaws.ListReadAsWritten` | src/conn/mod.rs:384-395 | a list is read as written for every entity iff none of its tags has a comma |
| `EtagLaws.CommaInTag` | src/conn/mod.rs:384-387 | a tag that is not found in the list consisting of it |
| `EtagLaws.IfMatchExact` | src/conn/mod.rs:316-320 | If-Match is evaluated as the RFC has it iff the entity's tag is not listed, or is neither weak nor has a comma, or both |
| `PreconditionLaws.DecideMeaning` | src/conn/mod.rs:312-346 | what is decided, from the field values: the tags found, the dates compared, the method, in the order of the code |
| `PreconditionLaws.TagsExactly` | src/conn/mod.rs:373-405 | the tags are read as section 13.1 of RFC 9110 has it iff no listed tag has a comma, or is weak in If-Match |
| `PreconditionLaws.OrderOfEvaluation` | src/conn/mod.rs:312-346 | where the tags are read alike, the decision is that of section 13.2.2 of RFC 9110, written out from the field values, iff no If-Match that holds meets a failing If-Unmodified-Since, or the later steps give 412 anyway |
| `PreconditionLaws.OrderCounterexample` | src/conn/mod.rs:316-328 | for any two dates, a request answered 412 that the RFC order lets through |
| `Conn.Connection.Run` | src/conn/mod.rs:100-246 | for every cutting of the input into reads and whatever ends them, calls, bytes and result are those of `Serve` |
| `Conn.Connection.Round` | src/conn/mod.rs:103-245 | one iteration either reads a byte, or does exactly what one step of the interpreter does, faults included |
| `Conn.Connection.ReadMore` | src/conn/mod.rs:114-153 | a read towards a head: end of input, failure, the idle timer between requests or else the header timer, and the limit re-check |
| `Conn.Connection.Answer` | src/conn/mod.rs:167-245 | 100 Continue, body, handler, preconditions, close decision and response, in that order |
| `Conn.Connection.RespondWithError` | src/conn/mod.rs:248-269 | an error reply is framed as for GET with Close and always encodes |
| `Conn.StepShrinks` | src/conn/mod.rs:155-167 | a served request consumes at least the four bytes that end a head |
| `ConnLaws.ServedAnswers` | src/conn/mod.rs:214-220 | in every run each response is what the handler makes of all requests so far: as it is if an error or not decided on, and else with the status decided on, no body, and its other fields kept |
| `ConnLaws.ServeFaithful` | src/conn/mod.rs:214-244 | in every run the responses come in order with their calls, dates and directives, and only the last exchange closes, with nothing written after it |
| `ConnLaws.LimitExactly` | src/conn/mod.rs:106-153 | whatever ends the reading, a head is refused for its size iff its empty line ends beyond 64 KiB or more bytes than that come without one |
| `ConnLaws.TokenListMeaning` | src/conn/mod.rs:306-310 | a value contains a token iff one of its comma-separated parts is that token up to case and white space |
| `ConnLaws.CloseOnEveryValue` | src/conn/mod.rs:299-304 | all Connection values on the wire, and that `close` is said iff the connection closes, unless an answer that stays open says it behind its first value |
| `ConnLaws.CloseIsVisible` | src/encode/mod.rs:170-175 | the first Connection value on the wire contains `close` iff the connection is closed |
| `ConnLaws.InterimExactly` | src/conn/mod.rs:173-176 | an interim 100 is sent iff the first Expect value asks for it, in any version |
| `ConnLaws.ServeExtends` | src/conn/mod.rs:100-246 | neither later input nor a fault changes completed exchanges; behind a used-up input more is served with the same history |
| `RequestLaws.HeadTaken` | src/parse/mod.rs:37-135 | the server makes of a head exactly the request and framing that its lines say when read by section 5 of RFC 9112 |
| `RequestLaws.PrintedSays` | src/parse/mod.rs:37-135 | a printed head is one of the heads that say a request |
| `RequestLaws.RequestArrives` | src/conn/mod.rs:155-214 | a request as sent, in any spelling of its head and any chunked coding of its body, whatever follows it, is the one the handler is called with |
| `RequestLaws.PrintedIsCoding` | src/encode/mod.rs:211-241 | printed chunks with trailers are a coding a client may send |
| `RequestLaws.PipelineArrives` | src/conn/mod.rs:100-246 | for every handler, the requests handled are the first of those sent, in order and unaltered: all of them, or up to an exchange that closed or a response that did not encode; the ending says which |
| `RequestLaws.CleanPipelineArrives` | src/conn/mod.rs:100-246 | with clean handlers all are handled unless an exchange closed, and the run stops cleanly |
| `RequestLaws.AnswersArrive` | src/conn/mod.rs:155-235 | pipelined requests are answered, each from what the handler makes of the requests sent so far, payloads and all |
| `RequestLaws.NotModifiedOnWire` | src/conn/mod.rs:214-235 | a GET or HEAD whose If-None-Match lists the tag of the handler's answer gets a 304 that is a head and nothing else |
| `RequestLaws.CloseOnWire` | src/conn/mod.rs:214-245 | an HTTP/1.1 request's successor is handled iff neither its first Connection line nor its answer says `close` and the answer encodes; so `close` is granted iff no line says it, the first does, or the answer ends the connection |
| `Examples.ServedPastClose` | src/conn/mod.rs:287-297 | bytes that say `close` in a second Connection line and are served past it |
| `Examples.OldVersionGetsInterim` | src/conn/mod.rs:173-176 | an HTTP/1.0 request that is sent a 100 |
| `Examples.LatinHeadRefused` | src/parse/mod.rs:43-45 | a head refused for a byte in a field value |
| `Examples.WrongLengthMisread` | src/encode/mod.rs:116-127 | a response with a length of its own that is sent and misread |
| `Examples.LaterAnswerUnread` | src/conn/mod.rs:299-304 | an answer behind which the connection stays open and the client stops |
| `Client.ReasonSpace` | src/encode/mod.rs:137-143 | the space behind the status code is there iff there is a reason |
| `ClientLaws.MessageReadExactly` | src/encode/mod.rs:62-162 | the client recovers the whole message, and nothing of what follows, iff the handler set at most one framing field, that which is sent is right, and the stream does not break |
| `ClientLaws.MessageRead` | src/encode/mod.rs:62-162 | so a well framed response is written and recovered |
| `ClientLaws.FramedContent` | src/encode/mod.rs:89-134 | section 6.3 of RFC 9112 applied to the emitted fields picks the framing the encoder used iff a length of the handler's own is the right one, or an encoding of its own ends in `chunked`, where they are sent |
| `OutputLaws.OutputDecodes` | src/conn/mod.rs:106-245 | the client recovers the whole output of every run in order, up to a response that says `close`; a final error reply is recovered in full as the answer to one more request, its body left over iff that is HEAD, and is left over whole without one |
| `OutputLaws.AllRecovered` | src/conn/mod.rs:214-245 | every response is recovered iff no answer but the last says `close` behind its first Connection value |
| `OutputLaws.ErrorRead` | src/conn/mod.rs:248-269 | an error reply read under any method gives the whole message; its body goes unread exactly for HEAD |
| `OutputLaws.ErrorContents` | src/conn/mod.rs:257-266 | what that message says: the status, the text as plain text with its length, and that the connection closes |
| `OutputLaws.HeadErrorLeavesBytes` | src/conn/mod.rs:127-135 | a truncated HEAD request whose error reply leaves its body on the wire |
| `OutputLaws.SilenceIsAnswered` | src/conn/mod.rs:134-142 | a peer that sends nothing in time gets a 408 it did not ask for |
| `OutputLaws.ServeEnds` | src/conn/mod.rs:103-245 | every run ends in silence or with the single 400 or 408 its result calls for, unless a response broke it off, which clean handlers never cause |
| `OutputLaws.IdleExactly` | src/conn/mod.rs:113-142 | the idle timer ends a run iff it expires behind a request with nothing of another one received; a used-up input ends a run as a wait for a request ends |
| `Range.ParseRangeHeader` | src/range/mod.rs:54-107 | the loop over the parts computes the parsed set or the first error |
| `Range.ParsedSpecsValid` | src/range/mod.rs:54-107 | accepted sets are non-empty, with 64-bit numbers and no range that ends before it starts |
| `Range.RangeRoundTrip` | src/range/mod.rs:54-107 | a printed set of ranges parses back to itself in order |
| `RangeLaws.PartAccepted` | src/range/mod.rs:68-99 | the specs that are accepted, and their values, by the numerals around the first dash |
| `RangeLaws.PartLanguage` | src/range/mod.rs:68-99 | a spec of the grammar is read as it is iff its numbers are below 2^64, and of the accepted specs exactly the plain ones are of the grammar |
| `RangeLaws.RangeLanguage` | src/range/mod.rs:54-107 | the same for whole values, with the unit and empty members |
| `RangeLaws.MemberErrors` | src/range/mod.rs:62-107 | a value is accepted iff its members are and some is not empty, and refused for the first that is not |
| `Range.ApplyExact` | src/range/mod.rs:111-153 | a spec yields a range iff it wants some byte, and the range is exactly those bytes, in bounds, with a length that cannot overflow |
| `Range.NothingMeaning` | src/range/mod.rs:117-149 | the branches that drop a spec are taken iff the entity has none of the bytes it asks for |
| `Range.RangesExact` | src/range/mod.rs:111-153 | the computed ranges are, one to one and in order, the specs that want some byte, each with exactly its bytes |

## Left out

- Failing writes: every write succeeds, so `EncodeError::Io` arises only from a response stream that breaks.
- Timers as durations: when a timer expires is arbitrary, and it ends the run at the read it interrupts.
- The `state` field and the `id` of a connection: assigned and logged, never read by the loop.
- Listed: whether there is a current representation, which is what `*` asks in If-Match, is taken from the answer having an entity tag, as in the code.
- TagsExactly: like DecideMeaning, for entity tags and lists of the grammar; the RFC does not say what other values mean.
- OutputDecodes: assumes handlers that keep field names, values and reasons to their grammar, send no interim status of their own, and frame responses right in the sense that FramedContent shows to be exact.
- CloseOnWire: HTTP/1.1 requests; after any other version the connection is always closed.
- Chunk extensions: `ReadChunks` passes over them as the server does, so their own grammar is not modelled.
- Lower-casing of names beyond ASCII: parsed names are tokens, so it matters only for names a handler makes up.
- The body descriptor of a request, which is always empty when the handler sees it.
- The reason-phrase table and HTTP date texts: parameters.
- Status codes outside 100-599, which the source's type rules out, are not excluded here.
- Body and buffer lengths are unbounded; chunk sizes are kept below 2^64 where they are read.
- `drain` and the trailer accessor of body readers: the connection loop calls neither.
- `format_content_range`: text formatting that nothing in the library reads back.
- Cache-Control helpers, builders and routing: they are used by handlers, which are a parameter here.
- The accept loop, logging and the compliance harness: they surround connections and do not touch their bytes.
- Endless response streams, and handlers that panic.
