# http-serve: a verified model

This project models, in Dafny 4.11, the part of the Rust crate http-serve that turns a request into a
body: parsing `Range` headers, deciding on the response, preparing and streaming
`multipart/byteranges` bodies, policing entity streams, scanning entity-tag lists, and the concurrent
chunked pipe behind `BodyWriter`. `dafny verify dfyconfig.toml` checks everything.

| file | models |
|---|---|
| `Prelude.dfy`, `Decimal.dfy` | `u64` as a bounded subset type, ranges, byte strings; decimal printing and `u64::from_str` |
| `ByteRange.dfy` | `src/range.rs` |
| `RfcRange.dfy` | what RFC 7233 says about `Range`, independently, and the comparison with `src/range.rs` |
| `Streams.dfy` | `ExactLenStream` of `src/body.rs` and the entity streams it polices |
| `Multipart.dfy` | `MultipartStream` of `src/serving.rs` |
| `PartFormat.dfy` | `prepare_multipart` and the length estimate of `src/serving.rs` |
| `PartDecoder.dfy` | an independent reader of multipart responses, from the announced boundary on: the inverse of the above |
| `Etag.dfy` | `src/etag.rs` |
| `RfcTagList.dfy` | the tag lists of RFC 7232 and the list rule of RFC 7230, independently, and the comparison with `src/etag.rs` |
| `Serving.dfy` | `parse_modified_hdrs` and `serve_inner` of `src/serving.rs`, and how answers to related requests differ |
| `Precedence.dfy` | section 6 of RFC 7232, and the comparison with `serve_inner` |
| `Answers.dfy` | every answer of `serve_inner` written down by itself |
| `FileStream.dfy` | `ChunkedReadFile::get_range` of `src/file.rs` |
| `EndToEnd.dfy` | a request, its response, and its body polled to the end |
| `Chunker.dfy` | `src/chunker.rs`: the locked sections, and the classes that perform them |
| `Pipe.dfy`, `PipeGuarantees.dfy` | the pipe under every interleaving of writer and reader |
| `BodyWriter.dfy` | the raw and dead variants of `BodyWriter` in `src/gzip.rs` |

How it is modelled:

- Code that updates objects is a class (`MultipartStream`, `ExactLenStream`, `List`, `Writer`, `Reader`,
  `BodyWriter`) or a method with a loop. Each is proved to compute a function on values; the theorems
  are lemmas about those functions, over all inputs, runs or schedules.
- A byte is a `char`, a byte string a `seq<char>`. An entity stream is an arbitrary finite list of
  answers (`NotReady`, `Chunk`, `Error`, `End`), after which it answers `End`. A real stream may panic when it
  is polled after its end; both lemmas `OnlyUntilEnd` prove that a run to the first error or end does not
  depend on what follows a stream's end, and `FileStream` models the panic of its own stream. A multipart
  body that is polled after a part was too short panics at that poll with either kind of stream.
- A panic (a failed overflow check, index check or `debug_assert!`) is the outcome `Panic`, so that the
  absence of panics is a theorem and their presence after an error can be stated.
- Builds with and without overflow checks and debug assertions (a release build has neither) are a
  parameter of `Parse`, where `last + 1` overflows for the largest `u64`, and of the multipart stream,
  where a subtraction can overflow after an error.
- In the pipe, a step is one locked section; the waker that a section took is fired by a later step,
  because the code fires it after unlocking.

Where the code differs from its comments or from the RFCs, it is modelled as it is and the exact condition
is proved:

- `MultipartStream` is not fused by an error although the comment says so: `cur` stays set, so the next
  poll polls the failed part again and never answers the end. `NotFusedAfterError` says exactly when that
  poll panics. In a release build data that the part still expected is sent after the error instead, and
  `is_end_stream`, true after the error, becomes false again. `OverlongPartPanics` is a request that shows
  the panic.
- `range::parse` accepts plus signs and white space right after `bytes=`; it ignores headers with `bytes` in
  capitals, with empty list elements, with white space before a comma or with positions above the largest
  `u64`; it drops a suffix at least as long as the entity and a range that ends before it starts, keeps `-0`
  as an empty range, and overflows on the largest last position. `PieceAgreesIff` and `HeaderAgreesIff` give,
  for every piece of text and for every header, the exact condition for agreeing with section 2.1 of RFC 7233
  under the list rule of section 7 of RFC 7230, where an invalid set may be ignored or refused (sections 3.1
  and 4.4 of RFC 7233). A suffix of an empty entity is satisfiable by section 2.1; the code answers that it is
  not: `SuffixOfNothing`.
- `HEAD` honours `Range`, which section 3.1 of RFC 7233 wants ignored: `HeadIgnoresRangeIff`.
- The 80-byte estimate does not count the entity headers repeated in each part: `EstimateSharp` gives, for
  every length, the exact bound within which multipart is never longer than the entity, and
  `LongerThanEntity` a request beyond it.
- The tag scanner takes valid lists with white space before a comma, or with an empty element that is not the
  last, for corrupt: `ScanAgreesIff`. Such an `If-Match` is answered with 400 whatever it lists
  (`LooseMatchRefused`), such an `If-None-Match` is ignored.
- `If-Unmodified-Since` is evaluated even when `If-Match` is present and matches, and a date that cannot be
  read is answered with 400 instead of being ignored. With loose lists these are all the departures from
  section 6 of RFC 7232: `PrecedenceIff`.
- A file's stream panics when it is polled after its end, and `ExactLenStream` passes such a poll on:
  `NeverALengthError`.
- The documentation of the chunker's `Writer` says that unflushed data is ignored on drop; the code
  flushes it, and `DropDeliversAll` proves that it is delivered.
- The error text "receiver was dropped" of the chunker is never about a dropped receiver: `WriteOutcome`
  shows that a write fails only after an abort.

## Model

| member | source | states |
|---|---|---|
| Decimal.PrintThenParse | src/range.rs:60-69 | every `u64` printed in decimal is read back by `u64::from_str` as itself |
| Decimal.U64Digits | src/serving.rs:25 | a `u64` prints in 1 to 20 digits |
| ByteRange.Parse | src/range.rs:34-94 | the parsing loop computes the two-stage reading: specs first, then resolution against the length, first bad piece decides |
| ByteRange.ParsePiece | src/range.rs:47-88 | one piece of the list is unreadable, overflows, is dropped or is kept, as reading and resolving it says |
| ByteRange.AllOrNothing | src/range.rs:47-93 | the list fails exactly when some piece is bad, in the way the first bad piece is; it is empty exactly when all pieces are dropped |
| ByteRange.HeaderOutcome | src/range.rs:34-94 | for a `bytes=` header: no ranges iff the first bad piece is unreadable, panic iff it overflows, unsatisfiable iff all are dropped |
| ByteRange.FateKinds | src/range.rs:55-80 | a piece is unreadable iff it spells no spec, and overflows iff it spells the largest last position in an overflow-checking build |
| ByteRange.ParsedRangesWithin | src/range.rs:90-93 | a satisfiable result is a non-empty list of ranges inside the entity with end at least 1, each non-empty unless it is `len..len` and the header has a `-0` |
| ByteRange.PrintThenParseHeader | src/range.rs:34-94 | any list of specs, printed with any white space before each, parses to what those specs resolve to, in order |
| ByteRange.OrdinaryRoundTrip | src/range.rs:34-94 | for specs naming bytes of the entity the result is exactly their half-open ranges in header order |
| RfcRange.PieceAgreesIff | src/range.rs:47-77 | a piece of any text is read as the grammar of section 2.1 of RFC 7233 reads it iff it is not blank and, where it has the form of an element up to plus signs, has a plus sign exactly when white space at its end or a number above the largest `u64` makes the code refuse it anyway |
| RfcRange.FaithfulIff | src/range.rs:47-88 | a piece that the grammar reads as a spec keeps exactly the byte positions of that spec, or is dropped as unsatisfiable by section 2.1, iff no white space follows, its numbers fit a `u64`, and it is not `-0`, not a suffix of the whole length or more, and does not overflow |
| RfcRange.RfcRangeNames | src/range.rs:22-26 | the half-open range that the comparison assigns to a satisfiable spec is the set of positions it names, empty only for a suffix of an empty entity |
| RfcRange.ReadIff | src/range.rs:51-77 | the code reads exactly the texts of the grammar extended by plus signs, as long as the numbers fit a `u64` |
| RfcRange.SkipOwsMeaning | src/range.rs:48-49 | exactly the spaces and tabs in front of a piece are skipped |
| RfcRange.HeaderAgreesIff | src/range.rs:32-94 | for every header value: the resolution is one that RFC 7233 allows iff a valid header is in lower case with only plain, fitting, non-deviating elements, or an invalid one has an unreadable piece that is reached or no piece that is kept |
| RfcRange.SuffixOfNothing | src/range.rs:58-67 | every suffix but `-0` of an empty entity is satisfiable by section 2.1 and not satisfiable for the code |
| RfcRange.ValidButIgnored | src/range.rs:47-77 | a valid header with an empty element, white space before a comma or a number above the largest `u64` is ignored, or panics over an earlier piece |
| RfcRange.HugeLastValid | src/range.rs:68-77 | such headers exist: `0-n` for every `n` above the largest `u64` |
| RfcRange.PlusSignAccepted | src/range.rs:60-77 | `+a-b` is outside the grammar and is resolved as `a-b` |
| Streams.EntityStream.PollNext | src/body.rs:201 | a poll takes the stream's next answer |
| Streams.ExactLenStream.PollNext | src/body.rs:196-227 | the polling method computes the new expected length and the answer, including both length errors and their amounts |
| Streams.ExactDrainMeaning | src/body.rs:196-227 | the stream completes iff the entity delivers exactly the promised number of bytes, then with the entity's bytes; otherwise it fails too long iff more bytes come, too short with the true shortfall, or with the entity's error |
| Streams.FailureMeaning | src/body.rs:196-227 | a stream that breaks does so with the one failure its answers call for: too long by what the first chunk beyond the promise exceeds it, the entity's own error code, or too short by exactly what is missing |
| Streams.OneFailure | src/body.rs:196-227 | the answers call for one failure at most, and for none when they deliver |
| Streams.LengthErrorFuses | src/body.rs:209-220 | after a length error nothing is expected and no byte follows; after the entity's own error the expectation stays |
| Streams.PendingIff | src/body.rs:222 | a poll waits iff the entity's stream waits |
| Streams.OnlyUntilEnd | src/body.rs:196-227 | a run to the first error or end does not depend on what the entity's stream would do after its end |
| Streams.ExactRunConserves | src/body.rs:204-220 | over any number of polls, even past errors, no more than the promised bytes are delivered; before an error delivered plus expected is the promise |
| Streams.ExactSizeIsTruthful | src/body.rs:48-57 | the reported size of an exact-length body is the bytes still to come, the end is reported iff none is, and a reported end means no byte ever follows |
| Multipart.MultipartStream.PollNext | src/serving.rs:397-446 | the polling loop ends within two rounds and computes one step of the state machine, for every state and entity |
| Multipart.MultipartStream.PollCurrent | src/serving.rs:403-421 | polling the open part answers or closes it without changing what the whole poll answers |
| Multipart.MultipartStream.Advance | src/serving.rs:423-444 | with no part open, the state decides the answer or opens the next part |
| Multipart.PollKeeps | src/serving.rs:397-446 | before the first error, whatever the entity does: no panic, every poll accounts for exactly the bytes it sends, the end comes only with nothing owed |
| Multipart.PollShrinks | src/serving.rs:402-445 | every poll that is not the last reduces the phases plus entity answers left |
| Multipart.Drain | src/serving.rs:397-446 | a run to the first error or the end takes at most one poll per phase and per entity answer, plus one |
| Multipart.DrainMeaning | src/serving.rs:397-446 | a run completes iff every part delivers its length, then with exactly the expected text and length; in every case what was sent is the beginning of headers and entity data in order |
| Multipart.DrainRuns | src/serving.rs:397-446 | whatever the entity does, a run is the runs of its parts one after the other, with headers before and the trailer after, up to the first part that breaks, with its failure |
| Multipart.FirstFailureDecides | src/serving.rs:409-414 | a body that breaks reports the failure, with amount or code, that the first part whose stream does not deliver calls for |
| Multipart.PendingIff | src/serving.rs:402-421 | the body waits iff the stream of the part to be sent waits |
| Multipart.HonestBody | src/serving.rs:306-346 | over honest streams, any chunking and pauses, the body is header, data, ..., trailer and has the promised length |
| Multipart.OnlyUntilEnd | src/serving.rs:397-446 | the same for a multipart body and the streams of all its parts |
| Multipart.SizeIsTruthful | src/serving.rs:382-384 | before any error `remaining` is zero exactly in the end state, whatever the entities do; when the streams still to come deliver, it is the bytes still to come |
| Multipart.NotFusedAfterError | src/serving.rs:403-421 | after an error, in both builds: the next poll never reports the end; it panics exactly when the part's stream ends cleanly, or yields data still expected in a checking build; a release build sends that data, `remaining` wraps, and the reported end is withdrawn |
| Multipart.PollAfterError | src/serving.rs:403-421 | every later poll too: when it panics, and that what it sends comes out of what the failed part still expected |
| Multipart.NeverEndsAfterError | src/serving.rs:403-421 | however often a failed stream is polled, in both builds, it never reports its end and sends at most what the failed part still expected; a checking build sends nothing |
| Multipart.OverlongFirstPart | src/serving.rs:403-433 | any body whose first part's stream hands out too much answers a header, then the length error, then panics at the third poll, in both builds |
| PartFormat.CollectHeaderLines | src/serving.rs:298-303 | the loop over the header map yields the header lines in order |
| PartFormat.PrepareMultipart | src/serving.rs:285-346 | fails iff the true total exceeds the largest `u64`, otherwise returns every part's header and the true total |
| PartFormat.SumParts | src/serving.rs:306-333 | the checked loop over the parts computes headers and total, or detects overflow exactly |
| PartFormat.PartHeaderSize | src/serving.rs:308-324 | a part's header is 34 bytes, three decimals and the repeated headers, and fits the reserved capacity |
| PartFormat.EstimateIsTrue | src/serving.rs:218-221 | the checked fold is the true estimate, or nothing iff that overflows |
| PartFormat.WorthIff | src/serving.rs:215-222 | multipart is chosen iff 80 bytes per part plus the ranges are below the entity's length |
| PartFormat.EstimateSuffices | src/serving.rs:215-222 | when three decimals and the repeated headers take at most 42 bytes, a chosen multipart body is never longer than the entity |
| PartFormat.EstimateSufficesForSmallEntities | src/serving.rs:215-222 | without repeated headers it is not longer below 10^14 bytes and strictly shorter below 10^13 |
| PartFormat.EstimateSharp | src/serving.rs:215-222 | for every entity length and all repeated headers, a chosen multipart body is never longer than the entity iff the length is at most 160, or three decimals and the headers take at most 42 bytes, 43 or 44 for lengths at and close above a power of ten |
| PartFormat.EstimateCanMislead | src/serving.rs:215-222 | a concrete multipart body that is chosen although it is longer than the entity |
| PartFormat.BodyLengthWithLines | src/serving.rs:290-333 | the repeated header lines are paid for exactly once per part |
| PartFormat.OverflowUnreachable | src/serving.rs:231-239 | for entities up to 2^63 bytes and at most 60 bytes of repeated headers the "too large" answer cannot occur |
| PartDecoder.DecodeContent | src/serving.rs:298-333 | a reader with its own texts, given the boundary, recovers ranges, total length, repeated fields and data from the body alone, even when data contains the boundary |
| PartDecoder.ReadPrintedRange | src/serving.rs:201-211 | the value of a `Content-Range` field is read back |
| Etag.List.Next | src/etag.rs:50-82 | the scanner's step returns the first tag of the rest, or stops, marking corruption exactly when something is left |
| Etag.NoneMatch | src/etag.rs:86-109 | the loop with its flag computes the condition on the whole list, a corrupt tail overriding earlier matches |
| Etag.AnyMatch | src/etag.rs:112-135 | the loop with its flag computes the condition on the whole list, a corrupt tail being an error |
| Etag.ScanTagList | src/etag.rs:50-82 | scanning any list of valid tags with any tolerated separators returns exactly those tags, uncorrupted |
| Etag.UncorruptedIff | src/etag.rs:50-82 | a value is uncorrupted iff it is a sequence of valid tags each followed by nothing or by a comma and white space |
| Etag.ComparisonMeaning | src/etag.rs:13-23 | weak and strong equality of tag texts are those of section 2.3.2 of RFC 7232 on parsed tags |
| Etag.ConditionMeaning | src/etag.rs:86-135 | on a well-formed list `If-Match` holds iff some tag matches strongly, `If-None-Match` iff none matches weakly |
| Etag.MatchExcludesNoneMatch | src/etag.rs:86-135 | a value that satisfies `If-Match` makes `If-None-Match` fail |
| Etag.CorruptOverrides | src/etag.rs:104-106 | a corrupt tail makes both conditions unusable whatever matched before it |
| RfcTagList.ScanAgreesIff | src/etag.rs:25-82 | of every list that the RFCs allow the scanner reads the same tags iff no white space precedes a comma and no element is empty but a last one; all others it takes for corrupt |
| RfcTagList.ReadOnce | src/etag.rs:25-32 | a list has one reading only |
| RfcTagList.AnyMatchMeaning | src/etag.rs:112-135 | `If-Match` is as section 3.1 of RFC 7232 says, unless such a loose list is compared with a tag |
| RfcTagList.NoneMatchMeaning | src/etag.rs:86-109 | `If-None-Match` is as section 3.2 of RFC 7232 says, with the same exception |
| RfcTagList.SpaceBeforeCommaIsLoose | src/etag.rs:50-82 | any two tags with a space before the comma are an allowed list that matches the first and is taken for corrupt |
| Serving.ParseModifiedHdrs | src/serving.rs:27-66 | the branches, which parse a date only where it is consulted, evaluate the four conditions |
| Serving.ServeInner | src/serving.rs:106-279 | the control flow over the real loops computes the response |
| Serving.AnswerRanges | src/serving.rs:197-278 | the resolved ranges decide status, headers and body |
| Serving.HeadAgreesWithGet | src/serving.rs:240-273 | HEAD has GET's status and headers in every case, and no entity data |
| Serving.HeadIgnoresRangeIff | src/serving.rs:143-276 | HEAD is answered as if it had no `Range` iff a precondition decides or the ranges are not honoured |
| Serving.NoneMatchOverridesModifiedSince | src/serving.rs:43-64 | when `If-None-Match` decides, `If-Modified-Since` cannot change the response |
| Serving.StrongIfRangeIff | src/serving.rs:144-153 | an `If-Range` matches iff it is the entity's tag and a strong one; a date never matches |
| Serving.FailedIfRangeIsNoRange | src/serving.rs:143-170 | an `If-Range` that does not match strongly answers as if it and `Range` were absent |
| Serving.MatchingIfRange | src/serving.rs:140-170 | a matching `If-Range` takes the entity's headers out of a single range, or out of each part and the length of several, and changes nothing else; it turns 413 into 206 iff the length fits a `u64` only without those headers |
| Precedence.DatesMean | src/serving.rs:34-60 | `If-Unmodified-Since` fails iff the entity was modified after the date, `If-Modified-Since` iff it was not, and each is unreadable iff it is no visible text that spells a date |
| Precedence.PrecedenceIff | src/serving.rs:27-66 | a request whose tag lists the RFCs allow is answered as section 6 of RFC 7232 decides, except exactly when `If-Match` is loose, or matches while `If-Unmodified-Since` fails, or a date that is looked at cannot be read, or a loose `If-None-Match` would have decided otherwise |
| Precedence.LooseMatchRefused | src/serving.rs:127-138 | a loose `If-Match` is answered with 400 even if it lists the entity's tag |
| Precedence.DecisionShows | src/serving.rs:187-195 | 412 and 304 follow the evaluated preconditions, in that order; otherwise the range decides |
| Precedence.BadRequestIff | src/serving.rs:127-138 | the answer is 400 iff `If-Match` is corrupt or a date that is looked at cannot be read, and says which |
| Answers.EveryAnswer | src/serving.rs:143-278 | every GET or HEAD that no precondition stops is answered by what its honoured `Range` resolves to: status, all header fields and body for the whole entity, one range, several, too large, and none |
| Answers.BaseHeadersMeaning | src/serving.rs:172-185 | the common fields: `accept-ranges`, the entity's tag, the present date and the modification time, which never exceeds it |
| Answers.OtherMethods | src/serving.rs:114-122 | other methods are answered 405 with the allowed ones, and only they |
| Serving.NeverTooLarge | src/serving.rs:231-239 | an entity of at most 2^63 bytes with at most 60 bytes of headers is never answered 413, whatever the request |
| FileStream.StreamIsSlice | src/file.rs:135-165 | whatever the short reads, an error-free stream is the slice of the file, in non-empty chunks of at most 65536 bytes, with at most one read per byte |
| FileStream.NeverALengthError | src/file.rs:139-162 | inside an exact-length stream a file answers every reading poll with that read's data or error, the first poll after the range is read with the end, retries after errors included, and panics at every later poll; until then the data is the file's, in order, without loss or repetition |
| FileStream.UnfoldAnswers | src/file.rs:139-162 | the unfused stream answers its reads, then the end once, and then panics |
| FileStream.TruncatedNeverCompletes | src/platform.rs:15-17 | a range beyond the end of the file never completes |
| FileStream.LargestRead | src/file.rs:142 | a read asks for all that is left, up to 65536 bytes |
| EndToEnd.GetKeepsItsPromise | src/serving.rs:197-278 | every GET that sends entity data sends exactly its plan, completes, has the length in its Content-Length header, and with status 200 sends the whole entity |
| EndToEnd.WholeEntity | src/serving.rs:197-278 | without honoured ranges the answer is 200 with the entity's length and headers, and the body exactly the entity's bytes |
| EndToEnd.UnsatisfiableIff | src/serving.rs:254-261 | a `bytes=` request is answered 416, with the entity's length, iff every piece of its list is dropped |
| EndToEnd.OneRange | src/serving.rs:201-213 | asking for one ordinary range gives 206, a Content-Range that is read back, the length, the entity's headers, and exactly those bytes |
| EndToEnd.SeveralRangesPlan | src/serving.rs:214-252 | asking for several gives the parts iff the estimate is below the entity's length, else the whole entity |
| EndToEnd.SeveralRanges | src/serving.rs:214-252 | from the multipart answer a reader recovers the requested ranges and their bytes; 413 iff the length does not fit |
| EndToEnd.EveryMultipartRecovers | src/serving.rs:197-252 | from the header fields and the body of every multipart answer to a GET, whatever its conditions, `If-Range` and pieces, a client recovers the ranges that `Range` resolves to, the entity's headers unless there is an `If-Range`, and the entity's bytes for each |
| EndToEnd.LongerThanEntity | src/serving.rs:215-252 | a request whose multipart response is longer than the entity |
| EndToEnd.OverlongPartPanics | src/serving.rs:403-433 | a request and an entity stream for which the third poll of the response body panics |
| EndToEnd.FileStreamsAreHonest | src/file.rs:135-165 | a file entity whose reads succeed meets the entity contract for every range |
| Chunker.Reader.PollNext | src/chunker.rs:81-129 | the reader's locked section: new channel state and answer |
| Chunker.Reader.SizeHint | src/chunker.rs:45-60 | the hint read from the channel |
| Chunker.Reader.IsEndStream | src/chunker.rs:62-72 | the end read from the channel |
| Chunker.Writer.Abort | src/chunker.rs:200-215 | the abort's locked section and the waker it takes |
| Chunker.Writer.FlushHelper | src/chunker.rs:217-245 | the flush's locked section: queue, buffer, waker taken and result |
| Chunker.Writer.Write | src/chunker.rs:259-273 | a write buffers what fits, flushes a full buffer, and reports what it accepted |
| Chunker.Writer.Drop | src/chunker.rs:286-288 | dropping flushes and marks the writer as gone |
| Chunker.WithChunkSize | src/chunker.rs:175-197 | a fresh pipe is open, empty and shared by both ends |
| Pipe.StepKeeps | src/chunker.rs:81-289 | every step of either side keeps the five-part invariant |
| Pipe.ReachedInv | src/chunker.rs:81-289 | the invariant holds in every state that any schedule reaches |
| PipeGuarantees.NoLostWakeup | src/chunker.rs:109-122 | a waiting reader whose waker has not fired is either waiting on an idle pipe that stores that waker, or the writer's next step fires it |
| PipeGuarantees.PendingIsStable | src/chunker.rs:109-122 | a poll is pending iff the pipe is idle, and repeating it changes nothing but the stored waker |
| PipeGuarantees.Conservation | src/chunker.rs:87-245 | delivered, queued and buffered bytes are exactly the accepted bytes while open; delivered bytes are always a prefix; polling never panics |
| PipeGuarantees.DropDeliversAll | src/chunker.rs:281-289 | after a drop without abort and the firing of its waker the reader does not sleep: a task polled only when it is due goes through the backlog, receives everything accepted and the end |
| PipeGuarantees.FlushDelivers | src/chunker.rs:217-279 | after a flush of an open pipe, any polls and the firing of its waker, a task polled only when it is due receives everything accepted so far |
| PipeGuarantees.AnswersWellFormed | src/chunker.rs:87-128 | the reader sees data, then at most one error, then only ends; the error is the first abort's |
| PipeGuarantees.PhaseDescribes | src/chunker.rs:87-128 | the folded phase of the answers means that order, index by index |
| PipeGuarantees.AbortIsFinal | src/chunker.rs:200-215 | after an abort no schedule delivers or queues another byte or changes the error, which is reported exactly once |
| PipeGuarantees.DropAfterAbort | src/chunker.rs:217-289 | dropping a writer after its abort, with any steps of the reader between, changes nothing in the pipe |
| PipeGuarantees.GoneAddsNothing | src/chunker.rs:281-289 | once the writer is gone nothing more is queued or accepted |
| PipeGuarantees.HintIsTruthful | src/chunker.rs:45-60 | the hint is the queued length, bounded above iff the writer is gone, and nothing once the stream has ended or failed; of the bytes delivered by a clean end at least the hint comes later, exactly the hint when bounded above |
| PipeGuarantees.EndIsFinal | src/chunker.rs:62-72 | after a reported end no byte is ever delivered |
| PipeGuarantees.EndIffDone | src/chunker.rs:62-72 | the end is reported iff the next poll answers the end |
| PipeGuarantees.ChunkingLaw | src/chunker.rs:136-139 | every queued chunk is non-empty, at most the capacity, and exactly the capacity unless queued by a flush or the drop; chunks are delivered whole and in order |
| PipeGuarantees.WritesAreCutEvenly | src/chunker.rs:136-139 | without explicit flushes the chunks are the accepted bytes cut every capacity bytes, however they were written |
| PipeGuarantees.WriteOutcome | src/chunker.rs:259-279 | a write fails iff an abort took effect and the buffer fills, then nothing more is delivered; it accepts all the data or what fills the buffer |
| PipeGuarantees.WriteAll | src/chunker.rs:259-273 | repeated writes terminate and accept all the data, with any polls of the reader before each step |
| RawBodyWriter.BodyWriter.Abort | src/gzip.rs:62-68 | an abort kills the writer once; the drop of the inner writer that follows leaves channel and queue as the abort did, which `PipeGuarantees.DropAfterAbort` proves for any steps of the reader in between |
| RawBodyWriter.BodyWriter.Write | src/gzip.rs:76-86 | a dead writer fails and touches nothing; a live one on an open pipe accepts all the data or what fills the buffer, and queue and buffer then hold what they held and the accepted bytes; it dies exactly when the write fails |
| RawBodyWriter.BodyWriter.Flush | src/gzip.rs:88-98 | a dead writer fails; a live one on an open pipe moves all buffered bytes to the queue; it dies exactly when the flush fails |

## Left out

- Panics inside an entity's own stream, except those of the file stream after its end.
- `src/dir.rs`, `should_gzip`, `parse_qvalue` and the streaming-body builder of `src/lib.rs`: they would only add easy members.
- The gzip variant of `BodyWriter`: its behaviour is that of the flate2 crate.
- HTTP date parsing and formatting, and the system clock: parameters of the model.
- Header maps: a request carries the first value of each header that is read, a response lists its headers in the order they are set; `add_headers` is modelled as appending a fixed list, so an entity that replaces other headers is not captured.
- `src/platform.rs`: only the contract of `read_at`; the Windows path and file metadata are not modelled.
- Etag formatting of file entities and the allocation behaviour of `Vec`: a reserved buffer has exactly the requested capacity.
- `BodyStream::Once` and the conversions into `Body`: they would only add easy members.
- `usize` is unbounded: queue sizes and the number of ranges are bounded by memory long before they overflow.
- RawBodyWriter.BodyWriter.Abort: the method runs the abort and the drop that follows it back to back; as two locked sections, with the reader between them, they are steps of `Pipe`.
