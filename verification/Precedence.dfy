/**
 The conditional header fields: what section 6 of RFC 7232 decides for a request, and exactly when
 `serve_inner` decides the same.
 */
module Precedence {
  import opened Prelude
  import opened ByteRange
  import opened PartFormat
  import opened Serving
  import Etag
  import RfcTagList

  datatype Decision = Proceed | PreconditionFailed | NotModified

  function CodeDecision(p: Preconditions): Decision
    requires p.Evaluated?
  {
    if p.failed then PreconditionFailed else if p.notModified then NotModified else Proceed
  }

  /** `If-Match` and `If-None-Match` are `*` or lists that the RFCs allow, where they are sent. */
  ghost predicate FieldsAllowed(req: Request) {
    && (req.ifMatch.Some? ==> RfcTagList.IsField(req.ifMatch.value))
    && (req.ifNoneMatch.Some? ==> RfcTagList.IsField(req.ifNoneMatch.value))
  }

  /** `If-Match` is sent and holds. */
  ghost predicate MatchHolds(ent: Entity, req: Request)
    requires FieldsAllowed(req)
  {
    req.ifMatch.Some? && RfcTagList.Matches(ent.etag, req.ifMatch.value, true)
  }

  /** `If-None-Match` is sent and does not hold. */
  ghost predicate NoneMatchFails(ent: Entity, req: Request)
    requires FieldsAllowed(req)
  {
    req.ifNoneMatch.Some? && RfcTagList.Matches(ent.etag, req.ifNoneMatch.value, false)
  }

  /** The value is visible text and a date that can be read, which is `d`. */
  ghost predicate ReadsAs(clock: Clock, value: Bytes, d: int) {
    (forall i :: 0 <= i < |value| ==> ' ' <= value[i] <= '~' || value[i] == '\t') && clock.parse(value) == Some(d)
  }

  /** Sections 3.4 and 3.3: there is a modification time, and it is after the field's date, or it is not. */
  ghost predicate ModifiedAfterDate(ent: Entity, clock: Clock, field: Option<Bytes>) {
    ent.lastModified.Some? && field.Some? && exists d :: ReadsAs(clock, field.value, d) && ent.lastModified.value > d
  }

  ghost predicate UnmodifiedSinceDate(ent: Entity, clock: Clock, field: Option<Bytes>) {
    ent.lastModified.Some? && field.Some? && exists d :: ReadsAs(clock, field.value, d) && ent.lastModified.value <= d
  }

  /** There is a modification time to compare, and the field cannot be read. */
  ghost predicate UnreadableDate(ent: Entity, clock: Clock, field: Option<Bytes>) {
    ent.lastModified.Some? && field.Some? && forall d :: !ReadsAs(clock, field.value, d)
  }

  /** What the code makes of the two dates. */
  lemma DatesMean(ent: Entity, clock: Clock, field: Option<Bytes>)
    ensures ModifiedAfter(clock, ent.lastModified, field) ==
            if UnreadableDate(ent, clock, field) then None else Some(ModifiedAfterDate(ent, clock, field))
    ensures UnmodifiedSince(clock, ent.lastModified, field) ==
            if UnreadableDate(ent, clock, field) then None else Some(UnmodifiedSinceDate(ent, clock, field))
  {
    if ent.lastModified.Some? && field.Some? && ParseDate(clock, field.value).Some? {
      assert ReadsAs(clock, field.value, ParseDate(clock, field.value).value);
    }
  }

  /**
   Section 6 of RFC 7232, steps 1 to 4, on the request's own fields.  `If-Unmodified-Since` fails
   when the entity was modified after its date, `If-Modified-Since` when it was not; a date that
   cannot be read is ignored (sections 3.3 and 3.4).
   */
  ghost function RfcDecision(ent: Entity, req: Request, clock: Clock): Decision
    requires FieldsAllowed(req)
  {
    if req.ifMatch.Some? && !MatchHolds(ent, req) then PreconditionFailed
    else if req.ifMatch.None? && ModifiedAfterDate(ent, clock, req.ifUnmodifiedSince) then PreconditionFailed
    else if req.ifNoneMatch.Some? then if NoneMatchFails(ent, req) then NotModified else Proceed
    else if UnmodifiedSinceDate(ent, clock, req.ifModifiedSince) then NotModified
    else Proceed
  }

  /** The entity has a tag to compare with a list that has white space before a comma or an empty element. */
  ghost predicate LooseMatch(ent: Entity, req: Request)
    requires FieldsAllowed(req)
  {
    ent.etag.Some? && req.ifMatch.Some? && RfcTagList.Loose(req.ifMatch.value)
  }

  ghost predicate LooseNoneMatch(ent: Entity, req: Request)
    requires FieldsAllowed(req)
  {
    ent.etag.Some? && req.ifNoneMatch.Some? && RfcTagList.Loose(req.ifNoneMatch.value)
  }

  /** How a decision shows: its statuses, the common headers `base` first, and the body where it is decided. */
  ghost predicate Shows(d: Decision, res: Outcome<Response>, base: seq<Header>) {
    match d
    case PreconditionFailed => res == Returned(Response(412, base, Text("Precondition failed")))
    case NotModified => res == Returned(Response(304, base, Empty))
    case Proceed =>
      res.Panic? || res.value.status == 413 || (res.value.status in {200, 206, 416} && base <= res.value.headers)
  }

  /** The code looks at a date that it cannot read. */
  ghost predicate ConsultsBadDate(ent: Entity, req: Request, clock: Clock)
    requires FieldsAllowed(req)
  {
    || ((req.ifMatch.None? || MatchHolds(ent, req)) && UnreadableDate(ent, clock, req.ifUnmodifiedSince))
    || ((req.ifNoneMatch.None? || LooseNoneMatch(ent, req)) && UnreadableDate(ent, clock, req.ifModifiedSince))
  }

  lemma RangesShow(ent: Entity, verb: Method, base: seq<Header>, resolved: ResolvedRanges, repeated: bool)
    requires resolved.Satisfiable? ==> Printable(resolved.ranges, ent.len)
    ensures Shows(Proceed, Returned(ServeRanges(ent, verb, base, resolved, repeated)), base)
  {
  }

  lemma AnswerShows(
    ent: Entity, verb: Method, pre: Preconditions, range: Option<Bytes>, repeated: bool, clock: Clock, arith: Arithmetic)
    ensures var res := Answer(ent, verb, pre, range, repeated, clock, arith);
            && (pre.Evaluated? ==> Shows(CodeDecision(pre), res, BaseHeaders(ent, clock)))
            && (pre.Bad? ==> res == Returned(Response(400, [], Text(pre.message))))
  {
    ParsedPrintable(range, ent.len, arith);
    var parsed := ParsedHeader(range, ent.len, arith);
    if parsed.Returned? {
      RangesShow(ent, verb, BaseHeaders(ent, clock), parsed.value, repeated);
    }
  }

  /** Each decision shows itself in its own statuses. */
  lemma OneDecisionShows(d: Decision, e: Decision, res: Outcome<Response>, base: seq<Header>)
    requires Shows(d, res, base) && Shows(e, res, base)
    ensures d == e
  {
  }

  /**
   The code decides as section 6 of RFC 7232 does.  `If-Match` is not a loose list, which the code
   answers with 400.  `If-Unmodified-Since` does not fail beside an `If-Match` that holds, which the
   code answers with 412 although the RFC ignores the date then.  The code looks at no date that it
   cannot read, which it answers with 400 although the RFC ignores it.  And if `If-None-Match` is a
   loose list, which the code ignores, then the request fails anyway or `If-Modified-Since` happens
   to decide alike.
   */
  ghost predicate Follows(ent: Entity, req: Request, clock: Clock)
    requires FieldsAllowed(req)
  {
    && !LooseMatch(ent, req)
    && !(MatchHolds(ent, req) && ModifiedAfterDate(ent, clock, req.ifUnmodifiedSince))
    && !ConsultsBadDate(ent, req, clock)
    && (LooseNoneMatch(ent, req) ==>
          || RfcDecision(ent, req, clock) == PreconditionFailed
          || (UnmodifiedSinceDate(ent, clock, req.ifModifiedSince) <==> NoneMatchFails(ent, req)))
  }

  /** A request whose tag lists the RFCs allow is answered as section 6 of RFC 7232 decides exactly when `Follows` holds. */
  lemma PrecedenceIff(ent: Entity, req: Request, clock: Clock, arith: Arithmetic)
    requires req.verb != Other && FieldsAllowed(req)
    ensures Shows(RfcDecision(ent, req, clock), Serve(ent, req, clock, arith), BaseHeaders(ent, clock)) <==>
            Follows(ent, req, clock)
  {
    var c := ConditionsOf(ent, req, clock);
    var pre := Evaluate(c);
    var (range, repeated) := IfRange(ent, req);
    var res := Serve(ent, req, clock, arith);
    AnswerShows(ent, req.verb, pre, range, repeated, clock, arith);
    ListConditions(ent, req, c);
    DatesMean(ent, clock, req.ifUnmodifiedSince);
    DatesMean(ent, clock, req.ifModifiedSince);
    DecisionIff(ent, req, clock, c);
    if pre.Evaluated? && Shows(RfcDecision(ent, req, clock), res, BaseHeaders(ent, clock)) {
      OneDecisionShows(RfcDecision(ent, req, clock), CodeDecision(pre), res, BaseHeaders(ent, clock));
    }
  }

  /** What the code takes the two lists for. */
  ghost predicate ListsMean(ent: Entity, req: Request, c: Conditions)
    requires FieldsAllowed(req)
  {
    && c.anyMatch == (if LooseMatch(ent, req) then None else Some(req.ifMatch.None? || MatchHolds(ent, req)))
    && c.noneMatch == (if req.ifNoneMatch.None? || LooseNoneMatch(ent, req) then None
                       else Some(!NoneMatchFails(ent, req)))
  }

  lemma ListConditions(ent: Entity, req: Request, c: Conditions)
    requires FieldsAllowed(req)
    requires c.anyMatch == Etag.AnyMatchSpec(ent.etag, req.ifMatch)
    requires c.noneMatch == Etag.NoneMatchSpec(ent.etag, req.ifNoneMatch)
    ensures ListsMean(ent, req, c)
  {
    if req.ifMatch.Some? {
      RfcTagList.AnyMatchMeaning(ent.etag, req.ifMatch.value);
    }
    if req.ifNoneMatch.Some? {
      RfcTagList.NoneMatchMeaning(ent.etag, req.ifNoneMatch.value);
    }
  }

  /** What the code takes the two dates for. */
  ghost predicate FieldsMean(ent: Entity, req: Request, clock: Clock, c: Conditions)
  {
    && c.modifiedAfter == (if UnreadableDate(ent, clock, req.ifUnmodifiedSince) then None
                           else Some(ModifiedAfterDate(ent, clock, req.ifUnmodifiedSince)))
    && c.unmodified == (if UnreadableDate(ent, clock, req.ifModifiedSince) then None
                        else Some(UnmodifiedSinceDate(ent, clock, req.ifModifiedSince)))
  }

  lemma DecisionIff(ent: Entity, req: Request, clock: Clock, c: Conditions)
    requires FieldsAllowed(req) && ListsMean(ent, req, c) && FieldsMean(ent, req, clock, c)
    ensures Evaluate(c).Evaluated? && CodeDecision(Evaluate(c)) == RfcDecision(ent, req, clock) <==>
            Follows(ent, req, clock)
  {
  }

  /** A loose `If-Match` list is answered with 400 even if it lists the entity's tag. */
  lemma LooseMatchRefused(ent: Entity, req: Request, clock: Clock, arith: Arithmetic)
    requires req.verb != Other && FieldsAllowed(req) && LooseMatch(ent, req)
    ensures Serve(ent, req, clock, arith) == Returned(Response(400, [], Text("Unparseable If-Match header")))
  {
    ListConditions(ent, req, ConditionsOf(ent, req, clock));
  }

  /** 412 and 304 follow the evaluated preconditions, in that order; otherwise the range decides. */
  lemma DecisionShows(ent: Entity, req: Request, clock: Clock, arith: Arithmetic)
    requires req.verb != Other && Evaluate(ConditionsOf(ent, req, clock)).Evaluated?
    ensures Shows(CodeDecision(Evaluate(ConditionsOf(ent, req, clock))), Serve(ent, req, clock, arith),
                  BaseHeaders(ent, clock))
  {
    var (range, repeated) := IfRange(ent, req);
    AnswerShows(ent, req.verb, Evaluate(ConditionsOf(ent, req, clock)), range, repeated, clock, arith);
  }

  /** The message of the 400 answer, if there is one: the first of the three fields that cannot be read. */
  ghost function Complaint(ent: Entity, req: Request, clock: Clock): Option<Bytes> {
    var matched := Etag.AnyMatchSpec(ent.etag, req.ifMatch);
    if matched.None? then Some("Unparseable If-Match header")
    else if matched.value && UnreadableDate(ent, clock, req.ifUnmodifiedSince) then
      Some("Unparseable If-Unmodified-Since")
    else if Etag.NoneMatchSpec(ent.etag, req.ifNoneMatch).None? && UnreadableDate(ent, clock, req.ifModifiedSince) then
      Some("Unparseable If-Modified-Since")
    else None
  }

  /**
   The answer is 400 exactly when `If-Match` is corrupt or a date that is looked at cannot be read,
   and then it says which; a corrupt `If-None-Match` is ignored instead.
   */
  lemma BadRequestIff(ent: Entity, req: Request, clock: Clock, arith: Arithmetic)
    requires req.verb != Other
    ensures var res := Serve(ent, req, clock, arith);
            match Complaint(ent, req, clock)
            case Some(message) => res == Returned(Response(400, [], Text(message)))
            case None => res.Returned? ==> res.value.status != 400
  {
    var (range, repeated) := IfRange(ent, req);
    DatesMean(ent, clock, req.ifUnmodifiedSince);
    DatesMean(ent, clock, req.ifModifiedSince);
    AnswerShows(ent, req.verb, Evaluate(ConditionsOf(ent, req, clock)), range, repeated, clock, arith);
  }
}
