/**
 `serve_inner` and `parse_modified_hdrs` of `src/serving.rs`: from a request to a response.

 A request carries the first value of each header that the code reads.  Times are integers; the
 clock and the date format are parameters.  A response body is described by what produces it.
 */
module Serving {
  import opened Prelude
  import opened Decimal
  import opened ByteRange
  import opened PartFormat
  import Multipart
  import Etag

  datatype Method = Get | Head | Other

  datatype Request = Request(
    verb: Method,
    ifMatch: Option<Bytes>,
    ifUnmodifiedSince: Option<Bytes>,
    ifNoneMatch: Option<Bytes>,
    ifModifiedSince: Option<Bytes>,
    ifRange: Option<Bytes>,
    range: Option<Bytes>
  )

  /** What an `Entity` answers; `headers` is what `add_headers` adds. */
  datatype Entity = Entity(len: u64, etag: Option<Bytes>, lastModified: Option<int>, headers: seq<Header>)

  /** The current time, `parse_http_date` and `fmt_http_date`. */
  datatype Clock = Clock(now: int, parse: Bytes -> Option<int>, format: int -> Bytes)

  datatype Body =
    | Empty
    | Text(text: Bytes)
    | Exact(range: Slice)
    | Parts(headers: seq<Bytes>, ranges: seq<Slice>, len: u64)

  datatype Response = Response(status: nat, headers: seq<Header>, body: Body)

  // ---------- preconditions ----------

  datatype Preconditions = Bad(message: Bytes) | Evaluated(failed: bool, notModified: bool)

  function ParseDate(clock: Clock, value: Bytes): Option<int> {
    if VisibleAscii(value) then clock.parse(value) else None
  }

  /** `If-Unmodified-Since` when there is a modification time: whether it fails. */
  function ModifiedAfter(clock: Clock, modified: Option<int>, since: Option<Bytes>): Option<bool> {
    if modified.None? || since.None? then Some(false)
    else
      var d :- ParseDate(clock, since.value);
      Some(modified.value > d)
  }

  /** `If-Modified-Since` when there is a modification time: whether the entity is unmodified. */
  function UnmodifiedSince(clock: Clock, modified: Option<int>, since: Option<Bytes>): Option<bool> {
    if modified.None? || since.None? then Some(false)
    else
      var d :- ParseDate(clock, since.value);
      Some(modified.value <= d)
  }

  /** What the four conditional headers evaluate to; `None` is an unreadable one, or no decision of `If-None-Match`. */
  datatype Conditions = Conditions(
    anyMatch: Option<bool>,
    modifiedAfter: Option<bool>,
    noneMatch: Option<bool>,
    unmodified: Option<bool>
  )

  function ConditionsOf(ent: Entity, req: Request, clock: Clock): Conditions {
    Conditions(
      Etag.AnyMatchSpec(ent.etag, req.ifMatch),
      ModifiedAfter(clock, ent.lastModified, req.ifUnmodifiedSince),
      Etag.NoneMatchSpec(ent.etag, req.ifNoneMatch),
      UnmodifiedSince(clock, ent.lastModified, req.ifModifiedSince))
  }

  /** `parse_modified_hdrs`: a condition that is not consulted has no influence. */
  function Evaluate(c: Conditions): Preconditions {
    match c.anyMatch
    case None => Bad("Unparseable If-Match header")
    case Some(matched) =>
      var failed := if matched then c.modifiedAfter else Some(true);
      if failed.None? then Bad("Unparseable If-Unmodified-Since")
      else
        match c.noneMatch
        case Some(b) => Evaluated(failed.value, !b)
        case None =>
          if c.unmodified.None? then Bad("Unparseable If-Modified-Since")
          else Evaluated(failed.value, c.unmodified.value)
  }

  // ---------- the response ----------

  /** The `Range` header to honour, and whether a partial response repeats the entity's headers. */
  function IfRange(ent: Entity, req: Request): (Option<Bytes>, bool) {
    match req.ifRange
    case None => (req.range, true)
    case Some(v) =>
      if StrongIfRange(ent, v) then (req.range, false) else (None, true)
  }

  predicate StrongIfRange(ent: Entity, v: Bytes) {
    ("W/\"" <= v || "\"" <= v) && ent.etag.Some? && Etag.StrongEq(v, ent.etag.value)
  }

  function BaseHeaders(ent: Entity, clock: Clock): seq<Header> {
    [("accept-ranges", "bytes")]
    + (match ent.lastModified
       case None => []
       case Some(m) =>
         [("date", clock.format(clock.now)), ("last-modified", clock.format(if m <= clock.now then m else clock.now))])
    + (match ent.etag
       case None => []
       case Some(e) => [("etag", e)])
  }

  function ContentLength(n: nat): Header {
    ("content-length", Dec(n))
  }

  function ContentRange(r: Slice, len: u64): Header
    requires r.end >= 1
  {
    ("content-range", "bytes " + Dec(r.start) + "-" + Dec(r.end - 1) + "/" + Dec(len))
  }

  /** The end of `serve_inner`: one contiguous range. */
  function ServeRange(ent: Entity, verb: Method, status: nat, headers: seq<Header>, r: Slice, repeated: bool)
    : Response
  {
    Response(status, headers + [ContentLength(r.Size())] + (if repeated then ent.headers else []),
             if verb == Head then Empty else Exact(r))
  }

  function ServeWhole(ent: Entity, verb: Method, headers: seq<Header>): Response {
    ServeRange(ent, verb, 200, headers, Range(0, ent.len), true)
  }

  /** The headers of a multipart response: common ones, then the length and the type. */
  function MultipartHeaders(base: seq<Header>, n: nat): seq<Header> {
    base + [ContentLength(n), ("content-type", "multipart/byteranges; boundary=B")]
  }

  function ServeParts(ent: Entity, verb: Method, headers: seq<Header>, ranges: seq<Slice>, repeated: bool): Response
    requires Printable(ranges, ent.len)
  {
    var lines := if repeated then HeaderLines(ent.headers) else [];
    var n := BodyLength(ranges, ent.len, lines);
    Multipart.OwedAtLeastTrailer(PartHeaders(ranges, ent.len, lines), ranges, 0);
    if n > U64_MAX then Response(413, [], Text("Multipart response too large"))
    else
      Response(206, MultipartHeaders(headers, n),
               if verb == Head then Empty else Parts(PartHeaders(ranges, ent.len, lines), ranges, n))
  }

  function ServeRanges(ent: Entity, verb: Method, headers: seq<Header>, resolved: ResolvedRanges, repeated: bool)
    : Response
    requires resolved.Satisfiable? ==> Printable(resolved.ranges, ent.len)
  {
    match resolved
    case NoRanges => ServeWhole(ent, verb, headers)
    case NotSatisfiable =>
      Response(416, headers + [("content-range", "bytes */" + Dec(ent.len))], Empty)
    case Satisfiable(ranges) =>
      if |ranges| == 1 then
        ServeRange(ent, verb, 206, headers + [ContentRange(ranges[0], ent.len)], ranges[0], repeated)
      else if WorthMultipart(ranges, ent.len) then ServeParts(ent, verb, headers, ranges, repeated)
      else ServeWhole(ent, verb, headers)
  }

  /** Every range that parsing keeps can be printed. */
  lemma ParsedPrintable(header: Option<Bytes>, len: u64, arith: Arithmetic)
    ensures var res := ParsedHeader(header, len, arith);
            res.Returned? && res.value.Satisfiable? ==> Printable(res.value.ranges, len)
  {
    ParsedRangesWithin(header, len, arith);
    var res := ParsedHeader(header, len, arith);
    if res.Returned? && res.value.Satisfiable? {
      forall i | 0 <= i < |res.value.ranges|
        ensures res.value.ranges[i].Within(len) && res.value.ranges[i].end >= 1
      {
        assert WellPlaced(res.value.ranges[i], len);
      }
    }
  }

  /** The part of `serve_inner` that honours the `Range` header. */
  function ServeRangeHeader(
    ent: Entity, verb: Method, headers: seq<Header>, range: Option<Bytes>, repeated: bool, arith: Arithmetic)
    : Outcome<Response>
  {
    ParsedPrintable(range, ent.len, arith);
    match ParsedHeader(range, ent.len, arith)
    case Panic => Panic
    case Returned(resolved) => Returned(ServeRanges(ent, verb, headers, resolved, repeated))
  }

  /** The answer to a `GET` or `HEAD`, given the preconditions and the `Range` header to honour. */
  function Answer(
    ent: Entity, verb: Method, pre: Preconditions, range: Option<Bytes>, repeated: bool, clock: Clock, arith: Arithmetic)
    : Outcome<Response>
  {
    match pre
    case Bad(message) => Returned(Response(400, [], Text(message)))
    case Evaluated(failed, notModified) =>
      var headers := BaseHeaders(ent, clock);
      if failed then Returned(Response(412, headers, Text("Precondition failed")))
      else if notModified then Returned(Response(304, headers, Empty))
      else ServeRangeHeader(ent, verb, headers, range, repeated, arith)
  }

  function Serve(ent: Entity, req: Request, clock: Clock, arith: Arithmetic): Outcome<Response> {
    if req.verb == Other then
      Returned(Response(405, [("allow", "get, head")], Text("This resource only supports GET and HEAD.")))
    else
      var (range, repeated) := IfRange(ent, req);
      Answer(ent, req.verb, Evaluate(ConditionsOf(ent, req, clock)), range, repeated, clock, arith)
  }

  // ---------- the code ----------

  /** `parse_modified_hdrs`: a date is parsed only where it is consulted. */
  method ParseModifiedHdrs(ent: Entity, req: Request, clock: Clock) returns (res: Preconditions)
    ensures res == Evaluate(ConditionsOf(ent, req, clock))
  {
    var matched := Etag.AnyMatch(ent.etag, req.ifMatch);
    if matched.None? {
      return Bad("Unparseable If-Match header");
    }
    var failed := false;
    if !matched.value {
      failed := true;
    } else if ent.lastModified.Some? && req.ifUnmodifiedSince.Some? {
      var since := ParseDate(clock, req.ifUnmodifiedSince.value);
      if since.None? {
        return Bad("Unparseable If-Unmodified-Since");
      }
      failed := ent.lastModified.value > since.value;
    }
    var notModified := false;
    var noneMatch := Etag.NoneMatch(ent.etag, req.ifNoneMatch);
    if noneMatch.Some? {
      notModified := !noneMatch.value;
    } else if ent.lastModified.Some? && req.ifModifiedSince.Some? {
      var since := ParseDate(clock, req.ifModifiedSince.value);
      if since.None? {
        return Bad("Unparseable If-Modified-Since");
      }
      notModified := ent.lastModified.value <= since.value;
    }
    return Evaluated(failed, notModified);
  }

  /** The part of `serve_inner` that decides about `If-Range`. */
  method HonourIfRange(ent: Entity, req: Request) returns (range: Option<Bytes>, repeated: bool)
    ensures (range, repeated) == IfRange(ent, req)
  {
    range, repeated := req.range, true;
    if req.ifRange.Some? {
      var v := req.ifRange.value;
      if "W/\"" <= v || "\"" <= v {
        if ent.etag.Some? && Etag.StrongEq(v, ent.etag.value) {
          repeated := false;
        } else {
          range := None;
        }
      } else {
        range := None;
      }
    }
  }

  /** The headers that every answer but 400, 405 and 413 begins with. */
  method CommonHeaders(ent: Entity, clock: Clock) returns (headers: seq<Header>)
    ensures headers == BaseHeaders(ent, clock)
  {
    headers := [("accept-ranges", "bytes")];
    if ent.lastModified.Some? {
      var m, d := ent.lastModified.value, clock.now;
      headers := headers + [("date", clock.format(d))];
      var clamped := if m <= d then m else d;
      headers := headers + [("last-modified", clock.format(clamped))];
    }
    if ent.etag.Some? {
      headers := headers + [("etag", ent.etag.value)];
    }
  }

  /** `serve_inner`. */
  method ServeInner(ent: Entity, req: Request, clock: Clock, arith: Arithmetic) returns (res: Outcome<Response>)
    ensures res == Serve(ent, req, clock, arith)
  {
    if req.verb != Get && req.verb != Head {
      return Returned(Response(405, [("allow", "get, head")], Text("This resource only supports GET and HEAD.")));
    }
    var checked := ParseModifiedHdrs(ent, req, clock);
    if checked.Bad? {
      return Returned(Response(400, [], Text(checked.message)));
    }
    var range, repeated := HonourIfRange(ent, req);
    var headers := CommonHeaders(ent, clock);
    if checked.failed {
      return Returned(Response(412, headers, Text("Precondition failed")));
    }
    if checked.notModified {
      return Returned(Response(304, headers, Empty));
    }
    var parsed := Parse(range, ent.len, arith);
    ParsedPrintable(range, ent.len, arith);
    if parsed.Panic? {
      return Panic;
    }
    var response := AnswerRanges(ent, req.verb, headers, parsed.value, repeated);
    return Returned(response);
  }

  /** The last part of `serve_inner`: the resolved ranges decide. */
  method AnswerRanges(ent: Entity, verb: Method, base: seq<Header>, resolved: ResolvedRanges, repeated: bool)
    returns (res: Response)
    requires resolved.Satisfiable? ==> Printable(resolved.ranges, ent.len)
    ensures res == ServeRanges(ent, verb, base, resolved, repeated)
  {
    var status, headers := 200, base;
    var range: Slice, withHeaders := Range(0, ent.len), true;
    match resolved {
      case NoRanges =>
      case NotSatisfiable =>
        return Response(416, headers + [("content-range", "bytes */" + Dec(ent.len))], Empty);
      case Satisfiable(ranges) =>
        if |ranges| == 1 {
          headers := headers + [ContentRange(ranges[0], ent.len)];
          status, range, withHeaders := 206, ranges[0], repeated;
        } else {
          var estimate := EstimateFrom(0, ranges);
          if estimate.Some? && estimate.value < ent.len {
            var prepared := PrepareMultipart(ranges, ent.len, if repeated then Some(ent.headers) else None);
            if prepared.None? {
              return Response(413, [], Text("Multipart response too large"));
            }
            var (partHeaders, len) := prepared.value;
            return Response(206, headers + [ContentLength(len), ("content-type", "multipart/byteranges; boundary=B")],
                            if verb == Head then Empty else Parts(partHeaders, ranges, len));
          }
        }
    }
    headers := headers + [ContentLength(range.end - range.start)];
    var body := if verb == Head then Empty else Exact(range);
    if withHeaders {
      headers := headers + ent.headers;
    }
    return Response(status, headers, body);
  }

  // ---------- relations between requests ----------

  /** The same response without entity data. */
  function Bodiless(r: Response): Response {
    if r.body.Exact? || r.body.Parts? then r.(body := Empty) else r
  }

  lemma HeadRanges(ent: Entity, headers: seq<Header>, range: Option<Bytes>, repeated: bool, arith: Arithmetic)
    ensures var g := ServeRangeHeader(ent, Get, headers, range, repeated, arith);
            var h := ServeRangeHeader(ent, Head, headers, range, repeated, arith);
            h == if g.Panic? then Panic else Returned(Bodiless(g.value))
  {
  }

  lemma HeadAnswers(
    ent: Entity, pre: Preconditions, range: Option<Bytes>, repeated: bool, clock: Clock, arith: Arithmetic)
    ensures var g := Answer(ent, Get, pre, range, repeated, clock, arith);
            var h := Answer(ent, Head, pre, range, repeated, clock, arith);
            h == if g.Panic? then Panic else Returned(Bodiless(g.value))
  {
    HeadRanges(ent, BaseHeaders(ent, clock), range, repeated, arith);
  }

  /**
   `HEAD` answers with the status and the headers of `GET`, and without a body whenever `GET` sends
   entity data.
   */
  lemma HeadAgreesWithGet(ent: Entity, req: Request, clock: Clock, arith: Arithmetic)
    ensures var g := Serve(ent, req.(verb := Get), clock, arith);
            var h := Serve(ent, req.(verb := Head), clock, arith);
            h == if g.Panic? then Panic else Returned(Bodiless(g.value))
  {
    var (range, repeated) := IfRange(ent, req);
    HeadAnswers(ent, Evaluate(ConditionsOf(ent, req, clock)), range, repeated, clock, arith);
  }

  /** The value is the entity's tag, and a strong one (section 3.2 of RFC 7233); dates never are. */
  predicate Validates(ent: Entity, v: Bytes) {
    ent.etag == Some(v) && "\"" <= v
  }

  lemma StrongIfRangeIff(ent: Entity, v: Bytes)
    ensures StrongIfRange(ent, v) <==> Validates(ent, v)
  {
    if "W/\"" <= v {
      assert v[0] == 'W' && v[1] == '/';
      assert Etag.WEAK <= v;
    } else if "\"" <= v {
      assert v[0] == '"';
    }
  }

  /** The `Range` field, unless there is an `If-Range` that does not validate. */
  function Honoured(ent: Entity, req: Request): Option<Bytes> {
    if req.ifRange.None? || Validates(ent, req.ifRange.value) then req.range else None
  }

  /** The ranges are not honoured: the answer is the whole entity. */
  predicate WholeAnyway(resolved: ResolvedRanges, len: u64) {
    resolved.NoRanges? ||
    (resolved.Satisfiable? && |resolved.ranges| != 1 && TrueEstimate(resolved.ranges) >= len)
  }

  lemma WholeIff(ent: Entity, verb: Method, headers: seq<Header>, resolved: ResolvedRanges, repeated: bool)
    requires resolved.Satisfiable? ==> Printable(resolved.ranges, ent.len)
    ensures ServeRanges(ent, verb, headers, resolved, repeated) == ServeWhole(ent, verb, headers) <==>
            WholeAnyway(resolved, ent.len)
  {
    if resolved.Satisfiable? {
      WorthIff(resolved.ranges, ent.len);
    }
    if !WholeAnyway(resolved, ent.len) {
      assert ServeRanges(ent, verb, headers, resolved, repeated).status != 200;
    }
  }

  /**
   Section 3.1 of RFC 7233 wants `Range` ignored for every method but `GET`.  The code answers a
   `HEAD` as if it had no `Range` exactly when a precondition decides or the ranges are not honoured.
   */
  lemma HeadIgnoresRangeIff(ent: Entity, req: Request, clock: Clock, arith: Arithmetic)
    requires req.verb == Head
    ensures var parsed := ParsedHeader(Honoured(ent, req), ent.len, arith);
            Serve(ent, req, clock, arith) == Serve(ent, req.(range := None), clock, arith) <==>
            || Evaluate(ConditionsOf(ent, req, clock)) != Evaluated(false, false)
            || (parsed.Returned? && WholeAnyway(parsed.value, ent.len))
  {
    assert ConditionsOf(ent, req, clock) == ConditionsOf(ent, req.(range := None), clock);
    if req.ifRange.Some? {
      StrongIfRangeIff(ent, req.ifRange.value);
    }
    var (range, repeated) := IfRange(ent, req);
    var parsed := ParsedHeader(range, ent.len, arith);
    ParsedPrintable(range, ent.len, arith);
    if parsed.Returned? {
      WholeIff(ent, Head, BaseHeaders(ent, clock), parsed.value, repeated);
    }
  }

  lemma DecidedWithoutDate(c: Conditions, d: Conditions)
    requires c.noneMatch.Some? && d == c.(unmodified := d.unmodified)
    ensures Evaluate(c) == Evaluate(d)
  {
  }

  /** When `If-None-Match` decides, `If-Modified-Since` has no influence at all. */
  lemma NoneMatchOverridesModifiedSince(
    ent: Entity, req: Request, since: Option<Bytes>, clock: Clock, arith: Arithmetic)
    requires Etag.NoneMatchSpec(ent.etag, req.ifNoneMatch).Some?
    ensures Serve(ent, req, clock, arith) == Serve(ent, req.(ifModifiedSince := since), clock, arith)
  {
    DecidedWithoutDate(ConditionsOf(ent, req, clock), ConditionsOf(ent, req.(ifModifiedSince := since), clock));
  }

  /** An `If-Range` that is not a strong match acts as if neither it nor `Range` had been sent. */
  lemma FailedIfRangeIsNoRange(ent: Entity, req: Request, clock: Clock, arith: Arithmetic)
    requires req.ifRange.Some? && !Validates(ent, req.ifRange.value)
    ensures Serve(ent, req, clock, arith) == Serve(ent, req.(ifRange := None, range := None), clock, arith)
  {
    StrongIfRangeIff(ent, req.ifRange.value);
    assert ConditionsOf(ent, req, clock) == ConditionsOf(ent, req.(ifRange := None, range := None), clock);
  }

  // ---------- the "too large" answer ----------

  lemma RangesFit(ent: Entity, verb: Method, headers: seq<Header>, resolved: ResolvedRanges, repeated: bool)
    requires resolved.Satisfiable? ==> resolved.ranges != [] && Printable(resolved.ranges, ent.len)
    requires ent.len <= 0x8000_0000_0000_0000 && |HeaderLines(ent.headers)| <= 60
    ensures ServeRanges(ent, verb, headers, resolved, repeated).status != 413
  {
    if resolved.Satisfiable? && |resolved.ranges| >= 2 && WorthMultipart(resolved.ranges, ent.len) {
      OverflowUnreachable(resolved.ranges, ent.len, if repeated then HeaderLines(ent.headers) else []);
    }
  }

  /** An entity of at most 2^63 bytes whose headers take at most 60 is never answered 413, whatever the request. */
  lemma NeverTooLarge(ent: Entity, req: Request, clock: Clock, arith: Arithmetic)
    requires ent.len <= 0x8000_0000_0000_0000 && |HeaderLines(ent.headers)| <= 60
    ensures var res := Serve(ent, req, clock, arith);
            res.Returned? ==> res.value.status != 413
  {
    var (range, repeated) := IfRange(ent, req);
    ParsedPrintable(range, ent.len, arith);
    ParsedRangesWithin(range, ent.len, arith);
    var parsed := ParsedHeader(range, ent.len, arith);
    if parsed.Returned? {
      RangesFit(ent, req.verb, BaseHeaders(ent, clock), parsed.value, repeated);
    }
  }

  // ---------- a matching If-Range ----------

  /**
   Two multipart answers over the same ranges that differ only in the entity's header lines: `b`
   has them in every part's header and counts them in its length, `a` does not.
   */
  ghost predicate PartsApart(lines: Bytes, a: Response, b: Response) {
    exists base: seq<Header>, n: nat, parts: nat ::
      && a.status == b.status == 206
      && a.headers == MultipartHeaders(base, n) && b.headers == MultipartHeaders(base, n + |lines| * parts)
      && BodiesApart(lines, a.body, b.body, n, parts)
  }

  ghost predicate BodiesApart(lines: Bytes, a: Body, b: Body, n: nat, parts: nat) {
    || (a == b == Empty)
    || (a.Parts? && b.Parts? && a.ranges == b.ranges && |a.headers| == |b.headers| == |a.ranges| == parts
        && a.len == n && b.len == n + |lines| * parts
        && forall i :: 0 <= i < parts ==> LinesInserted(a.headers[i], b.headers[i], lines))
  }

  /** The multipart length fits a `u64` only without the entity's headers in each part. */
  ghost predicate TooLargeWithLines(ent: Entity, resolved: ResolvedRanges)
    requires resolved.Satisfiable? ==> Printable(resolved.ranges, ent.len)
  {
    && resolved.Satisfiable? && |resolved.ranges| != 1 && WorthMultipart(resolved.ranges, ent.len)
    && BodyLength(resolved.ranges, ent.len, HeaderLines(ent.headers)) > U64_MAX
    && BodyLength(resolved.ranges, ent.len, []) <= U64_MAX
  }

  /**
   How the answer `a` to a matching `If-Range` relates to the answer `b` without it.  One range: the
   entity's headers are only in `b`.  Several parts: they are only in the parts of `b`, or `b` has
   become too large, or both are.  Anything else: the answers are equal.
   */
  ghost predicate EntityHeadersApart(ent: Entity, resolved: ResolvedRanges, a: Response, b: Response)
    requires resolved.Satisfiable? ==> Printable(resolved.ranges, ent.len)
  {
    if resolved.Satisfiable? && |resolved.ranges| == 1 then
      a.status == b.status == 206 && a.body == b.body && b.headers == a.headers + ent.headers
    else if resolved.Satisfiable? && TrueEstimate(resolved.ranges) < ent.len then
      var lines := HeaderLines(ent.headers);
      if BodyLength(resolved.ranges, ent.len, []) > U64_MAX then a == b && a.status == 413
      else if BodyLength(resolved.ranges, ent.len, lines) > U64_MAX then a.status == 206 && b.status == 413
      else PartsApart(lines, a, b)
    else a == b
  }

  lemma BodiesApartIntro(ranges: seq<Slice>, len: u64, lines: Bytes, a: Body, b: Body, n: u64, m: u64)
    requires Printable(ranges, len) && m == n + |lines| * |ranges|
    requires a == Parts(PartHeaders(ranges, len, []), ranges, n)
    requires b == Parts(PartHeaders(ranges, len, lines), ranges, m)
    ensures BodiesApart(lines, a, b, n, |ranges|)
  {
    forall i | 0 <= i < |ranges|
      ensures LinesInserted(a.headers[i], b.headers[i], lines)
    {
      PartHeaderStem(ranges[i], len, lines);
    }
  }

  /** What a multipart answer of length `n` looks like. */
  ghost predicate ShowsParts(res: Response, verb: Method, base: seq<Header>, hs: seq<Bytes>, ranges: seq<Slice>, n: u64)
  {
    && res.status == 206 && res.headers == MultipartHeaders(base, n)
    && res.body == if verb == Head then Empty else Parts(hs, ranges, n)
  }

  lemma ServedParts(
    ent: Entity, verb: Method, base: seq<Header>, ranges: seq<Slice>, repeated: bool, lines: Bytes, n: u64)
    requires Printable(ranges, ent.len) && lines == if repeated then HeaderLines(ent.headers) else []
    requires n == BodyLength(ranges, ent.len, lines)
    ensures ShowsParts(ServeParts(ent, verb, base, ranges, repeated), verb, base,
                       PartHeaders(ranges, ent.len, lines), ranges, n)
  {
  }

  lemma PartsApartIntro(lines: Bytes, a: Response, b: Response, verb: Method, base: seq<Header>,
                        ranges: seq<Slice>, len: u64, n: u64, m: u64)
    requires Printable(ranges, len) && m == n + |lines| * |ranges|
    requires ShowsParts(a, verb, base, PartHeaders(ranges, len, []), ranges, n)
    requires ShowsParts(b, verb, base, PartHeaders(ranges, len, lines), ranges, m)
    ensures PartsApart(lines, a, b)
  {
    if verb != Head {
      BodiesApartIntro(ranges, len, lines, a.body, b.body, n, m);
    }
    assert BodiesApart(lines, a.body, b.body, n, |ranges|);
  }

  lemma ServedPartsApart(ent: Entity, verb: Method, base: seq<Header>, ranges: seq<Slice>)
    requires Printable(ranges, ent.len)
    requires BodyLength(ranges, ent.len, HeaderLines(ent.headers)) <= U64_MAX
    ensures PartsApart(HeaderLines(ent.headers), ServeParts(ent, verb, base, ranges, false),
                       ServeParts(ent, verb, base, ranges, true))
  {
    var lines := HeaderLines(ent.headers);
    BodyLengthWithLines(ranges, ent.len, lines);
    Multipart.OwedAtLeastTrailer(PartHeaders(ranges, ent.len, []), ranges, 0);
    var n: u64 := BodyLength(ranges, ent.len, []);
    var m: u64 := BodyLength(ranges, ent.len, lines);
    ServedParts(ent, verb, base, ranges, false, [], n);
    ServedParts(ent, verb, base, ranges, true, lines, m);
    PartsApartIntro(lines, ServeParts(ent, verb, base, ranges, false), ServeParts(ent, verb, base, ranges, true),
                    verb, base, ranges, ent.len, n, m);
  }

  lemma RangesApart(ent: Entity, verb: Method, headers: seq<Header>, resolved: ResolvedRanges)
    requires resolved.Satisfiable? ==> Printable(resolved.ranges, ent.len)
    ensures var a := ServeRanges(ent, verb, headers, resolved, false);
            var b := ServeRanges(ent, verb, headers, resolved, true);
            && EntityHeadersApart(ent, resolved, a, b)
            && (a.status == 206 && b.status == 413 <==> TooLargeWithLines(ent, resolved))
  {
    var a, b := ServeRanges(ent, verb, headers, resolved, false), ServeRanges(ent, verb, headers, resolved, true);
    if resolved.Satisfiable? {
      var ranges := resolved.ranges;
      if |ranges| == 1 {
        assert a.headers + ent.headers == b.headers;
      }
      WorthIff(ranges, ent.len);
      if |ranges| != 1 && WorthMultipart(ranges, ent.len) {
        BodyLengthWithLines(ranges, ent.len, HeaderLines(ent.headers));
        if BodyLength(ranges, ent.len, HeaderLines(ent.headers)) <= U64_MAX {
          ServedPartsApart(ent, verb, headers, ranges);
        }
      }
    }
  }

  lemma AnswersApart(
    ent: Entity, verb: Method, pre: Preconditions, range: Option<Bytes>, clock: Clock, arith: Arithmetic)
    ensures var a := Answer(ent, verb, pre, range, false, clock, arith);
            var b := Answer(ent, verb, pre, range, true, clock, arith);
            var parsed := ParsedHeader(range, ent.len, arith);
            && (a.Panic? <==> b.Panic?)
            && (a.Returned? && pre == Evaluated(false, false) ==> parsed.Returned?)
            && (parsed.Returned? && parsed.value.Satisfiable? ==> Printable(parsed.value.ranges, ent.len))
            && (a.Returned? ==>
                  && (if pre == Evaluated(false, false) then EntityHeadersApart(ent, parsed.value, a.value, b.value)
                      else a == b)
                  && (a.value.status == 206 && b.value.status == 413 <==>
                      pre == Evaluated(false, false) && parsed.Returned? && TooLargeWithLines(ent, parsed.value)))
  {
    var parsed := ParsedHeader(range, ent.len, arith);
    ParsedPrintable(range, ent.len, arith);
    if pre == Evaluated(false, false) && parsed.Returned? {
      RangesApart(ent, verb, BaseHeaders(ent, clock), parsed.value);
    }
  }

  /**
   A matching `If-Range` changes exactly where the entity's headers appear in a partial response;
   and it turns 413 into 206 exactly when those headers are what makes the multipart
   length too large.
   */
  lemma MatchingIfRange(ent: Entity, req: Request, clock: Clock, arith: Arithmetic)
    requires req.ifRange.Some? && Validates(ent, req.ifRange.value) && req.verb != Other
    ensures var a := Serve(ent, req, clock, arith);
            var b := Serve(ent, req.(ifRange := None), clock, arith);
            var parsed := ParsedHeader(req.range, ent.len, arith);
            var proceeds := Evaluate(ConditionsOf(ent, req, clock)) == Evaluated(false, false);
            && (a.Panic? <==> b.Panic?)
            && (a.Returned? && proceeds ==> parsed.Returned?)
            && (parsed.Returned? && parsed.value.Satisfiable? ==> Printable(parsed.value.ranges, ent.len))
            && (a.Returned? ==>
                  && (if proceeds then EntityHeadersApart(ent, parsed.value, a.value, b.value) else a == b)
                  && (a.value.status == 206 && b.value.status == 413 <==>
                      proceeds && parsed.Returned? && TooLargeWithLines(ent, parsed.value)))
  {
    StrongIfRangeIff(ent, req.ifRange.value);
    assert ConditionsOf(ent, req, clock) == ConditionsOf(ent, req.(ifRange := None), clock);
    AnswersApart(ent, req.verb, Evaluate(ConditionsOf(ent, req, clock)), req.range, clock, arith);
  }
}
