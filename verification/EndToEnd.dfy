/**
 The whole path: a request is parsed and answered, and the response's body is polled to its end.
 */
module EndToEnd {
  import opened Prelude
  import opened Decimal
  import opened ByteRange
  import opened Streams
  import opened PartFormat
  import opened Serving
  import opened Answers
  import Multipart
  import PartDecoder
  import FileStream

  /** The number of bytes that a body plan promises. */
  function PlanSize(body: Body): (n: int)
    requires body.Exact? || body.Parts?
    ensures n >= 0
  {
    match body
    case Exact(r) => r.Size()
    case Parts(_, _, len) => len
  }

  /** The ranges whose bytes a body plan sends. */
  function PlanRanges(body: Body): seq<Slice>
    requires body.Exact? || body.Parts?
  {
    match body
    case Exact(r) => [r]
    case Parts(_, ranges, _) => ranges
  }

  /** A plan to send entity data, as `serve` builds it; `lines` are the headers repeated in each part. */
  ghost predicate WellPlanned(body: Body, len: u64, lines: Bytes) {
    match body
    case Exact(r) => r.Within(len)
    case Parts(headers, ranges, n) =>
      Printable(ranges, len) && headers == PartHeaders(ranges, len, lines) && n == BodyLength(ranges, len, lines)
    case _ => false
  }

  lemma RangesWellPlanned(ent: Entity, headers: seq<Header>, resolved: ResolvedRanges, repeated: bool)
    requires resolved.Satisfiable? ==> Printable(resolved.ranges, ent.len)
    ensures var res := ServeRanges(ent, Get, headers, resolved, repeated);
            res.body.Exact? || res.body.Parts? ==>
              && (res.status == 200 || res.status == 206)
              && (res.status == 200 ==> res.body == Serving.Exact(Range(0, ent.len)))
              && WellPlanned(res.body, ent.len, if repeated then HeaderLines(ent.headers) else [])
              && ("content-length", Dec(PlanSize(res.body))) in res.headers
  {
    var res := ServeRanges(ent, Get, headers, resolved, repeated);
    if res.body.Exact? && resolved.Satisfiable? && |resolved.ranges| == 1 {
      assert res.headers[|headers| + 1] == ("content-length", Dec(PlanSize(res.body)));
    } else if res.body.Exact? || res.body.Parts? {
      assert res.headers[|headers|] == ("content-length", Dec(PlanSize(res.body)));
    }
  }

  // ---------- polling the body ----------

  /** The entity's stream for each range hands out exactly that slice of `data`. */
  ghost predicate HonestStreams(data: Bytes, ranges: seq<Slice>, scripts: seq<seq<Event>>) {
    && |scripts| == |ranges|
    && AllWithin(ranges, |data|)
    && forall i :: 0 <= i < |ranges| ==>
         Honest(scripts[i], data[ranges[i].start..ranges[i].end])
  }

  function Slices(data: Bytes, ranges: seq<Slice>): (ss: seq<Bytes>)
    requires AllWithin(ranges, |data|)
    ensures |ss| == |ranges| && forall i :: 0 <= i < |ss| ==> ss[i] == data[ranges[i].start..ranges[i].end]
  {
    seq(|ranges|, i requires 0 <= i < |ranges| => data[ranges[i].start..ranges[i].end])
  }

  /** Polls the body of a plan to its first error or end. */
  ghost function BodyRun(body: Body, scripts: seq<seq<Event>>, arith: Arithmetic): (Bytes, Finish)
    requires body.Exact? ==> |scripts| == 1
    requires body.Parts? ==> Multipart.Inv(Multipart.Create(arith, body.headers, body.ranges, scripts, body.len))
    requires body.Exact? || body.Parts?
  {
    match body
    case Exact(r) => ExactDrain(Streams.Exact(scripts[0], r.Size()))
    case Parts(headers, ranges, len) =>
      var (bytes, fin, _) := Multipart.Drain(Multipart.Create(arith, headers, ranges, scripts, len)); (bytes, fin)
  }

  /** The text that a plan should send. */
  ghost function Expected(body: Body, data: Bytes): Bytes
    requires body.Exact? || body.Parts?
    requires AllWithin(PlanRanges(body), |data|)
    requires body.Parts? ==> |body.headers| == |body.ranges|
  {
    match body
    case Exact(r) => assert PlanRanges(body)[0] == r; data[r.start..r.end]
    case Parts(headers, ranges, _) => Multipart.Content(headers, Slices(data, ranges), 0)
  }

  /** Over honest streams every well-made plan sends exactly its text, and exactly as many bytes as it promises. */
  lemma PlanIsKept(
    body: Body, data: Bytes, len: u64, lines: Bytes, scripts: seq<seq<Event>>, arith: Arithmetic)
    requires len == |data| && WellPlanned(body, len, lines)
    requires HonestStreams(data, PlanRanges(body), scripts)
    ensures body.Parts? ==> Multipart.Inv(Multipart.Create(arith, body.headers, body.ranges, scripts, body.len))
    ensures BodyRun(body, scripts, arith) == (Expected(body, data), Completed)
    ensures |Expected(body, data)| == PlanSize(body)
  {
    match body {
      case Exact(r) =>
        ExactDrainMeaning(Streams.Exact(scripts[0], r.Size()));
      case Parts(headers, ranges, n) =>
        Multipart.HonestBody(arith, headers, ranges, scripts, Slices(data, ranges), n);
    }
  }

  /**
   The promise of a `GET` that sends entity data: whatever the request's headers, the chunking and
   the pauses, over honest streams the body is exactly what the response plans to send, it
   completes, and its length is the one in `Content-Length`; and an answer with status 200 sends the
   whole entity.
   */
  lemma GetKeepsItsPromise(
    ent: Entity, req: Request, clock: Clock, arith: Arithmetic, data: Bytes, scripts: seq<seq<Event>>)
    requires req.verb == Get && |data| == ent.len
    requires Serve(ent, req, clock, arith).Returned?
    requires var body := Serve(ent, req, clock, arith).value.body;
             (body.Exact? || body.Parts?) && HonestStreams(data, PlanRanges(body), scripts)
    ensures var res := Serve(ent, req, clock, arith).value;
            && (res.status == 200 || res.status == 206)
            && (res.body.Parts? ==>
                  |res.body.headers| == |res.body.ranges| &&
                  Multipart.Inv(Multipart.Create(arith, res.body.headers, res.body.ranges, scripts, res.body.len)))
            && BodyRun(res.body, scripts, arith) == (Expected(res.body, data), Completed)
            && ("content-length", Dec(|BodyRun(res.body, scripts, arith).0|)) in res.headers
            && (res.status == 200 ==> BodyRun(res.body, scripts, arith).0 == data)
  {
    var (range, repeated) := IfRange(ent, req);
    ParsedPrintable(range, ent.len, arith);
    var resolved := ParsedHeader(range, ent.len, arith).value;
    RangesWellPlanned(ent, BaseHeaders(ent, clock), resolved, repeated);
    var lines := if repeated then HeaderLines(ent.headers) else [];
    PlanIsKept(Serve(ent, req, clock, arith).value.body, data, ent.len, lines, scripts, arith);
  }

  // ---------- the whole entity ----------

  /** The honoured `Range` field leaves the whole entity to send. */
  predicate LeavesWhole(parsed: Outcome<ResolvedRanges>, len: u64) {
    parsed.Returned? && WholeAnyway(parsed.value, len)
  }

  /**
   A `GET` or `HEAD` that no precondition stops, and whose `Range` is absent, made void by `If-Range`,
   unreadable, or for several ranges with an estimate not below the entity's length, gets status
   200, the entity's length and all its headers; and a `GET` gets, over an honest stream, exactly
   the entity's bytes.
   */
  lemma WholeEntity(
    ent: Entity, req: Request, clock: Clock, arith: Arithmetic, data: Bytes, script: seq<Event>)
    requires req.verb != Other && Proceeds(ent, req, clock)
    requires LeavesWhole(ParsedHeader(Honoured(ent, req), ent.len, arith), ent.len)
    requires |data| == ent.len && Honest(script, data)
    ensures var res := Serve(ent, req, clock, arith);
            && res.Returned? && res.value.status == 200
            && res.value.headers == BaseHeaders(ent, clock) + [("content-length", Dec(ent.len))] + ent.headers
            && (req.verb == Head ==> res.value.body == Empty)
            && (req.verb == Get ==> res.value.body.Exact? && BodyRun(res.value.body, [script], arith) == (data, Completed))
  {
    EveryAnswer(ent, req, clock, arith);
    if req.verb == Get {
      var r := Range(0, ent.len);
      assert data[r.start..r.end] == data;
      PlanIsKept(Serving.Exact(r), data, ent.len, [], [script], arith);
    }
  }

  // ---------- range requests ----------

  /** A `GET` with nothing but a `Range` header. */
  function RangeRequest(header: Bytes): Request {
    Request(Get, None, None, None, None, None, Some(header))
  }

  lemma NothingElse(ent: Entity, header: Bytes, clock: Clock)
    ensures Proceeds(ent, RangeRequest(header), clock) && Honoured(ent, RangeRequest(header)) == Some(header)
  {
  }

  lemma OnlyRange(ent: Entity, header: Bytes, clock: Clock, arith: Arithmetic)
    ensures var parsed := ParsedHeader(Some(header), ent.len, arith);
            && (parsed.Returned? && parsed.value.Satisfiable? ==> Printable(parsed.value.ranges, ent.len))
            && Serve(ent, RangeRequest(header), clock, arith) ==
               if parsed.Panic? then Panic
               else Returned(ServeRanges(ent, Get, BaseHeaders(ent, clock), parsed.value, true))
  {
    ParsedPrintable(Some(header), ent.len, arith);
  }

  /**
   The answer to a `bytes=` header is 416 exactly when every piece of the list is dropped, and then
   it names the entity's length.
   */
  lemma UnsatisfiableIff(ent: Entity, header: Bytes, clock: Clock, arith: Arithmetic)
    requires VisibleAscii(header) && PREFIX <= header
    ensures var res := Serve(ent, RangeRequest(header), clock, arith);
            var fates := Fates(Split(header[|PREFIX|..], ','), ent.len, arith);
            && ((res.Returned? && res.value.status == 416) <==> AllDropped(fates))
            && (AllDropped(fates) ==>
                  res.Returned? && res.value.body == Empty &&
                  res.value.headers == BaseHeaders(ent, clock) + [("content-range", "bytes */" + Dec(ent.len))])
  {
    OnlyRange(ent, header, clock, arith);
    HeaderOutcome(header, ent.len, arith);
  }

  predicate AllDropped(fates: seq<Resolution>) {
    forall j :: 0 <= j < |fates| ==> fates[j].Dropped?
  }

  /**
   Asking for one ordinary range returns 206, a `Content-Range` from which the range and the total
   length are read back, the entity's headers, and exactly those bytes of the entity.
   */
  lemma OneRange(
    ent: Entity, spec: Spec, ows: Bytes, clock: Clock, arith: Arithmetic, data: Bytes, script: seq<Event>)
    requires |data| == ent.len && Ordinary(spec, ent.len) && AllOws(ows)
    requires var r := HalfOpen(spec, ent.len); Honest(script, data[r.start..r.end])
    ensures var res := Serve(ent, RangeRequest(RenderHeader([spec], [ows])), clock, arith);
            var r := HalfOpen(spec, ent.len);
            && res.Returned?
            && (exists value :: OneOf(ent, Get, BaseHeaders(ent, clock), r, true, value, res.value))
            && res.value.body.Exact? && BodyRun(res.value.body, [script], arith) == (data[r.start..r.end], Completed)
  {
    var header := RenderHeader([spec], [ows]);
    OrdinaryRoundTrip([spec], [ows], ent.len, arith);
    NothingElse(ent, header, clock);
    EveryAnswer(ent, RangeRequest(header), clock, arith);
    var r := HalfOpen(spec, ent.len);
    assert HalfOpens([spec], ent.len) == [r];
    PlanIsKept(Serving.Exact(r), data, ent.len, [], [script], arith);
  }

  // ---------- several ranges ----------

  /** A client's reader of body texts, once it has the response's header fields. */
  function ClientReader(headers: seq<Header>): Bytes -> Option<seq<PartDecoder.Part>> {
    (text: Bytes) => PartDecoder.DecodeResponse(headers, text)
  }

  lemma SliceSizes(data: Bytes, ranges: seq<Slice>)
    requires AllWithin(ranges, |data|)
    ensures forall i :: 0 <= i < |ranges| ==> |Slices(data, ranges)[i]| == ranges[i].Size()
  {
  }

  lemma {:induction false} NoValues(headers: seq<Header>, name: Bytes)
    requires forall i :: 0 <= i < |headers| ==> headers[i].0 != name
    ensures PartDecoder.Values(headers, name) == []
  {
    if headers != [] {
      NoValues(headers[1..], name);
    }
  }

  const TYPE: Bytes := "multipart/byteranges; boundary=B"

  lemma AddedTypes(length: Bytes)
    ensures PartDecoder.Values([("content-length", length), ("content-type", TYPE)], "content-type") == [TYPE]
  {
    var added := [("content-length", length)] + [("content-type", TYPE)];
    ValuesConcat([("content-length", length)], [("content-type", TYPE)], "content-type");
    OneValue(("content-length", length), "content-type");
    OneValue(("content-type", TYPE), "content-type");
    assert added == [("content-length", length), ("content-type", TYPE)];
  }

  lemma BoundaryOf(headers: seq<Header>)
    requires PartDecoder.Values(headers, "content-type") == [TYPE]
    ensures PartDecoder.Boundary(headers) == Some("B")
  {
    PartDecoder.AfterPrefix("multipart/byteranges; boundary=", "B");
    assert "multipart/byteranges; boundary=" + "B" == TYPE;
  }

  lemma NoCommonType(ent: Entity, clock: Clock, base: seq<Header>)
    requires CommonFields(ent, clock, base)
    ensures PartDecoder.Values(base, "content-type") == []
  {
    NoValues(base, "content-type");
  }

  /** The multipart response announces the boundary `B`. */
  lemma AnnouncedBoundary(ent: Entity, clock: Clock, base: seq<Header>, length: Bytes)
    requires CommonFields(ent, clock, base)
    ensures PartDecoder.Boundary(
              base + [("content-length", length), ("content-type", "multipart/byteranges; boundary=B")]) == Some("B")
  {
    NoCommonType(ent, clock, base);
    AddedTypes(length);
    ValuesConcat(base, [("content-length", length), ("content-type", TYPE)], "content-type");
    BoundaryOf(base + [("content-length", length), ("content-type", TYPE)]);
  }

  lemma ContentRecovers(headers: seq<Header>, data: Bytes, ranges: seq<Slice>, len: u64, h: seq<Header>)
    requires PartDecoder.Boundary(headers) == Some("B")
    requires len == |data| && AllWithin(ranges, len) && Printable(ranges, len)
    requires PartDecoder.OneLines(h)
    ensures ClientReader(headers)(
              Multipart.Content(PartHeaders(ranges, len, HeaderLines(h)), Slices(data, ranges), 0)) ==
            Some(PartDecoder.Parts(ranges, |data|, h, Slices(data, ranges), 0))
  {
    var bodies := Slices(data, ranges);
    SliceSizes(data, ranges);
    PartDecoder.DecodeContent(ranges, len, h, bodies);
  }

  /**
   A multipart body that, over the given streams, completes, and from whose text `read` recovers
   the ranges, the length of `data`, the repeated fields `h`, and the bytes of each range.
   */
  ghost predicate ReadBack(read: Bytes -> Option<seq<PartDecoder.Part>>, body: Body, ranges: seq<Slice>,
                           h: seq<Header>, data: Bytes, scripts: seq<seq<Event>>, arith: Arithmetic)
    requires AllWithin(ranges, |data|)
  {
    && body.Parts? && body.ranges == ranges
    && Multipart.Inv(Multipart.Create(arith, body.headers, ranges, scripts, body.len))
    && BodyRun(body, scripts, arith).1 == Completed
    && read(BodyRun(body, scripts, arith).0) == Some(PartDecoder.Parts(ranges, |data|, h, Slices(data, ranges), 0))
  }

  /** A multipart answer that a client reads back from its header fields and its body alone. */
  ghost predicate Recoverable(
    res: Response, ranges: seq<Slice>, h: seq<Header>, data: Bytes, scripts: seq<seq<Event>>, arith: Arithmetic)
    requires AllWithin(ranges, |data|)
  {
    res.status == 206 && ReadBack(ClientReader(res.headers), res.body, ranges, h, data, scripts, arith)
  }

  lemma PlanIsReadBack(
    read: Bytes -> Option<seq<PartDecoder.Part>>, ranges: seq<Slice>, headers: seq<Bytes>, n: u64, h: seq<Header>,
    data: Bytes, scripts: seq<seq<Event>>, arith: Arithmetic)
    requires |headers| == |ranges| && n == Multipart.Owed(headers, ranges, 0)
    requires HonestStreams(data, ranges, scripts)
    requires read(Multipart.Content(headers, Slices(data, ranges), 0)) ==
             Some(PartDecoder.Parts(ranges, |data|, h, Slices(data, ranges), 0))
    ensures ReadBack(read, Parts(headers, ranges, n), ranges, h, data, scripts, arith)
  {
    Multipart.HonestBody(arith, headers, ranges, scripts, Slices(data, ranges), n);
  }

  /** The header fields that each part repeats. */
  function Repeated(ent: Entity, withHeaders: bool): seq<Header> {
    if withHeaders then ent.headers else []
  }

  lemma PartsRecover(
    res: Response, ranges: seq<Slice>, len: u64, h: seq<Header>, n: u64, headers: seq<Bytes>, data: Bytes,
    scripts: seq<seq<Event>>, arith: Arithmetic)
    requires len == |data| && Printable(ranges, len) && HonestStreams(data, ranges, scripts)
    requires headers == PartHeaders(ranges, len, HeaderLines(h)) && n == BodyLength(ranges, len, HeaderLines(h))
    requires res.status == 206 && res.body == Parts(headers, ranges, n)
    requires PartDecoder.Boundary(res.headers) == Some("B") && PartDecoder.OneLines(h)
    ensures Recoverable(res, ranges, h, data, scripts, arith)
  {
    ContentRecovers(res.headers, data, ranges, len, h);
    PlanIsReadBack(ClientReader(res.headers), ranges, headers, n, h, data, scripts, arith);
  }

  lemma SeveralAre(
    ent: Entity, clock: Clock, base: seq<Header>, ranges: seq<Slice>, lines: Bytes, res: Response)
    returns (n: u64, headers: seq<Bytes>)
    requires Printable(ranges, ent.len) && SeveralOf(ent, Get, base, ranges, lines, res) && res.status != 413
    requires CommonFields(ent, clock, base)
    ensures n == BodyLength(ranges, ent.len, lines) && headers == PartHeaders(ranges, ent.len, lines)
    ensures res.status == 206 && res.body == Parts(headers, ranges, n)
    ensures PartDecoder.Boundary(res.headers) == Some("B")
  {
    n, headers := BodyLength(ranges, ent.len, lines), PartHeaders(ranges, ent.len, lines);
    AnnouncedBoundary(ent, clock, base, Dec(n));
  }

  lemma SeveralRecover(
    ent: Entity, clock: Clock, base: seq<Header>, ranges: seq<Slice>, h: seq<Header>, res: Response,
    data: Bytes, scripts: seq<seq<Event>>, arith: Arithmetic)
    requires Printable(ranges, ent.len) && SeveralOf(ent, Get, base, ranges, HeaderLines(h), res) && res.status != 413
    requires CommonFields(ent, clock, base)
    requires |data| == ent.len && HonestStreams(data, ranges, scripts)
    requires PartDecoder.OneLines(h)
    ensures Recoverable(res, ranges, h, data, scripts, arith)
  {
    var n, headers := SeveralAre(ent, clock, base, ranges, HeaderLines(h), res);
    PartsRecover(res, ranges, ent.len, h, n, headers, data, scripts, arith);
  }

  lemma SeveralAnswer(ent: Entity, req: Request, clock: Clock, arith: Arithmetic) returns (ranges: seq<Slice>)
    requires req.verb == Get && Serve(ent, req, clock, arith).Returned?
    requires Serve(ent, req, clock, arith).value.body.Parts?
    ensures ParsedHeader(Honoured(ent, req), ent.len, arith) == Returned(Satisfiable(ranges))
    ensures Printable(ranges, ent.len) && CommonFields(ent, clock, BaseHeaders(ent, clock))
    ensures SeveralOf(ent, Get, BaseHeaders(ent, clock), ranges, HeaderLines(Repeated(ent, req.ifRange.None?)),
                      Serve(ent, req, clock, arith).value)
  {
    EveryAnswer(ent, req, clock, arith);
    var parsed := ParsedHeader(Honoured(ent, req), ent.len, arith);
    ranges := parsed.value.ranges;
  }

  /**
   Every `GET` that is answered in several parts, whatever its conditions, its `If-Range` and the
   pieces of its `Range` field: over honest streams a client recovers, from the header fields and the
   body alone, exactly the ranges that the `Range` field resolves to, in order, with the entity's
   headers unless there is an `If-Range`, and with the entity's bytes for each.
   */
  lemma EveryMultipartRecovers(
    ent: Entity, req: Request, clock: Clock, arith: Arithmetic, data: Bytes, scripts: seq<seq<Event>>)
    requires req.verb == Get && |data| == ent.len && Serve(ent, req, clock, arith).Returned?
    requires var body := Serve(ent, req, clock, arith).value.body;
             body.Parts? && HonestStreams(data, body.ranges, scripts)
    requires PartDecoder.OneLines(ent.headers)
    ensures var res := Serve(ent, req, clock, arith).value;
            && ParsedHeader(Honoured(ent, req), ent.len, arith) == Returned(Satisfiable(res.body.ranges))
            && Recoverable(res, res.body.ranges, Repeated(ent, req.ifRange.None?), data, scripts, arith)
  {
    var ranges := SeveralAnswer(ent, req, clock, arith);
    SeveralRecover(ent, clock, BaseHeaders(ent, clock), ranges, Repeated(ent, req.ifRange.None?),
                   Serve(ent, req, clock, arith).value, data, scripts, arith);
  }

  /** The answer to several ranges: too large, or a body that a reader decodes to those ranges. */
  ghost predicate ServesParts(
    res: Response, ent: Entity, ranges: seq<Slice>, data: Bytes, scripts: seq<seq<Event>>, arith: Arithmetic)
    requires AllWithin(ranges, |data|) && Printable(ranges, ent.len)
  {
    && (res.status == 413 <==> BodyLength(ranges, ent.len, HeaderLines(ent.headers)) > U64_MAX)
    && (res.status != 413 ==> Recoverable(res, ranges, ent.headers, data, scripts, arith))
  }

  lemma OrdinaryPrintable(specs: seq<Spec>, len: u64)
    requires forall i :: 0 <= i < |specs| ==> Ordinary(specs[i], len)
    ensures Printable(HalfOpens(specs, len), len) && AllWithin(HalfOpens(specs, len), len)
  {
    var ranges := HalfOpens(specs, len);
    forall i | 0 <= i < |ranges|
      ensures ranges[i].Within(len) && ranges[i].end >= 1
    {
      assert ranges[i] == HalfOpen(specs[i], len);
    }
  }

  /**
   Asking for several ordinary ranges: the parts, unless their length does not fit a `u64`, exactly
   when the estimate is below the entity's length, else the whole entity.
   */
  lemma SeveralRangesPlan(ent: Entity, specs: seq<Spec>, ows: seq<Bytes>, clock: Clock, arith: Arithmetic)
    requires |specs| == |ows| >= 2
    requires forall i :: 0 <= i < |ows| ==> AllOws(ows[i])
    requires forall i :: 0 <= i < |specs| ==> Ordinary(specs[i], ent.len)
    ensures var ranges := HalfOpens(specs, ent.len);
            var res := Serve(ent, RangeRequest(RenderHeader(specs, ows)), clock, arith);
            && Printable(ranges, ent.len) && res.Returned?
            && CommonFields(ent, clock, BaseHeaders(ent, clock))
            && if TrueEstimate(ranges) < ent.len
               then SeveralOf(ent, Get, BaseHeaders(ent, clock), ranges, HeaderLines(ent.headers), res.value)
               else Whole(ent, Get, BaseHeaders(ent, clock), res.value)
  {
    OrdinaryRoundTrip(specs, ows, ent.len, arith);
    NothingElse(ent, RenderHeader(specs, ows), clock);
    EveryAnswer(ent, RangeRequest(RenderHeader(specs, ows)), clock, arith);
    OrdinaryPrintable(specs, ent.len);
  }

  /**
   Asking for several ordinary ranges, when the estimate favours it, returns a body from which a
   reader recovers exactly those ranges, in order, with the entity's bytes for each.
   */
  lemma SeveralRanges(
    ent: Entity, specs: seq<Spec>, ows: seq<Bytes>, clock: Clock, arith: Arithmetic, data: Bytes,
    ranges: seq<Slice>, scripts: seq<seq<Event>>)
    requires |data| == ent.len && |specs| == |ows| >= 2
    requires forall i :: 0 <= i < |ows| ==> AllOws(ows[i])
    requires forall i :: 0 <= i < |specs| ==> Ordinary(specs[i], ent.len)
    requires ranges == HalfOpens(specs, ent.len) && TrueEstimate(ranges) < ent.len
    requires HonestStreams(data, ranges, scripts)
    requires PartDecoder.OneLines(ent.headers)
    ensures Printable(ranges, ent.len)
    ensures var res := Serve(ent, RangeRequest(RenderHeader(specs, ows)), clock, arith);
            res.Returned? && ServesParts(res.value, ent, ranges, data, scripts, arith)
  {
    SeveralRangesPlan(ent, specs, ows, clock, arith);
    var res := Serve(ent, RangeRequest(RenderHeader(specs, ows)), clock, arith);
    SeveralAreServed(ent, clock, BaseHeaders(ent, clock), ranges, res.value, data, scripts, arith);
  }

  lemma SeveralAreServed(
    ent: Entity, clock: Clock, base: seq<Header>, ranges: seq<Slice>, res: Response, data: Bytes,
    scripts: seq<seq<Event>>, arith: Arithmetic)
    requires Printable(ranges, ent.len) && SeveralOf(ent, Get, base, ranges, HeaderLines(ent.headers), res)
    requires CommonFields(ent, clock, base)
    requires |data| == ent.len && HonestStreams(data, ranges, scripts) && PartDecoder.OneLines(ent.headers)
    ensures ServesParts(res, ent, ranges, data, scripts, arith)
  {
    if res.status != 413 {
      SeveralRecover(ent, clock, base, ranges, ent.headers, res, data, scripts, arith);
    }
  }

  // ---------- one small request ----------

  /** `bytes=0-0,2-2` */
  const SMALL_REQUEST: Request := RangeRequest(RenderHeader([FromTo(0, 0), FromTo(2, 2)], [[], []]))

  lemma SmallPlan(ent: Entity, clock: Clock, arith: Arithmetic)
    requires ent.len >= 163
    ensures Printable(FIRST_AND_THIRD, ent.len)
    ensures var res := Serve(ent, SMALL_REQUEST, clock, arith);
            && res.Returned?
            && SeveralOf(ent, Get, BaseHeaders(ent, clock), FIRST_AND_THIRD, HeaderLines(ent.headers), res.value)
  {
    var specs := [FromTo(0, 0), FromTo(2, 2)];
    SeveralRangesPlan(ent, specs, [[], []], clock, arith);
    var ranges := HalfOpens(specs, ent.len);
    assert ranges == FIRST_AND_THIRD by {
      assert ranges[0] == HalfOpen(specs[0], ent.len) && ranges[1] == HalfOpen(specs[1], ent.len);
    }
    FirstAndThird(ent.len);
    WorthIff(FIRST_AND_THIRD, ent.len);
  }

  /** The response to that request can be longer than the entity: its 200 bytes have one header of 80 bytes. */
  lemma LongerThanEntity(clock: Clock, arith: Arithmetic)
    ensures var res := Serve(Entity(200, None, None, [LONG_HEADER]), SMALL_REQUEST, clock, arith);
            res.Returned? && res.value.status == 206 && res.value.body.Parts? && res.value.body.len > 200
  {
    SmallPlan(Entity(200, None, None, [LONG_HEADER]), clock, arith);
    EstimateCanMislead();
  }

  const PANIC_ENTITY: Entity := Entity(1000, None, None, [])

  lemma SmallLengthFits()
    ensures Printable(FIRST_AND_THIRD, 1000) && 0 <= BodyLength(FIRST_AND_THIRD, 1000, []) <= U64_MAX
  {
    FirstAndThird(1000);
    OverflowUnreachable(FIRST_AND_THIRD, 1000, []);
    Multipart.OwedAtLeastTrailer(PartHeaders(FIRST_AND_THIRD, 1000, []), FIRST_AND_THIRD, 0);
  }

  /**
   A request and an entity that show the panic: `bytes=0-0,2-2` of 1000 bytes is served as
   multipart, and when the stream of the first range hands out two bytes, the third poll panics.
   */
  lemma OverlongPartPanics(clock: Clock, arith: Arithmetic)
    ensures Serve(PANIC_ENTITY, SMALL_REQUEST, clock, arith).Returned?
    ensures var body := Serve(PANIC_ENTITY, SMALL_REQUEST, clock, arith).value.body;
            && body.Parts?
            && Multipart.ThirdPollPanics(
                 Multipart.Create(arith, body.headers, body.ranges, [[Chunk("ab")], []], body.len), 1)
  {
    PanicPlan(clock, arith);
    SmallLengthFits();
    FirstPartTooLong(arith, PartHeaders(FIRST_AND_THIRD, 1000, []), BodyLength(FIRST_AND_THIRD, 1000, []));
  }

  lemma PanicPlan(clock: Clock, arith: Arithmetic)
    ensures Printable(FIRST_AND_THIRD, 1000) && 0 <= BodyLength(FIRST_AND_THIRD, 1000, []) <= U64_MAX
    ensures Serve(PANIC_ENTITY, SMALL_REQUEST, clock, arith).Returned?
    ensures Serve(PANIC_ENTITY, SMALL_REQUEST, clock, arith).value.body ==
            Parts(PartHeaders(FIRST_AND_THIRD, 1000, []), FIRST_AND_THIRD, BodyLength(FIRST_AND_THIRD, 1000, []))
  {
    SmallPlan(PANIC_ENTITY, clock, arith);
    SmallLengthFits();
  }

  lemma FirstPartTooLong(arith: Arithmetic, headers: seq<Bytes>, len: u64)
    requires |headers| == 2 && len == Multipart.Owed(headers, FIRST_AND_THIRD, 0)
    ensures Multipart.ThirdPollPanics(Multipart.Create(arith, headers, FIRST_AND_THIRD, [[Chunk("ab")], []], len), 1)
  {
    Multipart.OverlongFirstPart(Multipart.Create(arith, headers, FIRST_AND_THIRD, [[Chunk("ab")], []], len), "ab");
  }

  // ---------- files ----------

  /** Reads of one range that succeed and are enough to reach its end. */
  predicate ReadToEnd(file: Bytes, r: Slice, results: seq<FileStream.ReadResult>) {
    FileStream.AllLegal(file, r, results) && FileStream.NoErrors(results) && |results| >= r.Size()
  }

  /** `scripts` are the streams of a file entity for `ranges`, when its reads answer `results`. */
  ghost predicate FileStreams(
    file: Bytes, ranges: seq<Slice>, results: seq<seq<FileStream.ReadResult>>, scripts: seq<seq<Event>>)
  {
    && |results| == |ranges| == |scripts|
    && forall i :: 0 <= i < |ranges| ==>
         ReadToEnd(file, ranges[i], results[i]) && scripts[i] == FileStream.Script(file, ranges[i], results[i])
  }

  lemma FileStreamIsHonest(file: Bytes, r: Slice, results: seq<FileStream.ReadResult>)
    requires r.end <= |file| && ReadToEnd(file, r, results)
    ensures Honest(FileStream.Script(file, r, results), file[r.start..r.end])
  {
    FileStream.StreamIsSlice(file, r, results);
  }

  /** The streams of a file entity are honest as long as its reads succeed and reach the end of each range. */
  lemma FileStreamsAreHonest(
    file: Bytes, ranges: seq<Slice>, results: seq<seq<FileStream.ReadResult>>, scripts: seq<seq<Event>>)
    requires AllWithin(ranges, |file|) && FileStreams(file, ranges, results, scripts)
    ensures HonestStreams(file, ranges, scripts)
  {
    forall i | 0 <= i < |ranges|
      ensures Honest(scripts[i], file[ranges[i].start..ranges[i].end])
    {
      FileStreamIsHonest(file, ranges[i], results[i]);
    }
  }
}
