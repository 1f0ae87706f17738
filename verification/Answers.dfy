/**
 Every answer of `serve_inner`, written down by itself: the status, all header fields and the body,
 for each way in which the preconditions and the ranges can turn out.
 */
module Answers {
  import opened Prelude
  import opened Decimal
  import opened ByteRange
  import opened PartFormat
  import opened Serving
  import Multipart
  import PartDecoder

  // ---------- the common headers ----------

  /** `shown` is the modification time, or the present if that is earlier (section 2.2.1 of RFC 7232). */
  predicate ClampedTo(shown: int, modified: int, now: int) {
    shown <= modified && shown <= now && (shown == modified || shown == now)
  }

  /** The fields with these four names that an answer begins with. */
  ghost predicate CommonFields(ent: Entity, clock: Clock, h: seq<Header>) {
    && PartDecoder.Values(h, "accept-ranges") == ["bytes"]
    && PartDecoder.Values(h, "etag") == (if ent.etag.Some? then [ent.etag.value] else [])
    && (ent.lastModified.None? ==> PartDecoder.Values(h, "date") == PartDecoder.Values(h, "last-modified") == [])
    && (ent.lastModified.Some? ==>
          && PartDecoder.Values(h, "date") == [clock.format(clock.now)]
          && exists shown :: ClampedTo(shown, ent.lastModified.value, clock.now) &&
                             PartDecoder.Values(h, "last-modified") == [clock.format(shown)])
    && forall i :: 0 <= i < |h| ==> h[i].0 in ["accept-ranges", "etag", "date", "last-modified"]
  }

  lemma {:induction false} ValuesConcat(a: seq<Header>, b: seq<Header>, name: Bytes)
    ensures PartDecoder.Values(a + b, name) == PartDecoder.Values(a, name) + PartDecoder.Values(b, name)
  {
    if a == [] {
      assert a + b == b;
    } else {
      assert (a + b)[1..] == a[1..] + b;
      ValuesConcat(a[1..], b, name);
    }
  }

  lemma OneValue(h: Header, name: Bytes)
    ensures PartDecoder.Values([h], name) == if h.0 == name then [h.1] else []
  {
    assert PartDecoder.Values([h][1..], name) == [];
  }

  function DateHeaders(date: Bytes, modified: Bytes): seq<Header> {
    [("date", date), ("last-modified", modified)]
  }

  lemma DateValues(date: Bytes, modified: Bytes, name: Bytes)
    ensures PartDecoder.Values(DateHeaders(date, modified), name) ==
            if name == "date" then [date] else if name == "last-modified" then [modified] else []
  {
    var h := DateHeaders(date, modified);
    assert h == [h[0]] + [h[1]];
    OneValue(h[0], name);
    OneValue(h[1], name);
    ValuesConcat([h[0]], [h[1]], name);
  }

  /** The parts of the common headers. */
  function Dates(ent: Entity, clock: Clock, shown: int): seq<Header> {
    if ent.lastModified.None? then [] else DateHeaders(clock.format(clock.now), clock.format(shown))
  }

  function Tags(ent: Entity): seq<Header> {
    if ent.etag.None? then [] else [("etag", ent.etag.value)]
  }

  function CommonList(ent: Entity, clock: Clock, shown: int): seq<Header> {
    [("accept-ranges", "bytes")] + Dates(ent, clock, shown) + Tags(ent)
  }

  lemma CommonValues(ent: Entity, clock: Clock, shown: int, name: Bytes)
    ensures PartDecoder.Values(CommonList(ent, clock, shown), name) ==
            (if name == "accept-ranges" then ["bytes"] else []) +
            PartDecoder.Values(Dates(ent, clock, shown), name) + PartDecoder.Values(Tags(ent), name)
  {
    ValuesConcat([("accept-ranges", "bytes")] + Dates(ent, clock, shown), Tags(ent), name);
    ValuesConcat([("accept-ranges", "bytes")], Dates(ent, clock, shown), name);
    OneValue(("accept-ranges", "bytes"), name);
  }

  lemma TagValues(ent: Entity, name: Bytes)
    ensures PartDecoder.Values(Tags(ent), name) == if name == "etag" && ent.etag.Some? then [ent.etag.value] else []
  {
    if ent.etag.Some? {
      OneValue(("etag", ent.etag.value), name);
    }
  }

  /** The one value that the field `name` has, if it has one. */
  function CommonValue(ent: Entity, clock: Clock, shown: int, name: Bytes): Option<Bytes> {
    if name == "accept-ranges" then Some("bytes")
    else if name == "etag" then ent.etag
    else if ent.lastModified.None? then None
    else if name == "date" then Some(clock.format(clock.now))
    else if name == "last-modified" then Some(clock.format(shown))
    else None
  }

  lemma CommonValueIs(ent: Entity, clock: Clock, shown: int, name: Bytes)
    ensures PartDecoder.Values(CommonList(ent, clock, shown), name) ==
            match CommonValue(ent, clock, shown, name) case None => [] case Some(v) => [v]
  {
    CommonValues(ent, clock, shown, name);
    TagValues(ent, name);
    if ent.lastModified.Some? {
      DateValues(clock.format(clock.now), clock.format(shown), name);
    }
  }

  lemma CommonNames(ent: Entity, clock: Clock, shown: int)
    ensures var h := CommonList(ent, clock, shown);
            forall i :: 0 <= i < |h| ==> h[i].0 in ["accept-ranges", "etag", "date", "last-modified"]
  {
  }

  lemma CommonListMeaning(ent: Entity, clock: Clock, shown: int, h: seq<Header>)
    requires h == CommonList(ent, clock, shown)
    requires ent.lastModified.Some? ==> ClampedTo(shown, ent.lastModified.value, clock.now)
    ensures CommonFields(ent, clock, h)
  {
    CommonValueIs(ent, clock, shown, "accept-ranges");
    CommonValueIs(ent, clock, shown, "etag");
    CommonValueIs(ent, clock, shown, "date");
    CommonValueIs(ent, clock, shown, "last-modified");
    CommonNames(ent, clock, shown);
  }

  lemma BaseHeadersMeaning(ent: Entity, clock: Clock)
    ensures CommonFields(ent, clock, BaseHeaders(ent, clock))
  {
    var shown := match ent.lastModified case None => 0 case Some(m) => if m <= clock.now then m else clock.now;
    CommonListMeaning(ent, clock, shown, BaseHeaders(ent, clock));
  }

  // ---------- the answers ----------

  /** The whole entity. */
  ghost predicate Whole(ent: Entity, verb: Method, base: seq<Header>, res: Response) {
    && res.status == 200
    && res.headers == base + [("content-length", Dec(ent.len))] + ent.headers
    && res.body == if verb == Head then Empty else Exact(Range(0, ent.len))
  }

  /** One range, which a reader of its `Content-Range` finds. */
  ghost predicate OneOf(
    ent: Entity, verb: Method, base: seq<Header>, r: Slice, withHeaders: bool, value: Bytes, res: Response)
    requires r.end >= 1
  {
    && PartDecoder.ReadContentRange(value) == Some((r.start, r.end - 1, ent.len))
    && res.status == 206
    && res.headers ==
       base + [("content-range", value), ("content-length", Dec(r.Size()))] + (if withHeaders then ent.headers else [])
    && res.body == if verb == Head then Empty else Exact(r)
  }

  /** Several parts, unless their length does not fit a `u64`. */
  ghost predicate SeveralOf(
    ent: Entity, verb: Method, base: seq<Header>, ranges: seq<Slice>, lines: Bytes, res: Response)
    requires Printable(ranges, ent.len)
  {
    var n := BodyLength(ranges, ent.len, lines);
    if n > U64_MAX then res == Response(413, [], Text("Multipart response too large"))
    else
      && n >= 0
      && res.status == 206
      && res.headers ==
         base + [("content-length", Dec(n)), ("content-type", "multipart/byteranges; boundary=B")]
      && res.body == if verb == Head then Empty else Parts(PartHeaders(ranges, ent.len, lines), ranges, n)
  }

  /** Nothing that can be served. */
  ghost predicate NothingOf(ent: Entity, base: seq<Header>, res: Response) {
    res == Response(416, base + [("content-range", "bytes */" + Dec(ent.len))], Empty)
  }

  /** The answer that the resolved ranges call for. */
  ghost predicate Resolved(
    ent: Entity, verb: Method, base: seq<Header>, resolved: ResolvedRanges, withHeaders: bool, res: Response)
    requires resolved.Satisfiable? ==> Printable(resolved.ranges, ent.len)
  {
    match resolved
    case NoRanges => Whole(ent, verb, base, res)
    case NotSatisfiable => NothingOf(ent, base, res)
    case Satisfiable(ranges) =>
      if |ranges| == 1 then exists value :: OneOf(ent, verb, base, ranges[0], withHeaders, value, res)
      else if TrueEstimate(ranges) < ent.len then
        SeveralOf(ent, verb, base, ranges, if withHeaders then HeaderLines(ent.headers) else [], res)
      else Whole(ent, verb, base, res)
  }

  lemma WholeServed(ent: Entity, verb: Method, base: seq<Header>)
    ensures Whole(ent, verb, base, ServeWhole(ent, verb, base))
  {
  }

  lemma OneServed(ent: Entity, verb: Method, base: seq<Header>, r: Slice, withHeaders: bool)
    requires r.end >= 1
    ensures var res := ServeRange(ent, verb, 206, base + [ContentRange(r, ent.len)], r, withHeaders);
            OneOf(ent, verb, base, r, withHeaders, ContentRange(r, ent.len).1, res)
  {
    PartDecoder.ReadPrintedRange(r.start, r.end - 1, ent.len);
    var value := ContentRange(r, ent.len).1;
    assert base + [("content-range", value)] + [("content-length", Dec(r.Size()))] ==
           base + [("content-range", value), ("content-length", Dec(r.Size()))];
  }

  lemma SeveralServed(ent: Entity, verb: Method, base: seq<Header>, ranges: seq<Slice>, withHeaders: bool)
    requires Printable(ranges, ent.len)
    ensures SeveralOf(ent, verb, base, ranges, if withHeaders then HeaderLines(ent.headers) else [],
                      ServeParts(ent, verb, base, ranges, withHeaders))
  {
    var lines := if withHeaders then HeaderLines(ent.headers) else [];
    Multipart.OwedAtLeastTrailer(PartHeaders(ranges, ent.len, lines), ranges, 0);
  }

  lemma RangesServed(ent: Entity, verb: Method, base: seq<Header>, resolved: ResolvedRanges, withHeaders: bool)
    requires resolved.Satisfiable? ==> Printable(resolved.ranges, ent.len)
    ensures Resolved(ent, verb, base, resolved, withHeaders, ServeRanges(ent, verb, base, resolved, withHeaders))
  {
    WholeServed(ent, verb, base);
    if resolved.Satisfiable? {
      WorthIff(resolved.ranges, ent.len);
      if |resolved.ranges| == 1 {
        OneServed(ent, verb, base, resolved.ranges[0], withHeaders);
      } else {
        SeveralServed(ent, verb, base, resolved.ranges, withHeaders);
      }
    }
  }

  /** No precondition stops the request. */
  predicate Proceeds(ent: Entity, req: Request, clock: Clock) {
    Evaluate(ConditionsOf(ent, req, clock)) == Evaluated(false, false)
  }

  /**
   Every `GET` or `HEAD` that no precondition stops is answered by what its honoured `Range` field
   resolves to: the whole entity, one range, several, or none; and it panics only with the parser.
   A partial answer has the entity's headers exactly when there is no `If-Range`.
   */
  lemma EveryAnswer(ent: Entity, req: Request, clock: Clock, arith: Arithmetic)
    requires req.verb != Other && Proceeds(ent, req, clock)
    ensures var parsed := ParsedHeader(Honoured(ent, req), ent.len, arith);
            var res := Serve(ent, req, clock, arith);
            match parsed
            case Panic => res == Panic
            case Returned(resolved) =>
              && (resolved.Satisfiable? ==> Printable(resolved.ranges, ent.len))
              && res.Returned?
              && CommonFields(ent, clock, BaseHeaders(ent, clock))
              && Resolved(ent, req.verb, BaseHeaders(ent, clock), resolved, req.ifRange.None?, res.value)
  {
    BaseHeadersMeaning(ent, clock);
    var range := Honoured(ent, req);
    ParsedPrintable(range, ent.len, arith);
    var repeated := IfRange(ent, req).1;
    HonouredIs(ent, req);
    var parsed := ParsedHeader(range, ent.len, arith);
    if parsed.Returned? {
      RangesServed(ent, req.verb, BaseHeaders(ent, clock), parsed.value, repeated);
    }
  }

  lemma HonouredIs(ent: Entity, req: Request)
    ensures IfRange(ent, req).0 == Honoured(ent, req)
    ensures Honoured(ent, req).None? || IfRange(ent, req).1 == req.ifRange.None?
  {
    if req.ifRange.Some? {
      StrongIfRangeIff(ent, req.ifRange.value);
    }
  }

  /** Other methods are refused. */
  lemma OtherMethods(ent: Entity, req: Request, clock: Clock, arith: Arithmetic)
    ensures req.verb == Other ==>
              Serve(ent, req, clock, arith) ==
              Returned(Response(405, [("allow", "get, head")], Text("This resource only supports GET and HEAD.")))
    ensures req.verb != Other ==>
              var res := Serve(ent, req, clock, arith);
              res.Returned? ==> res.value.status != 405
  {
    if req.verb != Other {
      var (range, repeated) := IfRange(ent, req);
      ParsedPrintable(range, ent.len, arith);
    }
  }
}
