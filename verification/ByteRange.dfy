/**
 `src/range.rs`: parsing a `Range:` header and resolving it against an entity length.

 `Parse` is the loop of the source.  It is proved to compute `ParsedHeader`, which reads each
 comma-separated piece into a `Spec` and only then resolves the spec.  `RfcRange` compares that
 with section 2.1 of RFC 7233.
 */
module ByteRange {
  import opened Prelude
  import opened Decimal

  datatype ResolvedRanges = NoRanges | NotSatisfiable | Satisfiable(ranges: seq<Slice>)

  /** byte-range-spec and suffix-byte-range-spec of RFC 7233. */
  datatype Spec = FromTo(first: u64, last: u64) | From(first: u64) | Suffix(length: u64)

  /** What becomes of one comma-separated piece. */
  datatype Resolution = Kept(range: Slice) | Dropped | Overflowed | Unparseable

  const PREFIX: Bytes := "bytes="

  // ---------- text helpers ----------

  predicate IsVisible(c: char) {
    ' ' <= c <= '~' || c == '\t'
  }

  /** `HeaderValue::to_str` succeeds. */
  predicate VisibleAscii(s: Bytes) {
    forall i :: 0 <= i < |s| ==> IsVisible(s[i])
  }

  /** `str::split(c)`: always at least one piece. */
  function Split(s: Bytes, c: char): (pieces: seq<Bytes>)
    ensures pieces != []
    decreases |s|
  {
    var i := Find(s, c);
    if i == |s| then [s] else [s[..i]] + Split(s[i + 1..], c)
  }

  function Join(pieces: seq<Bytes>, c: char): Bytes
    requires pieces != []
  {
    if |pieces| == 1 then pieces[0] else pieces[0] + [c] + Join(pieces[1..], c)
  }

  // ---------- the specification ----------

  /** The spec that one comma-separated piece spells, if it spells one. */
  function ReadSpec(piece: Bytes): Option<Spec> {
    ReadTrimmed(SkipOws(piece))
  }

  function ReadTrimmed(t: Bytes): Option<Spec> {
    var h := Find(t, '-');
    if h == |t| then None
    else if h == 0 then
      match ParseU64(t[1..])
      case None => None
      case Some(n) => Some(Suffix(n))
    else
      match ParseU64(t[..h])
      case None => None
      case Some(a) =>
        if h + 1 == |t| then Some(From(a))
        else
          match ParseU64(t[h + 1..])
          case None => None
          case Some(b) => Some(FromTo(a, b))
  }

  /** `last + 1` on a `u64`. */
  function PlusOne(last: u64, arith: Arithmetic): Option<u64> {
    if last < U64_MAX then Some(last + 1)
    else if arith.Checked? then None
    else Some(0)
  }

  function Min(a: u64, b: u64): u64 {
    if a <= b then a else b
  }

  function KeepNonEmpty(start: u64, end: u64): Resolution {
    if start >= end then Dropped else Kept(Range(start, end))
  }

  function Resolve(spec: Spec, len: u64, arith: Arithmetic): Resolution {
    match spec
    case Suffix(n) => if n >= len then Dropped else Kept(Range(len - n, len))
    case From(a) => KeepNonEmpty(a, len)
    case FromTo(a, b) =>
      match PlusOne(b, arith)
      case None => Overflowed
      case Some(end) => KeepNonEmpty(a, Min(end, len))
  }

  function FateOf(read: Option<Spec>, len: u64, arith: Arithmetic): Resolution {
    match read
    case None => Unparseable
    case Some(spec) => Resolve(spec, len, arith)
  }

  function Fate(piece: Bytes, len: u64, arith: Arithmetic): Resolution {
    FateOf(ReadSpec(piece), len, arith)
  }

  function Fates(pieces: seq<Bytes>, len: u64, arith: Arithmetic): (fs: seq<Resolution>)
    ensures |fs| == |pieces| && forall i :: 0 <= i < |pieces| ==> fs[i] == Fate(pieces[i], len, arith)
  {
    seq(|pieces|, i requires 0 <= i < |pieces| => Fate(pieces[i], len, arith))
  }

  /** Goes through the pieces in order; the first unparseable or overflowing one decides. */
  function Combine(fates: seq<Resolution>): Outcome<Option<seq<Slice>>> {
    if fates == [] then Returned(Some([]))
    else
      match fates[0]
      case Unparseable => Returned(None)
      case Overflowed => Panic
      case Dropped => Combine(fates[1..])
      case Kept(r) => Prepend([r], Combine(fates[1..]))
  }

  function Prepend(rs: seq<Slice>, rest: Outcome<Option<seq<Slice>>>): Outcome<Option<seq<Slice>>> {
    if rest.Returned? && rest.value.Some? then Returned(Some(rs + rest.value.value)) else rest
  }

  lemma PrependNothing(rest: Outcome<Option<seq<Slice>>>)
    ensures Prepend([], rest) == rest
  {
    if rest.Returned? && rest.value.Some? {
      assert [] + rest.value.value == rest.value.value;
    }
  }

  lemma PrependSnoc(rs: seq<Slice>, r: Slice, rest: Outcome<Option<seq<Slice>>>)
    ensures Prepend(rs, Prepend([r], rest)) == Prepend(rs + [r], rest)
  {
    if rest.Returned? && rest.value.Some? {
      assert rs + ([r] + rest.value.value) == rs + [r] + rest.value.value;
    }
  }

  function Conclude(found: Outcome<Option<seq<Slice>>>): Outcome<ResolvedRanges> {
    match found
    case Panic => Panic
    case Returned(None) => Returned(NoRanges)
    case Returned(Some(rs)) => Returned(if rs == [] then NotSatisfiable else Satisfiable(rs))
  }

  function ParsedHeader(header: Option<Bytes>, len: u64, arith: Arithmetic): Outcome<ResolvedRanges> {
    if header.None? || !VisibleAscii(header.value) || !(PREFIX <= header.value) then Returned(NoRanges)
    else Conclude(Combine(Fates(Split(header.value[|PREFIX|..], ','), len, arith)))
  }

  // ---------- the code ----------

  method Parse(header: Option<Bytes>, len: u64, arith: Arithmetic) returns (res: Outcome<ResolvedRanges>)
    ensures res == ParsedHeader(header, len, arith)
  {
    if header.None? || !VisibleAscii(header.value) {
      return Returned(NoRanges);
    }
    if !(PREFIX <= header.value) {
      return Returned(NoRanges);
    }
    var pieces := Split(header.value[|PREFIX|..], ',');
    var ranges: seq<Slice> := [];
    var k := 0;
    ghost var fates := Fates(pieces, len, arith);
    assert fates[0..] == fates;
    PrependNothing(Combine(fates));
    while k < |pieces|
      invariant 0 <= k <= |pieces|
      invariant Combine(fates) == Prepend(ranges, Combine(fates[k..]))
    {
      assert fates[k..][0] == Fate(pieces[k], len, arith) && fates[k..][1..] == fates[k + 1..];
      var fate := ParsePiece(pieces[k], len, arith);
      k := k + 1;
      match fate {
        case Unparseable => return Returned(NoRanges);
        case Overflowed => return Panic;
        case Dropped => continue;
        case Kept(r) =>
          PrependSnoc(ranges, r, Combine(fates[k..]));
          ranges := ranges + [r];
      }
    }
    assert Combine(fates[k..]) == Returned(Some([]));
    assert ranges + [] == ranges;
    if ranges != [] {
      return Returned(Satisfiable(ranges));
    }
    return Returned(NotSatisfiable);
  }

  /** The loop body for one piece. */
  method ParsePiece(piece: Bytes, len: u64, arith: Arithmetic) returns (fate: Resolution)
    ensures fate == Fate(piece, len, arith)
  {
    var r := SkipOws(piece);
    var hyphen := Find(r, '-');
    if hyphen == |r| {
      return Unparseable;
    }
    if hyphen == 0 {
      var last := ParseU64(r[1..]);
      if last.None? {
        return Unparseable;
      }
      if last.value >= len {
        return Dropped;
      }
      return Kept(Range(len - last.value, len));
    }
    var first := ParseU64(r[..hyphen]);
    if first.None? {
      return Unparseable;
    }
    var end := len;
    if |r| > hyphen + 1 {
      var last := ParseU64(r[hyphen + 1..]);
      if last.None? {
        return Unparseable;
      }
      var next := PlusOne(last.value, arith);
      if next.None? {
        return Overflowed;
      }
      end := Min(next.value, len);
    }
    if first.value >= end {
      return Dropped;
    }
    return Kept(Range(first.value, end));
  }

  // ---------- all or nothing ----------

  predicate Settled(f: Resolution) {
    f.Kept? || f.Dropped?
  }

  /** The first piece that does not resolve, or the number of pieces. */
  function FirstBad(fates: seq<Resolution>): (k: nat)
    ensures k <= |fates|
    ensures forall j :: 0 <= j < k ==> Settled(fates[j])
    ensures k < |fates| ==> !Settled(fates[k])
  {
    if fates == [] || !Settled(fates[0]) then 0 else 1 + FirstBad(fates[1..])
  }

  /** One bad piece anywhere discards every range, and the first bad piece says how. */
  lemma {:induction false} AllOrNothing(fates: seq<Resolution>)
    ensures var res, k := Combine(fates), FirstBad(fates);
            && (res == Returned(None) <==> k < |fates| && fates[k].Unparseable?)
            && (res == Panic <==> k < |fates| && fates[k].Overflowed?)
            && (res == Returned(Some([])) <==> forall j :: 0 <= j < |fates| ==> fates[j].Dropped?)
  {
    if fates != [] && Settled(fates[0]) {
      AllOrNothing(fates[1..]);
    }
  }

  /**
   No ranges exactly when the first bad piece is unreadable, a panic exactly when it overflows,
   and unsatisfiable exactly when every piece is dropped.
   */
  ghost predicate DecidedBy(res: Outcome<ResolvedRanges>, fates: seq<Resolution>) {
    var k := FirstBad(fates);
    && (res == Returned(NoRanges) <==> k < |fates| && fates[k].Unparseable?)
    && (res == Panic <==> k < |fates| && fates[k].Overflowed?)
    && (res == Returned(NotSatisfiable) <==> forall j :: 0 <= j < |fates| ==> fates[j].Dropped?)
  }

  lemma ConclusionDecided(fates: seq<Resolution>)
    ensures DecidedBy(Conclude(Combine(fates)), fates)
  {
    AllOrNothing(fates);
  }

  /** How the pieces of a `bytes=` header decide its outcome; `FateKinds` says what each fate means. */
  lemma HeaderOutcome(header: Bytes, len: u64, arith: Arithmetic)
    requires VisibleAscii(header) && PREFIX <= header
    ensures DecidedBy(ParsedHeader(Some(header), len, arith),
                      Fates(Split(header[|PREFIX|..], ','), len, arith))
  {
    ConclusionDecided(Fates(Split(header[|PREFIX|..], ','), len, arith));
  }

  /** A piece is unparseable when it reads as no spec; it overflows when it names the largest `u64` as last position. */
  lemma FateKinds(read: Option<Spec>, len: u64, arith: Arithmetic)
    ensures FateOf(read, len, arith).Unparseable? <==> read.None?
    ensures FateOf(read, len, arith).Overflowed? <==>
            arith.Checked? && exists a: u64 :: read == Some(FromTo(a, U64_MAX))
  {
    if read.Some? && read.value.FromTo? && read.value.last == U64_MAX {
      assert read == Some(FromTo(read.value.first, U64_MAX));
    }
  }

  /** The ranges that a list of specs keeps, in header order. */
  function KeptRanges(specs: seq<Spec>, len: u64, arith: Arithmetic): seq<Slice> {
    if specs == [] then []
    else
      var rest := KeptRanges(specs[1..], len, arith);
      var res := Resolve(specs[0], len, arith);
      if res.Kept? then [res.range] + rest else rest
  }

  function Resolutions(specs: seq<Spec>, len: u64, arith: Arithmetic): seq<Resolution> {
    seq(|specs|, i requires 0 <= i < |specs| => Resolve(specs[i], len, arith))
  }

  lemma {:induction false} CombineResolutions(specs: seq<Spec>, len: u64, arith: Arithmetic)
    ensures Combine(Resolutions(specs, len, arith)) ==
            if exists i :: 0 <= i < |specs| && Resolve(specs[i], len, arith).Overflowed? then Panic
            else Returned(Some(KeptRanges(specs, len, arith)))
  {
    if specs != [] {
      CombineResolutions(specs[1..], len, arith);
      assert Resolutions(specs, len, arith)[1..] == Resolutions(specs[1..], len, arith);
      assert forall i :: 1 <= i < |specs| ==> specs[i] == specs[1..][i - 1];
    }
  }

  /** What the code returns for a header that spells `specs`. */
  ghost function ResolvedSpecs(specs: seq<Spec>, len: u64, arith: Arithmetic): Outcome<ResolvedRanges> {
    Conclude(if exists i :: 0 <= i < |specs| && Resolve(specs[i], len, arith).Overflowed? then Panic
             else Returned(Some(KeptRanges(specs, len, arith))))
  }

  /** Every range of the result was kept from some piece. */
  lemma {:induction false} CombinedFrom(fates: seq<Resolution>)
    ensures var res := Combine(fates);
            res.Returned? && res.value.Some? ==>
              |res.value.value| <= |fates| && forall r :: r in res.value.value ==> Kept(r) in fates
  {
    if fates != [] {
      CombinedFrom(fates[1..]);
    }
  }

  ghost predicate WellPlaced(r: Range, len: u64) {
    r.Within(len) && r.end >= 1 && (r.Size() == 0 ==> r == Range(len, len))
  }

  /**
   Every `Satisfiable` result is a non-empty list of ranges inside the entity, each with a last
   byte (`end >= 1`, so `end - 1` may be printed) and each non-empty unless it came from `-0`.
   */
  lemma ParsedRangesWithin(header: Option<Bytes>, len: u64, arith: Arithmetic)
    ensures var res := ParsedHeader(header, len, arith);
            res.Returned? && res.value.Satisfiable? ==>
              && res.value.ranges != []
              && var pieces := Split(header.value[|PREFIX|..], ',');
              && |res.value.ranges| <= |pieces|
              && forall r :: r in res.value.ranges ==>
                WellPlaced(r, len) &&
                (r.Size() == 0 ==> exists i :: 0 <= i < |pieces| && ReadSpec(pieces[i]) == Some(Suffix(0)))
  {
    if header.Some? && PREFIX <= header.value {
      var pieces := Split(header.value[|PREFIX|..], ',');
      var fates := Fates(pieces, len, arith);
      CombinedFrom(fates);
      forall r | Kept(r) in fates
        ensures WellPlaced(r, len)
        ensures r.Size() == 0 ==> exists i :: 0 <= i < |pieces| && ReadSpec(pieces[i]) == Some(Suffix(0))
      {
        var i :| 0 <= i < |fates| && fates[i] == Kept(r);
        ResolveWithin(ReadSpec(pieces[i]).value, len, arith);
      }
    }
  }

  lemma ResolveWithin(spec: Spec, len: u64, arith: Arithmetic)
    ensures var res := Resolve(spec, len, arith);
            res.Kept? ==> WellPlaced(res.range, len) && (res.range.Size() == 0 ==> spec == Suffix(0))
  {
  }

  // ---------- print, then parse ----------

  function Render(spec: Spec): Bytes {
    match spec
    case FromTo(a, b) => Dec(a) + "-" + Dec(b)
    case From(a) => Dec(a) + "-"
    case Suffix(n) => "-" + Dec(n)
  }

  /** One element of the list, with the optional white space that may precede it. */
  function Element(ows: Bytes, spec: Spec): Bytes {
    ows + Render(spec)
  }

  function Elements(specs: seq<Spec>, ows: seq<Bytes>): (es: seq<Bytes>)
    requires |specs| == |ows|
    ensures |es| == |specs| && forall i :: 0 <= i < |es| ==> es[i] == Element(ows[i], specs[i])
  {
    seq(|specs|, i requires 0 <= i < |specs| => Element(ows[i], specs[i]))
  }

  /** The `Range:` header value that spells `specs`. */
  function RenderHeader(specs: seq<Spec>, ows: seq<Bytes>): Bytes
    requires |specs| == |ows| > 0
  {
    PREFIX + Join(Elements(specs, ows), ',')
  }

  lemma ReadFromTo(a: u64, b: u64)
    ensures ReadTrimmed(Render(FromTo(a, b))) == Some(FromTo(a, b))
  {
    var t := Render(FromTo(a, b));
    PrintThenParse(a);
    PrintThenParse(b);
    DecDigits(a);
    DecDigits(b);
    FindMiddle(Dec(a), '-', Dec(b));
    assert t[..|Dec(a)|] == Dec(a);
    assert t[|Dec(a)| + 1..] == Dec(b);
  }

  lemma ReadFrom(a: u64)
    ensures ReadTrimmed(Render(From(a))) == Some(From(a))
  {
    var t := Render(From(a));
    PrintThenParse(a);
    DecDigits(a);
    FindMiddle(Dec(a), '-', []);
    assert t == Dec(a) + ['-'] + [];
    assert t[..|Dec(a)|] == Dec(a);
  }

  lemma ReadSuffix(n: u64)
    ensures ReadTrimmed(Render(Suffix(n))) == Some(Suffix(n))
  {
    var t := Render(Suffix(n));
    PrintThenParse(n);
    assert Find(t, '-') == 0 && t[1..] == Dec(n);
  }

  lemma RenderStarts(spec: Spec)
    ensures Render(spec) != [] && !IsOws(Render(spec)[0])
  {
    match spec {
      case Suffix(n) =>
      case From(a) => DecDigits(a);
      case FromTo(a, b) => DecDigits(a);
    }
  }

  lemma ReadRender(spec: Spec)
    ensures ReadTrimmed(Render(spec)) == Some(spec)
  {
    match spec {
      case Suffix(n) => ReadSuffix(n);
      case From(a) => ReadFrom(a);
      case FromTo(a, b) => ReadFromTo(a, b);
    }
  }

  lemma ReadRendered(ows: Bytes, spec: Spec)
    requires AllOws(ows)
    ensures ReadSpec(Element(ows, spec)) == Some(spec)
  {
    RenderStarts(spec);
    ReadRender(spec);
    SkipOwsOf(ows, Render(spec));
  }

  predicate IsPlain(c: char) {
    IsVisible(c) && c != ','
  }

  /** Visible text without a comma. */
  predicate Plain(s: Bytes) {
    forall i :: 0 <= i < |s| ==> IsPlain(s[i])
  }

  lemma PlainConcat(a: Bytes, b: Bytes)
    requires Plain(a) && Plain(b)
    ensures Plain(a + b)
  {
  }

  lemma PlainDec(n: nat)
    ensures Plain(Dec(n))
  {
    DecDigits(n);
    var s := Dec(n);
    assert forall i :: 0 <= i < |s| ==> IsDigit(s[i]);
  }

  lemma RenderedText(ows: Bytes, spec: Spec)
    requires AllOws(ows)
    ensures Plain(Element(ows, spec))
  {
    assert Plain("-");
    match spec {
      case Suffix(n) =>
        PlainDec(n);
        PlainConcat("-", Dec(n));
      case From(a) =>
        PlainDec(a);
        PlainConcat(Dec(a), "-");
      case FromTo(a, b) =>
        PlainDec(a);
        PlainDec(b);
        PlainConcat(Dec(a), "-");
        PlainConcat(Dec(a) + "-", Dec(b));
    }
    PlainConcat(ows, Render(spec));
  }

  lemma {:induction false} SplitJoin(pieces: seq<Bytes>, c: char)
    requires pieces != [] && forall i :: 0 <= i < |pieces| ==> c !in pieces[i]
    ensures Split(Join(pieces, c), c) == pieces
  {
    if |pieces| > 1 {
      var rest := Join(pieces[1..], c);
      FindMiddle(pieces[0], c, rest);
      var s := Join(pieces, c);
      assert s[..|pieces[0]|] == pieces[0] && s[|pieces[0]| + 1..] == rest;
      SplitJoin(pieces[1..], c);
      assert pieces == [pieces[0]] + pieces[1..];
    } else {
      assert Find(pieces[0], c) == |pieces[0]|;
    }
  }

  lemma {:induction false} JoinVisible(pieces: seq<Bytes>)
    requires pieces != [] && forall i :: 0 <= i < |pieces| ==> VisibleAscii(pieces[i])
    ensures VisibleAscii(Join(pieces, ','))
  {
    if |pieces| > 1 {
      JoinVisible(pieces[1..]);
    }
  }

  lemma FatesOfElements(specs: seq<Spec>, ows: seq<Bytes>, len: u64, arith: Arithmetic)
    requires |specs| == |ows| && forall i :: 0 <= i < |ows| ==> AllOws(ows[i])
    ensures Fates(Elements(specs, ows), len, arith) == Resolutions(specs, len, arith)
  {
    forall i | 0 <= i < |specs|
      ensures Fate(Elements(specs, ows)[i], len, arith) == Resolve(specs[i], len, arith)
    {
      ReadRendered(ows[i], specs[i]);
    }
  }

  lemma HeaderPieces(specs: seq<Spec>, ows: seq<Bytes>)
    requires |specs| == |ows| > 0 && forall i :: 0 <= i < |ows| ==> AllOws(ows[i])
    ensures var h := RenderHeader(specs, ows);
            VisibleAscii(h) && PREFIX <= h && Split(h[|PREFIX|..], ',') == Elements(specs, ows)
  {
    var es := Elements(specs, ows);
    forall i | 0 <= i < |es|
      ensures ',' !in es[i] && VisibleAscii(es[i])
    {
      RenderedText(ows[i], specs[i]);
      var e := es[i];
      assert forall j :: 0 <= j < |e| ==> IsPlain(e[j]);
    }
    SplitJoin(es, ',');
    JoinVisible(es);
    assert RenderHeader(specs, ows)[|PREFIX|..] == Join(es, ',');
  }

  /**
   Round trip: whatever specs are printed, with whatever white space before each, parsing the
   header returns what those specs resolve to, in order.
   */
  lemma PrintThenParseHeader(specs: seq<Spec>, ows: seq<Bytes>, len: u64, arith: Arithmetic)
    requires |specs| == |ows| > 0 && forall i :: 0 <= i < |ows| ==> AllOws(ows[i])
    ensures ParsedHeader(Some(RenderHeader(specs, ows)), len, arith) == ResolvedSpecs(specs, len, arith)
  {
    HeaderPieces(specs, ows);
    FatesOfElements(specs, ows, len, arith);
    CombineResolutions(specs, len, arith);
  }

  /** A spec that names at least one byte of the entity in the ordinary way. */
  predicate Ordinary(spec: Spec, len: u64) {
    match spec
    case FromTo(a, b) => a <= b < len
    case From(a) => a < len
    case Suffix(n) => 0 < n < len
  }

  function HalfOpen(spec: Spec, len: u64): Slice
    requires Ordinary(spec, len)
  {
    match spec
    case FromTo(a, b) => Range(a, b + 1)
    case From(a) => Range(a, len)
    case Suffix(n) => Range(len - n, len)
  }

  function HalfOpens(specs: seq<Spec>, len: u64): (rs: seq<Slice>)
    requires forall i :: 0 <= i < |specs| ==> Ordinary(specs[i], len)
    ensures |rs| == |specs| && forall i :: 0 <= i < |rs| ==> rs[i] == HalfOpen(specs[i], len)
  {
    if specs == [] then [] else [HalfOpen(specs[0], len)] + HalfOpens(specs[1..], len)
  }

  lemma {:induction false} KeptOrdinary(specs: seq<Spec>, len: u64, arith: Arithmetic)
    requires forall i :: 0 <= i < |specs| ==> Ordinary(specs[i], len)
    ensures KeptRanges(specs, len, arith) == HalfOpens(specs, len)
    ensures forall i :: 0 <= i < |specs| ==> !Resolve(specs[i], len, arith).Overflowed?
  {
    if specs != [] {
      KeptOrdinary(specs[1..], len, arith);
      assert forall i :: 1 <= i < |specs| ==> specs[i] == specs[1..][i - 1];
    }
  }

  /** For ordinary specs the result is exactly their half-open ranges, in header order. */
  lemma OrdinaryRoundTrip(specs: seq<Spec>, ows: seq<Bytes>, len: u64, arith: Arithmetic)
    requires |specs| == |ows| > 0 && forall i :: 0 <= i < |ows| ==> AllOws(ows[i])
    requires forall i :: 0 <= i < |specs| ==> Ordinary(specs[i], len)
    ensures ParsedHeader(Some(RenderHeader(specs, ows)), len, arith) == Returned(Satisfiable(HalfOpens(specs, len)))
  {
    PrintThenParseHeader(specs, ows, len, arith);
    KeptOrdinary(specs, len, arith);
  }
}
