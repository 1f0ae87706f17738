/**
 `prepare_multipart` of `src/serving.rs`: the text of each part's header, the length of the whole
 body, and the estimate that decides whether multipart is worth it.
 */
module PartFormat {
  import opened Prelude
  import opened Decimal
  import Multipart

  const OPENING: Bytes := "\r\n--B\r\nContent-Range: bytes "
  const CRLF: Bytes := "\r\n"

  /** The entity's own headers, repeated in each part. */
  function HeaderLines(h: seq<Header>): Bytes {
    if h == [] then [] else h[0].0 + ": " + h[0].1 + CRLF + HeaderLines(h[1..])
  }

  function PartHeader(r: Range, len: u64, lines: Bytes): Bytes
    requires r.end >= 1
  {
    OPENING + (Dec(r.start) + ("-" + (Dec(r.end - 1) + ("/" + (Dec(len) + (CRLF + (lines + CRLF)))))))
  }

  ghost predicate Printable(ranges: seq<Slice>, len: int) {
    forall i :: 0 <= i < |ranges| ==> ranges[i].Within(len) && ranges[i].end >= 1
  }

  function PartHeaders(ranges: seq<Slice>, len: u64, lines: Bytes): (hs: seq<Bytes>)
    requires Printable(ranges, len)
    ensures |hs| == |ranges| && forall i :: 0 <= i < |hs| ==> hs[i] == PartHeader(ranges[i], len, lines)
  {
    seq(|ranges|, i requires 0 <= i < |ranges| => PartHeader(ranges[i], len, lines))
  }

  /** The true length of the whole body, computed without overflow. */
  function BodyLength(ranges: seq<Slice>, len: u64, lines: Bytes): int
    requires Printable(ranges, len)
  {
    Multipart.Owed(PartHeaders(ranges, len, lines), ranges, 0)
  }

  function CheckedAdd(a: u64, b: int): Option<u64>
    requires b >= 0
  {
    if a + b <= U64_MAX then Some(a + b) else None
  }

  /** The headers repeated in each part, as bytes. */
  method CollectHeaderLines(h: seq<Header>) returns (lines: Bytes)
    ensures lines == HeaderLines(h)
  {
    lines := [];
    var i := 0;
    while i < |h|
      invariant 0 <= i <= |h|
      invariant HeaderLines(h) == lines + HeaderLines(h[i..])
    {
      assert h[i..][1..] == h[i + 1..];
      lines := lines + h[i].0 + ": " + h[i].1 + CRLF;
      i := i + 1;
    }
  }

  /**
   Fails exactly when the true length does not fit a `u64`; otherwise returns every part's header
   and that length.
   */
  method PrepareMultipart(ranges: seq<Slice>, len: u64, entityHeaders: Option<seq<Header>>)
    returns (res: Option<(seq<Bytes>, u64)>)
    requires Printable(ranges, len)
    ensures var lines := if entityHeaders.None? then [] else HeaderLines(entityHeaders.value);
            && (res.None? <==> BodyLength(ranges, len, lines) > U64_MAX)
            && (res.Some? ==> res.value == (PartHeaders(ranges, len, lines), BodyLength(ranges, len, lines)))
  {
    var eachPartHeaders: Bytes := [];
    if entityHeaders.Some? {
      eachPartHeaders := CollectHeaderLines(entityHeaders.value);
    }
    res := SumParts(ranges, len, eachPartHeaders);
  }

  /** The loop over the parts. */
  method SumParts(ranges: seq<Slice>, len: u64, lines: Bytes) returns (res: Option<(seq<Bytes>, u64)>)
    requires Printable(ranges, len)
    ensures res.None? <==> BodyLength(ranges, len, lines) > U64_MAX
    ensures res.Some? ==> res.value == (PartHeaders(ranges, len, lines), BodyLength(ranges, len, lines))
  {
    ghost var all := PartHeaders(ranges, len, lines);
    var bodyLen: u64 := 0;
    var partHeaders: seq<Bytes> := [];
    var i := 0;
    while i < |ranges|
      invariant 0 <= i <= |ranges|
      invariant partHeaders == all[..i]
      invariant bodyLen + Multipart.Owed(all, ranges, i) == BodyLength(ranges, len, lines)
    {
      var r := ranges[i];
      Multipart.OwedAtLeastTrailer(all, ranges, i + 1);
      var buf := PartHeader(r, len, lines);
      var withHeader := CheckedAdd(bodyLen, |buf|);
      if withHeader.None? {
        return None;
      }
      var withBody := CheckedAdd(withHeader.value, r.end - r.start);
      if withBody.None? {
        return None;
      }
      bodyLen := withBody.value;
      partHeaders := partHeaders + [buf];
      i := i + 1;
    }
    assert all[..i] == all;
    var whole := CheckedAdd(bodyLen, |Multipart.TRAILER|);
    if whole.None? {
      return None;
    }
    return Some((partHeaders, whole.value));
  }

  // ---------- repeated headers ----------

  /** `b` is the part header `a` with `lines` before its final empty line. */
  ghost predicate LinesInserted(a: Bytes, b: Bytes, lines: Bytes) {
    exists stem: Bytes :: a == stem + CRLF && b == stem + (lines + CRLF)
  }

  lemma PartHeaderStem(r: Range, len: u64, lines: Bytes)
    requires r.end >= 1
    ensures LinesInserted(PartHeader(r, len, []), PartHeader(r, len, lines), lines)
  {
    var stem := OPENING + (Dec(r.start) + ("-" + (Dec(r.end - 1) + ("/" + (Dec(len) + CRLF)))));
    StemThen(OPENING, Dec(r.start), "-", Dec(r.end - 1), "/", Dec(len), CRLF, [] + CRLF);
    StemThen(OPENING, Dec(r.start), "-", Dec(r.end - 1), "/", Dec(len), CRLF, lines + CRLF);
    assert [] + CRLF == CRLF;
    assert PartHeader(r, len, []) == stem + CRLF && PartHeader(r, len, lines) == stem + (lines + CRLF);
  }

  lemma StemThen(a: Bytes, b: Bytes, c: Bytes, d: Bytes, e: Bytes, f: Bytes, g: Bytes, rest: Bytes)
    ensures (a + (b + (c + (d + (e + (f + g)))))) + rest == a + (b + (c + (d + (e + (f + (g + rest))))))
  {
    Reassociate(a, b + (c + (d + (e + (f + g)))), rest);
    Reassociate(b, c + (d + (e + (f + g))), rest);
    Reassociate(c, d + (e + (f + g)), rest);
    Reassociate(d, e + (f + g), rest);
    Reassociate(e, f + g, rest);
    Reassociate(f, g, rest);
  }

  lemma {:induction false} OwedWithLines(a: seq<Bytes>, b: seq<Bytes>, ranges: seq<Slice>, i: nat, extra: nat)
    requires |a| == |b| == |ranges| && i <= |ranges|
    requires forall j :: 0 <= j < |a| ==> |b[j]| == |a[j]| + extra
    ensures Multipart.Owed(b, ranges, i) == Multipart.Owed(a, ranges, i) + Times(extra, |ranges| - i)
    decreases |ranges| - i
  {
    if i < |ranges| {
      OwedWithLines(a, b, ranges, i + 1, extra);
    }
  }

  /** Each repeated header line is paid for once per part. */
  lemma BodyLengthWithLines(ranges: seq<Slice>, len: u64, lines: Bytes)
    requires Printable(ranges, len)
    ensures BodyLength(ranges, len, lines) == BodyLength(ranges, len, []) + |lines| * |ranges|
  {
    var a, b := PartHeaders(ranges, len, []), PartHeaders(ranges, len, lines);
    forall j | 0 <= j < |a|
      ensures |b[j]| == |a[j]| + |lines|
    {
      PartHeaderSize(ranges[j], len, []);
      PartHeaderSize(ranges[j], len, lines);
    }
    OwedWithLines(a, b, ranges, 0, |lines|);
    TimesIsProduct(|lines|, |ranges|);
  }

  // ---------- sizes ----------

  /** The capacity that the source reserves for one part's header. */
  function ReservedCapacity(lines: Bytes): nat {
    |OPENING| + |"-/\r\n"| + 3 * 20 + |lines| + |CRLF|
  }

  /** A part's header is its 34 fixed bytes, three decimals and the repeated headers; it fits what is reserved. */
  lemma PartHeaderSize(r: Range, len: u64, lines: Bytes)
    requires r.end >= 1
    ensures |PartHeader(r, len, lines)| == 34 + |Dec(r.start)| + |Dec(r.end - 1)| + |Dec(len)| + |lines|
    ensures |PartHeader(r, len, lines)| <= ReservedCapacity(lines)
  {
    U64Digits(r.start);
    U64Digits(r.end - 1);
    U64Digits(len);
  }

  lemma PartHeaderBound(r: Range, len: u64, lines: Bytes)
    requires r.Within(len) && r.end >= 1
    ensures |PartHeader(r, len, lines)| <= 34 + 3 * |Dec(len)| + |lines|
  {
    PartHeaderSize(r, len, lines);
    DecMonotone(r.start, len);
    DecMonotone(r.end - 1, len);
  }

  function RangeBytes(ranges: seq<Slice>): int {
    if ranges == [] then 0 else ranges[0].Size() + RangeBytes(ranges[1..])
  }

  /** The estimate without overflow: 80 bytes of header per part. */
  function TrueEstimate(ranges: seq<Slice>): int {
    80 * |ranges| + RangeBytes(ranges)
  }

  /** The source's checked fold. */
  function EstimateFrom(acc: u64, ranges: seq<Slice>): Option<u64>
    decreases |ranges|
  {
    if ranges == [] then Some(acc)
    else
      match CheckedAdd(acc, 80)
      case None => None
      case Some(a) =>
        match CheckedAdd(a, ranges[0].Size())
        case None => None
        case Some(b) => EstimateFrom(b, ranges[1..])
  }

  lemma {:induction false} RangeBytesNonNegative(ranges: seq<Slice>)
    ensures RangeBytes(ranges) >= 0
  {
    if ranges != [] {
      RangeBytesNonNegative(ranges[1..]);
    }
  }

  /** The fold yields the true estimate, or nothing exactly when that does not fit a `u64`. */
  lemma {:induction false} EstimateIsTrue(acc: u64, ranges: seq<Slice>)
    ensures var e := acc + TrueEstimate(ranges);
            EstimateFrom(acc, ranges) == if e <= U64_MAX then Some(e) else None
    decreases |ranges|
  {
    if ranges != [] {
      RangeBytesNonNegative(ranges[1..]);
      if acc + 80 + ranges[0].Size() <= U64_MAX {
        EstimateIsTrue(acc + 80 + ranges[0].Size(), ranges[1..]);
      }
    }
  }

  predicate WorthMultipart(ranges: seq<Slice>, len: u64)
  {
    var e := EstimateFrom(0, ranges);
    e.Some? && e.value < len
  }

  /** Multipart is chosen exactly when the true estimate is below the entity's length. */
  lemma WorthIff(ranges: seq<Slice>, len: u64)
    ensures WorthMultipart(ranges, len) <==> TrueEstimate(ranges) < len
    ensures TrueEstimate(ranges) >= 80 * |ranges|
  {
    EstimateIsTrue(0, ranges);
    RangeBytesNonNegative(ranges);
  }

  /** `n` times `c`, as a sum. */
  function Times(c: int, n: nat): int {
    if n == 0 then 0 else c + Times(c, n - 1)
  }

  lemma {:induction false} TimesMonotone(c: int, d: int, n: nat)
    requires c <= d
    ensures Times(c, n) <= Times(d, n)
  {
    if n > 0 {
      TimesMonotone(c, d, n - 1);
    }
  }

  lemma {:induction false} TimesIsProduct(c: int, n: nat)
    ensures Times(c, n) == c * n
  {
    if n > 0 {
      TimesIsProduct(c, n - 1);
    }
  }

  lemma {:induction false} TimesConstants(n: nat)
    ensures Times(-5, n) == -5 * n && Times(-4, n) == -4 * n && Times(74, n) == 74 * n
  {
    if n > 0 {
      TimesConstants(n - 1);
    }
  }

  /** With headers of at most `80 + c` bytes, the parts from `i` on exceed the estimate by at most `c` each and the trailer. */
  lemma {:induction false} OwedBound(headers: seq<Bytes>, ranges: seq<Slice>, i: nat, c: int)
    requires |headers| == |ranges| && i <= |ranges|
    requires forall j :: 0 <= j < |ranges| ==> |headers[j]| <= 80 + c
    ensures Multipart.Owed(headers, ranges, i) <=
            80 * (|ranges| - i) + RangeBytes(ranges[i..]) + Times(c, |ranges| - i) + 9
    decreases |ranges| - i
  {
    if i < |ranges| {
      assert ranges[i..][1..] == ranges[i + 1..];
      OwedBound(headers, ranges, i + 1, c);
    } else {
      assert ranges[i..] == [];
    }
  }

  lemma BodyLengthBound(ranges: seq<Slice>, len: u64, lines: Bytes, c: int)
    requires Printable(ranges, len) && c == 3 * |Dec(len)| + |lines| - 46
    ensures BodyLength(ranges, len, lines) <= TrueEstimate(ranges) + Times(c, |ranges|) + 9
  {
    HeadersBound(ranges, len, lines, 80 + c);
    OwedBound(PartHeaders(ranges, len, lines), ranges, 0, c);
    assert ranges[0..] == ranges;
  }

  lemma HeadersBound(ranges: seq<Slice>, len: u64, lines: Bytes, h: nat)
    requires Printable(ranges, len) && h == 34 + 3 * |Dec(len)| + |lines|
    ensures forall i :: 0 <= i < |ranges| ==> |PartHeaders(ranges, len, lines)[i]| <= h
  {
    forall i | 0 <= i < |ranges|
      ensures |PartHeaders(ranges, len, lines)[i]| <= h
    {
      PartHeaderBound(ranges[i], len, lines);
    }
  }

  /**
   The estimate keeps its purpose - a multipart body is never longer than the entity - whenever
   three decimals as long as the length's plus the repeated headers take at most 42 bytes; and it
   is strictly shorter when they take at most 41.
   */
  lemma EstimateSuffices(ranges: seq<Slice>, len: u64, lines: Bytes)
    requires Printable(ranges, len) && |ranges| >= 2 && WorthMultipart(ranges, len)
    requires 3 * |Dec(len)| + |lines| <= 42
    ensures BodyLength(ranges, len, lines) <= len
    ensures 3 * |Dec(len)| + |lines| <= 41 ==> BodyLength(ranges, len, lines) < len
  {
    WorthIff(ranges, len);
    var c := 3 * |Dec(len)| + |lines| - 46;
    BodyLengthBound(ranges, len, lines, c);
    BelowEstimate(c, |ranges|);
  }

  lemma BelowEstimate(c: int, n: nat)
    requires c <= -4 && n >= 2
    ensures Times(c, n) + 9 <= 1
    ensures c <= -5 ==> Times(c, n) + 9 < 0
  {
    TimesMonotone(c, if c <= -5 then -5 else -4, n);
    TimesConstants(n);
  }

  /** Without repeated headers that is every entity below 10^14 bytes, strictly below 10^13. */
  lemma EstimateSufficesForSmallEntities(ranges: seq<Slice>, len: u64)
    requires Printable(ranges, len) && |ranges| >= 2 && WorthMultipart(ranges, len)
    ensures len < Pow10(14) ==> BodyLength(ranges, len, []) <= len
    ensures len < Pow10(13) ==> BodyLength(ranges, len, []) < len
  {
    DecLength(len, 14);
    DecLength(len, 13);
    if len < Pow10(14) {
      EstimateSuffices(ranges, len, []);
    }
  }

  const FIRST_AND_THIRD: seq<Slice> := [Range(0, 1), Range(2, 3)]

  lemma FirstAndThird(len: u64)
    requires len >= 163
    ensures Printable(FIRST_AND_THIRD, len) && WorthMultipart(FIRST_AND_THIRD, len)
  {
    WorthIff(FIRST_AND_THIRD, len);
    assert RangeBytes(FIRST_AND_THIRD) == 2 by {
      assert FIRST_AND_THIRD[1..] == [Range(2, 3)] && FIRST_AND_THIRD[1..][1..] == [];
      assert RangeBytes(FIRST_AND_THIRD[1..]) == 1;
    }
  }

  const LONG_HEADER: Header := ("x-extra", seq(80, i => 'x'))

  /**
   With repeated headers the estimate does not do what its comment says: this multipart body is
   longer than the entity it is chosen over.
   */
  lemma EstimateCanMislead()
    ensures var lines := HeaderLines([LONG_HEADER]);
            && Printable(FIRST_AND_THIRD, 200) && WorthMultipart(FIRST_AND_THIRD, 200)
            && 200 < BodyLength(FIRST_AND_THIRD, 200, lines) < 300
  {
    var lines := HeaderLines([LONG_HEADER]);
    assert |lines| == 91 by {
      assert HeaderLines([LONG_HEADER][1..]) == [];
    }
    FirstAndThird(200);
    OwedForTwo(PartHeaders(FIRST_AND_THIRD, 200, lines), FIRST_AND_THIRD);
    PartHeaderSize(Range(0, 1), 200, lines);
    PartHeaderSize(Range(2, 3), 200, lines);
    assert |Dec(200)| == 3 by { assert |Dec(20)| == 2; }
  }

  // ---------- the exact bound ----------

  /**
   How many bytes three decimals as long as the length's plus the repeated headers may take.  The
   limit is 42 unless some range must print with fewer digits than the length: close above a power
   of ten one start must, at a power of ten every last position does.
   */
  function Limit(len: nat): nat {
    DecDigits(len);
    var d := |Dec(len)|;
    var p := Pow10(d - 1);
    if len == p then if len == 1000 then 43 else 44
    else if d == 1 || len + 161 >= p + Pow10(d - 2) then 42
    else 43
  }

  /** No multipart body of two or more parts that is chosen is longer than the entity. */
  ghost predicate NeverLonger(len: u64, lines: Bytes) {
    forall ranges :: Printable(ranges, len) && |ranges| >= 2 && WorthMultipart(ranges, len) ==>
      BodyLength(ranges, len, lines) <= len
  }

  /**
   For every entity and all repeated headers: the estimate keeps its purpose exactly when the
   entity is too small for multipart or the bytes counted above are within the limit.
   */
  lemma EstimateSharp(len: u64, lines: Bytes)
    ensures NeverLonger(len, lines) <==> len <= 160 || 3 * |Dec(len)| + |lines| <= Limit(len)
  {
    if len <= 160 || 3 * |Dec(len)| + |lines| <= Limit(len) {
      forall ranges | Printable(ranges, len) && |ranges| >= 2 && WorthMultipart(ranges, len)
        ensures BodyLength(ranges, len, lines) <= len
      {
        WithinLimit(ranges, len, lines);
      }
    } else {
      var ranges := BeyondLimit(len, lines);
    }
  }

  /** The digits that a range's positions print with less than the length does. */
  function Loss(r: Slice, len: nat): int
    requires r.end >= 1
  {
    2 * |Dec(len)| - |Dec(r.start)| - |Dec(r.end - 1)|
  }

  /** The length of a body of two parts, exactly. */
  lemma TwoParts(ranges: seq<Slice>, len: u64, lines: Bytes)
    requires Printable(ranges, len) && |ranges| == 2
    ensures TrueEstimate(ranges) == 160 + ranges[0].Size() + ranges[1].Size()
    ensures BodyLength(ranges, len, lines) == TrueEstimate(ranges) +
            2 * (3 * |Dec(len)| + |lines|) - 83 - Loss(ranges[0], len) - Loss(ranges[1], len)
  {
    assert RangeBytes(ranges) == ranges[0].Size() + ranges[1].Size() by {
      assert ranges[1..] == [ranges[1]] && ranges[1..][1..] == [];
      assert RangeBytes(ranges[1..]) == ranges[1].Size();
    }
    OwedForTwo(PartHeaders(ranges, len, lines), ranges);
    PartHeaderSize(ranges[0], len, lines);
    PartHeaderSize(ranges[1], len, lines);
  }

  /** `p` and `q` are the powers of ten of the leading digit of `len` and of the next one. */
  predicate Leading(len: nat, d: nat, p: nat, q: nat) {
    d == |Dec(len)| && d >= 2 && p == Pow10(d - 1) && q == Pow10(d - 2)
  }

  lemma LeadingBounds(len: nat, d: nat, p: nat, q: nat)
    requires Leading(len, d, p, q)
    ensures p == 10 * q && p <= len < 10 * p
  {
    DecLength(len, d);
    DecLength(len, d - 1);
  }

  /** How many digits a smaller number prints with. */
  lemma DigitsBelow(n: nat, len: nat, d: nat, p: nat, q: nat)
    requires Leading(len, d, p, q) && n <= len
    ensures |Dec(n)| <= d && (|Dec(n)| == d <==> n >= p) && (|Dec(n)| >= d - 1 <==> n >= q || d == 2)
  {
    DecMonotone(n, len);
    DecLength(n, d - 1);
    DecDigits(n);
    if d > 2 {
      DecLength(n, d - 2);
    }
  }

  lemma LossBounds(r: Slice, len: nat, d: nat, p: nat, q: nat)
    requires Leading(len, d, p, q) && d >= 3 && r.Within(len) && r.end >= 1
    ensures Loss(r, len) >= 0
    ensures Loss(r, len) == 0 ==> r.Size() <= len - p
    ensures Loss(r, len) <= 1 ==> r.Size() <= len - q
    ensures len == p ==> Loss(r, len) >= 1 && (r.Size() > 0 ==> Loss(r, len) >= 2)
    ensures len == p && Loss(r, len) <= 2 ==> r.Size() <= p - q
    ensures r.start >= q && r.end == len ==> Loss(r, len) <= if len == p then 2 else 1
    ensures r.start >= p && r.end == len ==> Loss(r, len) <= if len == p then 1 else 0
  {
    LeadingBounds(len, d, p, q);
    DigitsBelow(r.start, len, d, p, q);
    DigitsBelow(r.end - 1, len, d, p, q);
  }

  /** A length that multipart can be chosen for. */
  lemma LeadingOf(len: nat) returns (d: nat, p: nat, q: nat)
    requires len >= 161
    ensures Leading(len, d, p, q) && d >= 3 && (len == 1000 <==> len == p && d == 4) && (d >= 5 ==> q >= 1000)
    ensures d == 3 ==> q == 10 && p == 100
    ensures d == 4 ==> q == 100 && p == 1000
    ensures Limit(len) == if len == p then if len == 1000 then 43 else 44 else if len + 161 >= p + q then 42 else 43
  {
    d := |Dec(len)|;
    DecLength(len, 2);
    DecLength(len, 3);
    DecLength(len, 4);
    assert Pow10(1) == 10 && Pow10(2) == 100;
    assert Pow10(3) == 1000 && Pow10(4) == 10000;
    p, q := Pow10(d - 1), Pow10(d - 2);
    LeadingBounds(len, d, p, q);
    if d >= 5 {
      assert Pow10(d - 2) == 10 * Pow10(d - 3) && Pow10(d - 3) == 10 * Pow10(d - 4) && Pow10(d - 4) == 10 * Pow10(d - 5);
    }
  }

  // ---------- within the limit ----------

  lemma ThreeOrMore(c: int, n: nat)
    requires c <= -3 && n >= 3
    ensures Times(c, n) + 9 <= 0
  {
    TimesIsProduct(c, n);
    ProductBelow(c, n);
  }

  lemma ProductBelow(c: int, n: nat)
    requires c <= -3 && n >= 3
    ensures c * n <= -9
  {
    assert c * n <= -3 * n;
  }

  lemma HeaderAtPower(r: Slice, len: u64, lines: Bytes, h: int, d: nat, p: nat, q: nat)
    requires r.Within(len) && r.end >= 1 && Leading(len, d, p, q) && d >= 3 && len == p
    requires h == 33 + 3 * d + |lines|
    ensures |PartHeader(r, len, lines)| <= h
  {
    PartHeaderSize(r, len, lines);
    LossBounds(r, len, d, p, q);
  }

  lemma HeadersAtPower(ranges: seq<Slice>, len: u64, lines: Bytes, h: int, d: nat, p: nat, q: nat)
    requires Printable(ranges, len) && Leading(len, d, p, q) && d >= 3 && len == p
    requires h == 33 + 3 * d + |lines|
    ensures forall i :: 0 <= i < |ranges| ==> |PartHeaders(ranges, len, lines)[i]| <= h
  {
    forall i | 0 <= i < |ranges|
      ensures |PartHeaders(ranges, len, lines)[i]| <= h
    {
      HeaderAtPower(ranges[i], len, lines, h, d, p, q);
    }
  }

  /** At a power of ten every part's header is at least one byte shorter. */
  lemma BoundAtPower(ranges: seq<Slice>, len: u64, lines: Bytes, c: int, d: nat, p: nat, q: nat)
    requires Printable(ranges, len) && Leading(len, d, p, q) && d >= 3 && len == p
    requires c == 3 * d + |lines| - 47
    ensures BodyLength(ranges, len, lines) <= TrueEstimate(ranges) + Times(c, |ranges|) + 9
  {
    HeadersAtPower(ranges, len, lines, 80 + c, d, p, q);
    OwedBound(PartHeaders(ranges, len, lines), ranges, 0, c);
    assert ranges[0..] == ranges;
  }

  lemma PairAbovePower(ranges: seq<Slice>, len: u64, lines: Bytes, d: nat, p: nat, q: nat)
    requires Printable(ranges, len) && |ranges| == 2 && TrueEstimate(ranges) < len
    requires Leading(len, d, p, q) && d >= 3 && len + 161 < p + q && 3 * d + |lines| <= 43
    ensures BodyLength(ranges, len, lines) <= len
  {
    TwoParts(ranges, len, lines);
    LeadingBounds(len, d, p, q);
    LossBounds(ranges[0], len, d, p, q);
    LossBounds(ranges[1], len, d, p, q);
  }

  lemma PairAtPower(ranges: seq<Slice>, len: u64, lines: Bytes, d: nat, p: nat, q: nat)
    requires Printable(ranges, len) && |ranges| == 2 && TrueEstimate(ranges) < len
    requires Leading(len, d, p, q) && d >= 3 && len == p && q >= 1000 && 3 * d + |lines| <= 44
    ensures BodyLength(ranges, len, lines) <= len
  {
    TwoParts(ranges, len, lines);
    LossBounds(ranges[0], len, d, p, q);
    LossBounds(ranges[1], len, d, p, q);
  }

  lemma WithinLimit(ranges: seq<Slice>, len: u64, lines: Bytes)
    requires Printable(ranges, len) && |ranges| >= 2 && WorthMultipart(ranges, len)
    requires len <= 160 || 3 * |Dec(len)| + |lines| <= Limit(len)
    ensures BodyLength(ranges, len, lines) <= len
  {
    WorthIff(ranges, len);
    var d, p, q := LeadingOf(len);
    var c := 3 * d + |lines| - 46;
    if c <= -4 {
      EstimateSuffices(ranges, len, lines);
    } else if len != p {
      if |ranges| >= 3 {
        BodyLengthBound(ranges, len, lines, c);
        ThreeOrMore(c, |ranges|);
      } else {
        PairAbovePower(ranges, len, lines, d, p, q);
      }
    } else {
      BoundAtPower(ranges, len, lines, c - 1, d, p, q);
      if c <= -3 {
        BelowEstimate(c - 1, |ranges|);
      } else if |ranges| >= 3 {
        ThreeOrMore(c - 1, |ranges|);
      } else {
        PairAtPower(ranges, len, lines, d, p, q);
      }
    }
  }

  // ---------- beyond the limit ----------

  /** Two ranges that end with the entity, of `a` and `b` bytes; their estimate is one byte below its length. */
  lemma Tails(len: u64, lines: Bytes, a: nat, b: nat) returns (ranges: seq<Slice>)
    requires len == 161 + a + b
    ensures ranges == [Range(len - a, len), Range(len - b, len)]
    ensures Printable(ranges, len) && WorthMultipart(ranges, len)
    ensures BodyLength(ranges, len, lines) ==
            len - 84 + 2 * (3 * |Dec(len)| + |lines|) - Loss(ranges[0], len) - Loss(ranges[1], len)
  {
    ranges := [Range(len - a, len), Range(len - b, len)];
    TwoParts(ranges, len, lines);
    WorthIff(ranges, len);
  }

  /** One range as long as it can be without losing a digit, and the rest of the estimate. */
  lemma LongTail(len: u64, lines: Bytes, d: nat, p: nat, q: nat) returns (ranges: seq<Slice>)
    requires len >= 161 && Leading(len, d, p, q) && d >= 3 && len > p && len + 161 >= p + q
    requires 3 * d + |lines| >= 43
    ensures Printable(ranges, len) && |ranges| == 2 && WorthMultipart(ranges, len)
    ensures BodyLength(ranges, len, lines) > len
  {
    var b := if len - 161 <= len - p then len - 161 else len - p;
    var a := len - 161 - b;
    ranges := Tails(len, lines, a, b);
    LossBounds(ranges[0], len, d, p, q);
    LossBounds(ranges[1], len, d, p, q);
  }

  /** Two halves. */
  lemma EvenTails(len: u64, lines: Bytes, d: nat, p: nat, q: nat) returns (ranges: seq<Slice>)
    requires len >= 161 && Leading(len, d, p, q) && d >= 3
    requires 3 * d + |lines| >= if len == p then 45 else 44
    ensures Printable(ranges, len) && |ranges| == 2 && WorthMultipart(ranges, len)
    ensures BodyLength(ranges, len, lines) > len
  {
    LeadingBounds(len, d, p, q);
    ranges := Tails(len, lines, (len - 161) / 2, len - 161 - (len - 161) / 2);
    LossBounds(ranges[0], len, d, p, q);
    LossBounds(ranges[1], len, d, p, q);
  }

  /** At 1000 bytes a long range loses only two digits, an empty one at the end only one. */
  lemma ThousandBytes(lines: Bytes) returns (ranges: seq<Slice>)
    requires |lines| >= 32
    ensures Printable(ranges, 1000) && |ranges| == 2 && WorthMultipart(ranges, 1000)
    ensures BodyLength(ranges, 1000, lines) > 1000
  {
    var d, p, q := LeadingOf(1000);
    ranges := Tails(1000, lines, 839, 0);
    LossBounds(ranges[0], 1000, d, p, q);
    LossBounds(ranges[1], 1000, d, p, q);
    DigitsBelow(161, 1000, d, p, q);
    DigitsBelow(999, 1000, d, p, q);
  }

  lemma BeyondLimit(len: u64, lines: Bytes) returns (ranges: seq<Slice>)
    requires len >= 161 && 3 * |Dec(len)| + |lines| > Limit(len)
    ensures Printable(ranges, len) && |ranges| >= 2 && WorthMultipart(ranges, len)
    ensures BodyLength(ranges, len, lines) > len
  {
    var d, p, q := LeadingOf(len);
    LeadingBounds(len, d, p, q);
    if len == 1000 {
      ranges := ThousandBytes(lines);
    } else if len == p || len + 161 < p + q {
      ranges := EvenTails(len, lines, d, p, q);
    } else {
      ranges := LongTail(len, lines, d, p, q);
    }
  }

  lemma OwedForTwo(headers: seq<Bytes>, ranges: seq<Slice>)
    requires |headers| == |ranges| == 2
    ensures Multipart.Owed(headers, ranges, 0) ==
            |headers[0]| + ranges[0].Size() + (|headers[1]| + ranges[1].Size() + 9)
  {
    assert Multipart.Owed(headers, ranges, 1) == |headers[1]| + ranges[1].Size() + Multipart.Owed(headers, ranges, 2);
  }

  /**
   The "too large" response is unreachable for entities of at most 2^63 bytes whose repeated
   headers take at most 60 bytes: once multipart is chosen, its length fits.
   */
  lemma OverflowUnreachable(ranges: seq<Slice>, len: u64, lines: Bytes)
    requires Printable(ranges, len) && |ranges| >= 2 && WorthMultipart(ranges, len)
    requires len <= 0x8000_0000_0000_0000 && |lines| <= 60
    ensures BodyLength(ranges, len, lines) <= U64_MAX
  {
    WorthIff(ranges, len);
    var c := 3 * |Dec(len)| + |lines| - 46;
    BodyLengthBound(ranges, len, lines, c);
    U64Digits(len);
    TimesMonotone(c, 74, |ranges|);
    TimesConstants(|ranges|);
  }
}
