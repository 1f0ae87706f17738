/**
 Section 2.1 of RFC 7233, written down independently of the code: which texts are a valid
 byte-range-set, which bytes a spec names, and what a server may make of a header.  The lemmas
 say, for every piece of text and every header, exactly when `range::parse` does the same.
 */
module RfcRange {
  import opened Prelude
  import opened Decimal
  import opened ByteRange

  // ---------- one element ----------

  /** byte-range-spec and suffix-byte-range-spec.  Positions are unbounded, as 1*DIGIT is. */
  datatype RfcSpec = RFromTo(first: nat, last: nat) | RFrom(first: nat) | RSuffix(length: nat)

  predicate Number(x: Bytes, n: nat) {
    x != [] && AllDigits(x) && Value(x) == n
  }

  /** `x` is 1*DIGIT denoting `n`, or, with `plus`, a plus sign and such a number. */
  predicate Denotes(x: Bytes, n: nat, plus: bool) {
    Number(x, n) || (plus && x != [] && x[0] == '+' && Number(x[1..], n))
  }

  /** The text `t` is `spec`.  The RFC's grammar has no plus signs. */
  ghost predicate Spells(t: Bytes, spec: RfcSpec, plus: bool) {
    match spec
    case RFromTo(a, b) => exists x, y :: Denotes(x, a, plus) && Denotes(y, b, plus) && t == x + ['-'] + y
    case RFrom(a) => exists x :: Denotes(x, a, plus) && t == x + ['-']
    case RSuffix(n) => exists y :: Denotes(y, n, plus) && t == ['-'] + y
  }

  /** A text is spelled in one way only: around its first hyphen. */
  ghost predicate SpellsAround(t: Bytes, h: nat, spec: RfcSpec, plus: bool)
    requires h < |t|
  {
    match spec
    case RFromTo(a, b) => Denotes(t[..h], a, plus) && Denotes(t[h + 1..], b, plus)
    case RFrom(a) => Denotes(t[..h], a, plus) && h + 1 == |t|
    case RSuffix(n) => h == 0 && Denotes(t[1..], n, plus)
  }

  lemma NoHyphen(x: Bytes, n: nat, plus: bool)
    requires Denotes(x, n, plus)
    ensures '-' !in x
  {
  }

  lemma HyphenAt(t: Bytes, x: Bytes, y: Bytes)
    requires t == x + ['-'] + y && '-' !in x
    ensures Find(t, '-') == |x| < |t| && t[..|x|] == x && t[|x| + 1..] == y
  {
    FindMiddle(x, '-', y);
  }

  lemma FromToAround(t: Bytes, a: nat, b: nat, plus: bool)
    requires Spells(t, RFromTo(a, b), plus)
    ensures var h := Find(t, '-'); h < |t| && Denotes(t[..h], a, plus) && Denotes(t[h + 1..], b, plus)
  {
    var x, y :| Denotes(x, a, plus) && Denotes(y, b, plus) && t == x + ['-'] + y;
    NoHyphen(x, a, plus);
    HyphenAt(t, x, y);
  }

  lemma FromAround(t: Bytes, a: nat, plus: bool)
    requires Spells(t, RFrom(a), plus)
    ensures var h := Find(t, '-'); h + 1 == |t| && Denotes(t[..h], a, plus)
  {
    var x :| Denotes(x, a, plus) && t == x + ['-'];
    assert t == x + ['-'] + [];
    NoHyphen(x, a, plus);
    HyphenAt(t, x, []);
  }

  lemma SuffixAround(t: Bytes, n: nat, plus: bool)
    requires Spells(t, RSuffix(n), plus)
    ensures Find(t, '-') == 0 < |t| && Denotes(t[1..], n, plus)
  {
    var y :| Denotes(y, n, plus) && t == ['-'] + y;
    assert t == [] + ['-'] + y;
    HyphenAt(t, [], y);
  }

  lemma AroundSpells(t: Bytes, h: nat, spec: RfcSpec, plus: bool)
    requires h < |t| && t[h] == '-' && SpellsAround(t, h, spec, plus)
    ensures Spells(t, spec, plus)
  {
    assert t == t[..h] + ['-'] + t[h + 1..];
    match spec {
      case RFromTo(a, b) =>
      case RFrom(a) => assert t == t[..h] + ['-'];
      case RSuffix(n) => assert t == ['-'] + t[1..];
    }
  }

  lemma SpellsIff(t: Bytes, spec: RfcSpec, plus: bool)
    ensures var h := Find(t, '-');
            Spells(t, spec, plus) <==> h < |t| && SpellsAround(t, h, spec, plus)
  {
    var h := Find(t, '-');
    if Spells(t, spec, plus) {
      match spec {
        case RFromTo(a, b) => FromToAround(t, a, b, plus);
        case RFrom(a) => FromAround(t, a, plus);
        case RSuffix(n) => SuffixAround(t, n, plus);
      }
    } else if h < |t| && SpellsAround(t, h, spec, plus) {
      AroundSpells(t, h, spec, plus);
    }
  }

  lemma SpelledOnce(t: Bytes, a: RfcSpec, b: RfcSpec, plus: bool)
    requires Spells(t, a, plus) && Spells(t, b, plus)
    ensures a == b
  {
    SpellsIff(t, a, plus);
    SpellsIff(t, b, plus);
  }

  /** The texts with a plus sign are those outside the RFC's grammar. */
  lemma SignedIff(t: Bytes, spec: RfcSpec)
    ensures Spells(t, spec, false) <==> Spells(t, spec, true) && '+' !in t
  {
    SpellsIff(t, spec, false);
    SpellsIff(t, spec, true);
    var h := Find(t, '-');
    if h < |t| {
      assert t == t[..h] + ['-'] + t[h + 1..];
    }
  }

  function Widen(spec: Spec): RfcSpec {
    match spec
    case FromTo(a, b) => RFromTo(a, b)
    case From(a) => RFrom(a)
    case Suffix(n) => RSuffix(n)
  }

  /** Every number of the spec fits a `u64`. */
  predicate Fits(spec: RfcSpec) {
    match spec
    case RFromTo(a, b) => a <= U64_MAX && b <= U64_MAX
    case RFrom(a) => a <= U64_MAX
    case RSuffix(n) => n <= U64_MAX
  }

  function Narrow(spec: RfcSpec): (s: Spec)
    requires Fits(spec)
    ensures Widen(s) == spec
  {
    match spec
    case RFromTo(a, b) => FromTo(a, b)
    case RFrom(a) => From(a)
    case RSuffix(n) => Suffix(n)
  }

  lemma ParseDenotes(x: Bytes, n: u64)
    ensures ParseU64(x) == Some(n) <==> Denotes(x, n, true)
  {
  }

  lemma ReadAround(t: Bytes, h: nat, s: Spec)
    requires h == Find(t, '-') < |t|
    ensures ReadTrimmed(t) == Some(s) <==> SpellsAround(t, h, Widen(s), true)
  {
    match s {
      case FromTo(a, b) =>
        ParseDenotes(t[..h], a);
        ParseDenotes(t[h + 1..], b);
      case From(a) => ParseDenotes(t[..h], a);
      case Suffix(n) => ParseDenotes(t[1..], n);
    }
  }

  /** The code reads exactly the texts of the grammar with plus signs whose numbers fit a `u64`. */
  lemma ReadIff(t: Bytes, s: Spec)
    ensures ReadTrimmed(t) == Some(s) <==> Spells(t, Widen(s), true)
  {
    SpellsIff(t, Widen(s), true);
    if Find(t, '-') < |t| {
      ReadAround(t, Find(t, '-'), s);
    }
  }

  // ---------- white space ----------

  /** OWS of section 3.2.3 of RFC 7230: spaces and tabs. */
  predicate IsWhite(c: char) {
    c == ' ' || c == '\t'
  }

  /** Skipping white space drops exactly the spaces and tabs in front. */
  lemma {:induction false} SkipOwsMeaning(s: Bytes)
    ensures var n := |s| - |SkipOws(s)|;
            && n >= 0 && SkipOws(s) == s[n..]
            && (forall i :: 0 <= i < n ==> IsWhite(s[i]))
            && (n < |s| ==> !IsWhite(s[n]))
  {
    if s != [] && IsOws(s[0]) {
      SkipOwsMeaning(s[1..]);
      assert forall i :: 1 <= i < |s| ==> s[i] == s[1..][i - 1];
    }
  }

  // ---------- one piece between commas ----------

  /** `s` without its trailing white space. */
  function TrimEnd(s: Bytes): (r: Bytes)
    ensures r <= s && (s != [] && !IsOws(s[0]) ==> r != [])
    ensures s == [] || !IsOws(s[|s| - 1]) <==> r == s
  {
    if s != [] && IsOws(s[|s| - 1]) then TrimEnd(s[..|s| - 1]) else s
  }

  /** A piece without the white space around it. */
  function Core(piece: Bytes): Bytes {
    TrimEnd(SkipOws(piece))
  }

  /** A piece that is not blank ends in white space. */
  predicate Padded(piece: Bytes) {
    Core(piece) != SkipOws(piece)
  }

  /** What a piece is: nothing but white space, outside the grammar, or an element. */
  datatype Reading = Blank | Invalid | Element(spec: RfcSpec)

  ghost function RfcReading(piece: Bytes): Reading {
    if Core(piece) == [] then Blank
    else if exists spec :: Spells(Core(piece), spec, false) then
      var spec :| Spells(Core(piece), spec, false);
      Element(spec)
    else Invalid
  }

  function CodeReading(piece: Bytes): Reading {
    match ReadSpec(piece)
    case None => Invalid
    case Some(s) => Element(Widen(s))
  }

  lemma RfcReadingIff(piece: Bytes, spec: RfcSpec)
    ensures RfcReading(piece) == Element(spec) <==> Spells(Core(piece), spec, true) && '+' !in Core(piece)
  {
    SignedIff(Core(piece), spec);
    SpellsIff(Core(piece), spec, false);
    if RfcReading(piece).Element? && Spells(Core(piece), spec, false) {
      SpelledOnce(Core(piece), RfcReading(piece).spec, spec, false);
    }
  }

  lemma CodeReadingIff(piece: Bytes, spec: RfcSpec)
    ensures CodeReading(piece) == Element(spec) <==>
            Spells(Core(piece), spec, true) && Fits(spec) && !Padded(piece)
  {
    var t := SkipOws(piece);
    SpellsIff(t, spec, true);
    if Fits(spec) {
      ReadIff(t, Narrow(spec));
    }
  }

  /**
   The code reads a piece as the RFC does exactly when the piece is not blank and, where its text
   has the form of an element up to plus signs, has a plus sign exactly when the code refuses it
   anyway: for white space at its end or a number that does not fit a `u64`.
   */
  lemma PieceAgreesIff(piece: Bytes)
    ensures CodeReading(piece) == RfcReading(piece) <==>
            && Core(piece) != []
            && forall spec :: Spells(Core(piece), spec, true) ==>
                 ('+' in Core(piece) <==> Padded(piece) || !Fits(spec))
  {
    ReadingKinds(piece);
    if spec :| Spells(Core(piece), spec, true) {
      forall other | Spells(Core(piece), other, true)
        ensures other == spec
      {
        SpelledOnce(Core(piece), other, spec, true);
      }
      RfcReadingIff(piece, spec);
      CodeReadingIff(piece, spec);
    }
  }

  /** Readings are elements only where the grammar with plus signs has one; the code knows no blank pieces. */
  lemma ReadingKinds(piece: Bytes)
    ensures !CodeReading(piece).Blank? && (RfcReading(piece).Blank? <==> Core(piece) == [])
    ensures CodeReading(piece).Element? ==> Spells(Core(piece), CodeReading(piece).spec, true)
    ensures RfcReading(piece).Element? ==> Spells(Core(piece), RfcReading(piece).spec, true)
  {
    if CodeReading(piece).Element? {
      CodeReadingIff(piece, CodeReading(piece).spec);
    }
    if RfcReading(piece).Element? {
      RfcReadingIff(piece, RfcReading(piece).spec);
    }
  }

  // ---------- the bytes a spec names ----------

  /** Section 2.1: whether `spec` names byte position `p` of an entity of `len` bytes. */
  ghost predicate Names(spec: RfcSpec, p: int, len: u64) {
    0 <= p < len &&
    match spec
    case RFromTo(a, b) => a <= p <= b
    case RFrom(a) => a <= p
    case RSuffix(n) => len - n <= p
  }

  ghost predicate Covers(r: Slice, p: int) {
    r.start <= p < r.end
  }

  /** A spec whose last position is before its first is invalid. */
  predicate Backwards(spec: RfcSpec) {
    spec.RFromTo? && spec.last < spec.first
  }

  /**
   Section 2.1: a valid set is satisfiable when some range starts inside the entity or some suffix
   is not zero.  So every suffix but `-0` satisfies, even of an empty entity.
   */
  predicate Satisfies(spec: RfcSpec, len: u64) {
    match spec
    case RFromTo(a, b) => a < len && !Backwards(spec)
    case RFrom(a) => a < len
    case RSuffix(n) => n != 0
  }

  /** `res` keeps exactly the bytes that `spec` names, and drops only a spec that does not satisfy. */
  ghost predicate Faithful(res: Resolution, spec: RfcSpec, len: u64) {
    match res
    case Kept(r) => r.start < r.end && forall p :: Covers(r, p) <==> Names(spec, p, len)
    case Dropped => !Satisfies(spec, len)
    case _ => false
  }

  /** The specs of `u64`s that the code does not treat as section 2.1 does. */
  predicate Deviates(spec: RfcSpec, len: u64, arith: Arithmetic) {
    match spec
    case RSuffix(n) => if n == 0 then len > 0 else n >= len
    case RFrom(_) => false
    case RFromTo(a, b) => b == U64_MAX && (arith.Checked? || a < len)
  }

  /**
   A piece that the RFC reads as `spec` keeps exactly the bytes that `spec` names, iff no white
   space follows it, its numbers fit a `u64`, and it does not deviate.
   */
  lemma FaithfulIff(piece: Bytes, spec: RfcSpec, len: u64, arith: Arithmetic)
    requires RfcReading(piece) == Element(spec)
    ensures Faithful(Fate(piece, len, arith), spec, len) <==>
            !Padded(piece) && Fits(spec) && !Deviates(spec, len, arith)
  {
    RfcReadingIff(piece, spec);
    CodeReadingIff(piece, spec);
    if CodeReading(piece).Element? {
      CodeReadingIff(piece, CodeReading(piece).spec);
      SpelledOnce(Core(piece), CodeReading(piece).spec, spec, true);
      ResolvedFaithful(Narrow(spec), len, arith);
    }
  }

  lemma ResolvedFaithful(spec: Spec, len: u64, arith: Arithmetic)
    ensures Faithful(Resolve(spec, len, arith), Widen(spec), len) <==> !Deviates(Widen(spec), len, arith)
  {
    match spec {
      case Suffix(n) =>
        if n >= len > 0 {
          assert Names(Widen(spec), 0, len);
        }
      case From(a) =>
      case FromTo(a, b) =>
        if b == U64_MAX && a < len {
          assert Names(Widen(spec), a, len);
        }
    }
  }

  /** The range section 2.1 assigns to a spec that satisfies. */
  function RfcRange(spec: RfcSpec, len: u64): Option<Slice> {
    match spec
    case RFromTo(a, b) => if a <= b && a < len then Some(Range(a, if b < len then b + 1 else len)) else None
    case RFrom(a) => if a < len then Some(Range(a, len)) else None
    case RSuffix(n) => if n == 0 then None else Some(Range(if n < len then len - n else 0, len))
  }

  /** That range is the set of bytes the spec names; it is empty only for a suffix of an empty entity. */
  lemma RfcRangeNames(spec: RfcSpec, len: u64)
    ensures var r := RfcRange(spec, len);
            && (r.Some? <==> Satisfies(spec, len))
            && (r.Some? ==> forall p :: Covers(r.value, p) <==> Names(spec, p, len))
            && (r.Some? && r.value.start >= r.value.end ==> len == 0 && spec.RSuffix?)
            && (r.None? ==> forall p :: !Names(spec, p, len))
  {
    var r := RfcRange(spec, len);
    if r.Some? && r.value.start < r.value.end {
      assert Names(spec, r.value.start, len);
    }
  }

  // ---------- a list of specs ----------

  function RfcRanges(specs: seq<RfcSpec>, len: u64): seq<Slice> {
    if specs == [] then []
    else
      var rest := RfcRanges(specs[1..], len);
      var r := RfcRange(specs[0], len);
      if r.Some? then [r.value] + rest else rest
  }

  function Widened(specs: seq<Spec>): (ws: seq<RfcSpec>)
    ensures |ws| == |specs| && forall i :: 0 <= i < |ws| ==> ws[i] == Widen(specs[i])
  {
    if specs == [] then [] else [Widen(specs[0])] + Widened(specs[1..])
  }

  ghost predicate SomeDeviates(specs: seq<Spec>, len: u64, arith: Arithmetic) {
    exists i :: 0 <= i < |specs| && Deviates(Widen(specs[i]), len, arith)
  }

  predicate Forwards(specs: seq<Spec>) {
    forall i :: 0 <= i < |specs| ==> !Backwards(Widen(specs[i]))
  }

  ghost predicate SomeOverflows(specs: seq<Spec>, len: u64, arith: Arithmetic) {
    exists i :: 0 <= i < |specs| && Resolve(specs[i], len, arith).Overflowed?
  }

  lemma OverflowDeviates(specs: seq<Spec>, len: u64, arith: Arithmetic)
    ensures SomeOverflows(specs, len, arith) ==> SomeDeviates(specs, len, arith)
  {
  }

  lemma {:induction false} KeptWithoutDeviation(specs: seq<Spec>, len: u64, arith: Arithmetic)
    requires Forwards(specs) && !SomeDeviates(specs, len, arith)
    ensures KeptRanges(specs, len, arith) == RfcRanges(Widened(specs), len)
  {
    if specs != [] {
      assert forall i :: 1 <= i < |specs| ==> specs[i] == specs[1..][i - 1];
      KeptWithoutDeviation(specs[1..], len, arith);
    }
  }

  /** `-0` leaves an empty range in the code's list; the RFC's list has none. */
  lemma {:induction false} EmptySuffixShows(specs: seq<Spec>, len: u64, arith: Arithmetic)
    ensures len > 0 && Suffix(0) in specs ==> Range(len, len) in KeptRanges(specs, len, arith)
    ensures len > 0 ==> Range(len, len) !in RfcRanges(Widened(specs), len)
  {
    if specs != [] {
      EmptySuffixShows(specs[1..], len, arith);
    }
  }

  /** Every other deviation loses a range. */
  lemma {:induction false} DeviationLoses(specs: seq<Spec>, len: u64, arith: Arithmetic)
    requires len > 0 ==> Suffix(0) !in specs
    requires Forwards(specs) && !SomeOverflows(specs, len, arith)
    ensures |KeptRanges(specs, len, arith)| <= |RfcRanges(Widened(specs), len)|
    ensures SomeDeviates(specs, len, arith) ==>
              |KeptRanges(specs, len, arith)| < |RfcRanges(Widened(specs), len)|
  {
    if specs != [] {
      assert forall i :: 1 <= i < |specs| ==> specs[i] == specs[1..][i - 1];
      DeviationLoses(specs[1..], len, arith);
      assert specs[0] in specs;
    }
  }

  /** What section 2.1 makes of a valid set: satisfiable when some spec satisfies, then the ranges of all that do. */
  ghost function RfcAnswer(specs: seq<RfcSpec>, len: u64): ResolvedRanges {
    if exists i :: 0 <= i < |specs| && Satisfies(specs[i], len) then Satisfiable(RfcRanges(specs, len))
    else NotSatisfiable
  }

  lemma {:induction false} SatisfiableIff(specs: seq<RfcSpec>, len: u64)
    ensures RfcRanges(specs, len) != [] <==> exists i :: 0 <= i < |specs| && Satisfies(specs[i], len)
  {
    if specs != [] {
      SatisfiableIff(specs[1..], len);
      assert forall i :: 1 <= i < |specs| ==> specs[i] == specs[1..][i - 1];
      assert RfcRange(specs[0], len).Some? <==> Satisfies(specs[0], len);
    }
  }

  /** The code resolves a list of specs that are not backwards as section 2.1 does, exactly when none deviates. */
  lemma SpecsAgreeIff(specs: seq<Spec>, len: u64, arith: Arithmetic)
    requires Forwards(specs)
    ensures ResolvedSpecs(specs, len, arith) == Returned(RfcAnswer(Widened(specs), len)) <==>
            !SomeDeviates(specs, len, arith)
  {
    SatisfiableIff(Widened(specs), len);
    OverflowDeviates(specs, len, arith);
    if !SomeDeviates(specs, len, arith) {
      KeptWithoutDeviation(specs, len, arith);
    } else if !SomeOverflows(specs, len, arith) {
      EmptySuffixShows(specs, len, arith);
      if !(len > 0 && Suffix(0) in specs) {
        DeviationLoses(specs, len, arith);
      }
    }
  }

  // ---------- the whole header ----------

  /** What a header for byte ranges begins with, in lower case. */
  const UNIT: Bytes := "bytes="

  /** That, in capitals or not: strings of the grammar are case-insensitive (section 2.3 of RFC 5234). */
  predicate BytesUnit(header: Bytes) {
    |header| >= |UNIT| && forall i :: 0 <= i < |UNIT| ==> Lower(header[i]) == UNIT[i]
  }

  function Lower(c: char): char {
    if 'A' <= c <= 'Z' then c - 'A' + 'a' else c
  }

  /** The pieces of a byte-range-set, between commas. */
  function Pieces(header: Bytes): (ps: seq<Bytes>)
    requires |header| >= |UNIT|
    ensures ps != []
  {
    Split(header[|UNIT|..], ',')
  }

  ghost predicate ValidPiece(piece: Bytes) {
    match RfcReading(piece)
    case Blank => true
    case Invalid => false
    case Element(spec) => !Backwards(spec)
  }

  ghost predicate ValidPieces(ps: seq<Bytes>) {
    forall i :: 0 <= i < |ps| ==> ValidPiece(ps[i])
  }

  /**
   The list rule `1#` of section 7 of RFC 7230: elements between commas with white space inside the
   list but not around it, empty elements allowed, at least one element; and no spec is backwards.
   */
  ghost predicate RfcValid(header: Bytes) {
    && BytesUnit(header)
    && var ps := Pieces(header);
    && SkipOws(ps[0]) == ps[0] && TrimEnd(ps[|ps| - 1]) == ps[|ps| - 1]
    && ValidPieces(ps)
    && exists i :: 0 <= i < |ps| && RfcReading(ps[i]).Element?
  }

  /** The elements of the pieces, in order. */
  ghost function RfcSpecs(pieces: seq<Bytes>): seq<RfcSpec> {
    if pieces == [] then []
    else
      var r := RfcReading(pieces[0]);
      (if r.Element? then [r.spec] else []) + RfcSpecs(pieces[1..])
  }

  /**
   The resolutions of a header that RFC 7233 allows.  A valid set is resolved as section 2.1 says.
   An invalid one may be ignored, as section 3.1 allows for any `Range` field, or refused, as
   section 4.4 allows for invalid ranges.  Another range unit must be ignored (section 3.1).
   */
  ghost predicate RfcAllows(header: Bytes, len: u64, res: ResolvedRanges) {
    if RfcValid(header) then res == RfcAnswer(RfcSpecs(Pieces(header)), len) else Refusal(header, res)
  }

  ghost predicate Refusal(header: Bytes, res: ResolvedRanges) {
    res == NoRanges || (BytesUnit(header) && res == NotSatisfiable)
  }

  /** The piece is an element without plus signs that fits a `u64`, is not padded, and does not deviate. */
  ghost predicate TreatedAlike(piece: Bytes, len: u64, arith: Arithmetic) {
    var r := RfcReading(piece);
    r.Element? && !Padded(piece) && Fits(r.spec) && !Deviates(r.spec, len, arith)
  }

  /** The text after leading white space is `spec` up to plus signs, and fits a `u64`. */
  ghost predicate Readable(piece: Bytes, spec: RfcSpec) {
    Fits(spec) && Spells(SkipOws(piece), spec, true)
  }

  ghost predicate Unreadable(piece: Bytes) {
    forall spec :: !Readable(piece, spec)
  }

  /** The piece names the largest `u64` as its last position. */
  ghost predicate EndsAtMax(piece: Bytes) {
    exists a :: Readable(piece, RFromTo(a, U64_MAX))
  }

  /** The first `k` pieces do not stop an overflow-checking build. */
  ghost predicate Reached(pieces: seq<Bytes>, k: nat, arith: Arithmetic)
    requires k <= |pieces|
  {
    arith.Checked? ==> forall j :: 0 <= j < k ==> !EndsAtMax(pieces[j])
  }

  /** Some piece is unreadable, and no piece before it ends at the largest `u64` in an overflow-checking build. */
  ghost predicate Refuses(pieces: seq<Bytes>, arith: Arithmetic) {
    exists k :: 0 <= k < |pieces| && Unreadable(pieces[k]) && Reached(pieces, k, arith)
  }

  lemma ReadableIff(piece: Bytes, spec: RfcSpec)
    ensures Readable(piece, spec) <==> Fits(spec) && ReadSpec(piece) == Some(Narrow(spec))
  {
    if Fits(spec) {
      ReadIff(SkipOws(piece), Narrow(spec));
    }
  }

  lemma UnreadablePiece(piece: Bytes, len: u64, arith: Arithmetic)
    ensures Fate(piece, len, arith).Unparseable? <==> Unreadable(piece)
  {
    FateKinds(ReadSpec(piece), len, arith);
    if ReadSpec(piece).Some? {
      ReadableIff(piece, Widen(ReadSpec(piece).value));
    } else {
      forall spec
        ensures !Readable(piece, spec)
      {
        ReadableIff(piece, spec);
      }
    }
  }

  lemma OverflowingPiece(piece: Bytes, len: u64, arith: Arithmetic)
    ensures Fate(piece, len, arith).Overflowed? <==> arith.Checked? && EndsAtMax(piece)
  {
    FateKinds(ReadSpec(piece), len, arith);
    if a :| Readable(piece, RFromTo(a, U64_MAX)) {
      ReadableIff(piece, RFromTo(a, U64_MAX));
    }
    if Fate(piece, len, arith).Overflowed? {
      ReadableIff(piece, Widen(ReadSpec(piece).value));
    }
  }

  /** An unparseable piece decides exactly when nothing before it overflows. */
  lemma FirstUnparseable(fates: seq<Resolution>)
    ensures Combine(fates) == Returned(None) <==>
            exists k :: 0 <= k < |fates| && fates[k].Unparseable? && forall j :: 0 <= j < k ==> !fates[j].Overflowed?
  {
    AllOrNothing(fates);
    var first := FirstBad(fates);
    if k :| 0 <= k < |fates| && fates[k].Unparseable? && forall j :: 0 <= j < k ==> !fates[j].Overflowed? {
      assert first <= k;
    }
  }

  lemma ReachedIff(pieces: seq<Bytes>, k: nat, len: u64, arith: Arithmetic)
    requires k < |pieces|
    ensures Unreadable(pieces[k]) <==> Fate(pieces[k], len, arith).Unparseable?
    ensures Reached(pieces, k, arith) <==> forall j :: 0 <= j < k ==> !Fate(pieces[j], len, arith).Overflowed?
  {
    UnreadablePiece(pieces[k], len, arith);
    forall j | 0 <= j < k
      ensures Fate(pieces[j], len, arith).Overflowed? <==> arith.Checked? && EndsAtMax(pieces[j])
    {
      OverflowingPiece(pieces[j], len, arith);
    }
  }

  lemma RefusesIff(pieces: seq<Bytes>, len: u64, arith: Arithmetic)
    ensures Refuses(pieces, arith) <==> Combine(Fates(pieces, len, arith)) == Returned(None)
  {
    var fates := Fates(pieces, len, arith);
    FirstUnparseable(fates);
    if Refuses(pieces, arith) {
      var k :| 0 <= k < |pieces| && Unreadable(pieces[k]) && Reached(pieces, k, arith);
      ReachedIff(pieces, k, len, arith);
      assert fates[k].Unparseable?;
    }
    if Combine(fates) == Returned(None) {
      var k :| 0 <= k < |fates| && fates[k].Unparseable? && forall j :: 0 <= j < k ==> !fates[j].Overflowed?;
      ReachedIff(pieces, k, len, arith);
    }
  }

  /** What the code drops without a trace. */
  predicate Unkept(spec: RfcSpec, len: u64, arith: Arithmetic) {
    match spec
    case RSuffix(n) => n >= len
    case RFrom(a) => a >= len
    case RFromTo(a, b) => if b == U64_MAX then arith.Wrapping? else a > b || a >= len
  }

  ghost predicate UnkeptPiece(piece: Bytes, len: u64, arith: Arithmetic) {
    exists spec :: Readable(piece, spec) && Unkept(spec, len, arith)
  }

  lemma UnkeptSpec(spec: Spec, len: u64, arith: Arithmetic)
    ensures Resolve(spec, len, arith).Dropped? <==> Unkept(Widen(spec), len, arith)
  {
  }

  lemma DroppedPiece(piece: Bytes, len: u64, arith: Arithmetic)
    ensures Fate(piece, len, arith).Dropped? <==> UnkeptPiece(piece, len, arith)
  {
    var read := ReadSpec(piece);
    if read.Some? {
      UnkeptSpec(read.value, len, arith);
      ReadableIff(piece, Widen(read.value));
    }
    if UnkeptPiece(piece, len, arith) {
      var spec :| Readable(piece, spec) && Unkept(spec, len, arith);
      ReadableIff(piece, spec);
    }
  }

  ghost predicate AllUnkept(pieces: seq<Bytes>, len: u64, arith: Arithmetic) {
    forall i :: 0 <= i < |pieces| ==> UnkeptPiece(pieces[i], len, arith)
  }

  lemma AllUnkeptIff(pieces: seq<Bytes>, len: u64, arith: Arithmetic)
    ensures AllUnkept(pieces, len, arith) <==> Combine(Fates(pieces, len, arith)) == Returned(Some([]))
  {
    AllOrNothing(Fates(pieces, len, arith));
    forall i | 0 <= i < |pieces|
      ensures Fates(pieces, len, arith)[i].Dropped? <==> UnkeptPiece(pieces[i], len, arith)
    {
      DroppedPiece(pieces[i], len, arith);
    }
  }

  function CodeSpecs(pieces: seq<Bytes>): (specs: seq<Spec>)
    requires forall i :: 0 <= i < |pieces| ==> ReadSpec(pieces[i]).Some?
    ensures |specs| == |pieces| && forall i :: 0 <= i < |specs| ==> ReadSpec(pieces[i]) == Some(specs[i])
  {
    if pieces == [] then [] else [ReadSpec(pieces[0]).value] + CodeSpecs(pieces[1..])
  }

  /** A piece that both the RFC and the code accept is the same element for both. */
  lemma BothRead(piece: Bytes)
    requires ValidPiece(piece) && ReadSpec(piece).Some?
    ensures RfcReading(piece) == Element(Widen(ReadSpec(piece).value)) && !Padded(piece)
  {
    var spec := Widen(ReadSpec(piece).value);
    CodeReadingIff(piece, spec);
    SpellsIff(Core(piece), spec, true);
    var r := RfcReading(piece).spec;
    RfcReadingIff(piece, r);
    SpelledOnce(Core(piece), r, spec, true);
  }

  lemma AlikeIsRead(piece: Bytes, len: u64, arith: Arithmetic)
    requires TreatedAlike(piece, len, arith)
    ensures ReadSpec(piece).Some?
  {
    RfcReadingIff(piece, RfcReading(piece).spec);
    CodeReadingIff(piece, RfcReading(piece).spec);
  }

  lemma {:induction false} SameSpecs(pieces: seq<Bytes>)
    requires forall i :: 0 <= i < |pieces| ==> ValidPiece(pieces[i]) && ReadSpec(pieces[i]).Some?
    ensures RfcSpecs(pieces) == Widened(CodeSpecs(pieces))
  {
    if pieces != [] {
      BothRead(pieces[0]);
      SameSpecs(pieces[1..]);
    }
  }

  lemma AlikePiece(piece: Bytes, len: u64, arith: Arithmetic)
    requires ValidPiece(piece) && ReadSpec(piece).Some?
    ensures var spec := Widen(ReadSpec(piece).value);
            !Backwards(spec) && (Deviates(spec, len, arith) <==> !TreatedAlike(piece, len, arith))
  {
    BothRead(piece);
  }

  lemma AlikeIff(pieces: seq<Bytes>, len: u64, arith: Arithmetic)
    requires forall i :: 0 <= i < |pieces| ==> ValidPiece(pieces[i]) && ReadSpec(pieces[i]).Some?
    ensures Forwards(CodeSpecs(pieces))
    ensures SomeDeviates(CodeSpecs(pieces), len, arith) <==>
            exists i :: 0 <= i < |pieces| && !TreatedAlike(pieces[i], len, arith)
  {
    var specs := CodeSpecs(pieces);
    forall i | 0 <= i < |pieces|
      ensures !Backwards(Widen(specs[i]))
      ensures Deviates(Widen(specs[i]), len, arith) <==> !TreatedAlike(pieces[i], len, arith)
    {
      AlikePiece(pieces[i], len, arith);
    }
  }

  lemma ResolvedAgreeIff(fates: seq<Resolution>, specs: seq<Spec>, len: u64, arith: Arithmetic)
    requires fates == Resolutions(specs, len, arith) && Forwards(specs)
    ensures Conclude(Combine(fates)) == Returned(RfcAnswer(Widened(specs), len)) <==>
            !SomeDeviates(specs, len, arith)
  {
    CombineResolutions(specs, len, arith);
    SpecsAgreeIff(specs, len, arith);
  }

  lemma SameFates(pieces: seq<Bytes>, len: u64, arith: Arithmetic)
    requires forall i :: 0 <= i < |pieces| ==> ReadSpec(pieces[i]).Some?
    ensures Fates(pieces, len, arith) == Resolutions(CodeSpecs(pieces), len, arith)
  {
  }

  lemma ReadAgreesIff(pieces: seq<Bytes>, len: u64, arith: Arithmetic, answer: ResolvedRanges)
    requires forall i :: 0 <= i < |pieces| ==> ValidPiece(pieces[i]) && ReadSpec(pieces[i]).Some?
    requires answer == RfcAnswer(RfcSpecs(pieces), len)
    ensures Conclude(Combine(Fates(pieces, len, arith))) == Returned(answer) <==>
            !SomeDeviates(CodeSpecs(pieces), len, arith)
  {
    SameSpecs(pieces);
    SameFates(pieces, len, arith);
    AlikeIff(pieces, len, arith);
    ResolvedAgreeIff(Fates(pieces, len, arith), CodeSpecs(pieces), len, arith);
  }

  /** A valid list of pieces: the code answers as the RFC exactly when it treats every piece alike. */
  lemma ValidAgreesIff(pieces: seq<Bytes>, len: u64, arith: Arithmetic, answer: ResolvedRanges)
    requires ValidPieces(pieces) && answer == RfcAnswer(RfcSpecs(pieces), len)
    ensures Conclude(Combine(Fates(pieces, len, arith))) == Returned(answer) <==>
            forall i :: 0 <= i < |pieces| ==> TreatedAlike(pieces[i], len, arith)
  {
    if forall i :: 0 <= i < |pieces| ==> ReadSpec(pieces[i]).Some? {
      ReadAgreesIff(pieces, len, arith, answer);
      AlikeIff(pieces, len, arith);
    } else {
      UnreadShows(pieces, len, arith);
    }
  }

  lemma UnreadShows(pieces: seq<Bytes>, len: u64, arith: Arithmetic)
    requires exists i :: 0 <= i < |pieces| && ReadSpec(pieces[i]).None?
    ensures exists i :: 0 <= i < |pieces| && !TreatedAlike(pieces[i], len, arith)
    ensures Conclude(Combine(Fates(pieces, len, arith))) in {Panic, Returned(NoRanges)}
  {
    var i :| 0 <= i < |pieces| && ReadSpec(pieces[i]).None?;
    if TreatedAlike(pieces[i], len, arith) {
      AlikeIsRead(pieces[i], len, arith);
    }
    var fates := Fates(pieces, len, arith);
    AllOrNothing(fates);
    assert fates[i].Unparseable?;
  }

  // ---------- valid headers are visible text ----------

  lemma {:induction false} SkipOwsVisible(s: Bytes)
    requires VisibleAscii(SkipOws(s))
    ensures VisibleAscii(s)
  {
    if s != [] && IsOws(s[0]) {
      SkipOwsVisible(s[1..]);
      assert forall i :: 1 <= i < |s| ==> s[i] == s[1..][i - 1];
    }
  }

  lemma {:induction false} TrimEndVisible(s: Bytes)
    requires VisibleAscii(TrimEnd(s))
    ensures VisibleAscii(s)
  {
    if s != [] && IsOws(s[|s| - 1]) {
      TrimEndVisible(s[..|s| - 1]);
      assert forall i :: 0 <= i < |s| - 1 ==> s[i] == s[..|s| - 1][i];
    }
  }

  lemma DenotesVisible(x: Bytes, n: nat)
    requires Denotes(x, n, false)
    ensures VisibleAscii(x)
  {
    assert forall i :: 0 <= i < |x| ==> IsDigit(x[i]);
  }

  lemma SpelledVisible(t: Bytes, spec: RfcSpec)
    requires Spells(t, spec, false)
    ensures VisibleAscii(t)
  {
    SpellsIff(t, spec, false);
    var h := Find(t, '-');
    var x, y := t[..h], t[h + 1..];
    match spec {
      case RFromTo(a, b) =>
        DenotesVisible(x, a);
        DenotesVisible(y, b);
      case RFrom(a) => DenotesVisible(x, a);
      case RSuffix(n) => DenotesVisible(y, n);
    }
    assert forall i :: 0 <= i < |t| ==> t[i] == if i < h then x[i] else if i == h then '-' else y[i - h - 1];
  }

  lemma PieceVisible(piece: Bytes)
    requires ValidPiece(piece)
    ensures VisibleAscii(piece)
  {
    var r := RfcReading(piece);
    if r.Element? {
      SpelledVisible(Core(piece), r.spec);
    }
    TrimEndVisible(SkipOws(piece));
    SkipOwsVisible(piece);
  }

  lemma JoinCons(p: Bytes, rest: seq<Bytes>, c: char)
    requires rest != []
    ensures Join([p] + rest, c) == p + [c] + Join(rest, c)
  {
    assert ([p] + rest)[1..] == rest;
  }

  lemma {:induction false} JoinSplit(s: Bytes, c: char)
    ensures Join(Split(s, c), c) == s
    decreases |s|
  {
    var i := Find(s, c);
    if i < |s| {
      JoinSplit(s[i + 1..], c);
      JoinCons(s[..i], Split(s[i + 1..], c), c);
      CutAround(s, i, c);
    }
  }

  lemma CutAround(s: Bytes, i: nat, c: char)
    requires i < |s| && s[i] == c
    ensures s[..i] + [c] + s[i + 1..] == s
  {
  }

  lemma ListVisible(ps: seq<Bytes>)
    requires ps != [] && ValidPieces(ps)
    ensures VisibleAscii(Join(ps, ','))
  {
    forall i | 0 <= i < |ps|
      ensures VisibleAscii(ps[i])
    {
      PieceVisible(ps[i]);
    }
    JoinVisible(ps);
  }

  lemma PrefixedVisible(header: Bytes, rest: Bytes)
    requires header == PREFIX + rest && VisibleAscii(rest)
    ensures VisibleAscii(header)
  {
    VisibleConcat(PREFIX, rest);
  }

  lemma ValidVisible(header: Bytes)
    requires RfcValid(header) && PREFIX <= header
    ensures VisibleAscii(header)
  {
    ListVisible(Pieces(header));
    JoinSplit(header[|PREFIX|..], ',');
    PrefixedVisible(header, header[|PREFIX|..]);
  }

  lemma VisibleConcat(a: Bytes, b: Bytes)
    requires VisibleAscii(a) && VisibleAscii(b)
    ensures VisibleAscii(a + b)
  {
  }

  // ---------- the theorem ----------

  /**
   When the code resolves a header as the RFC allows.  In a valid one `bytes=` must be in lower case
   and every piece must be treated alike, which leaves out blank pieces, white space before a comma,
   and large or deviating numbers.  An invalid one must not be served: it is not visible text, does
   not begin with `bytes=`, has an unreadable piece that is reached, or has no piece that is kept.
   */
  ghost predicate Agrees(header: Bytes, len: u64, arith: Arithmetic) {
    if RfcValid(header) then UNIT <= header && AllAlike(Pieces(header), len, arith) else Refused(header, len, arith)
  }

  ghost predicate AllAlike(pieces: seq<Bytes>, len: u64, arith: Arithmetic) {
    forall i :: 0 <= i < |pieces| ==> TreatedAlike(pieces[i], len, arith)
  }

  ghost predicate Refused(header: Bytes, len: u64, arith: Arithmetic) {
    || !VisibleAscii(header) || !(UNIT <= header)
    || Refuses(Pieces(header), arith) || AllUnkept(Pieces(header), len, arith)
  }

  lemma ValidHeaderAgreesIff(header: Bytes, len: u64, arith: Arithmetic)
    requires RfcValid(header) && PREFIX <= header
    ensures ParsedHeader(Some(header), len, arith) == Returned(RfcAnswer(RfcSpecs(Pieces(header)), len)) <==>
            AllAlike(Pieces(header), len, arith)
  {
    ValidVisible(header);
    ParsedPieces(header, len, arith);
    ValidAgreesIff(Pieces(header), len, arith, RfcAnswer(RfcSpecs(Pieces(header)), len));
  }

  lemma RefusedIff(header: Bytes, len: u64, arith: Arithmetic, res: Outcome<ResolvedRanges>)
    requires res == ParsedHeader(Some(header), len, arith)
    ensures res.Returned? && Refusal(header, res.value) <==> Refused(header, len, arith)
  {
    if PREFIX <= header && VisibleAscii(header) {
      assert BytesUnit(header);
      InvalidAgreesIff(header, len, arith);
    } else {
      assert res == Returned(NoRanges);
    }
  }

  /** For every header value, in both builds: parsing resolves it as RFC 7233 allows exactly when `Agrees` holds. */
  lemma HeaderAgreesIff(header: Bytes, len: u64, arith: Arithmetic)
    ensures var res := ParsedHeader(Some(header), len, arith);
            (res.Returned? && RfcAllows(header, len, res.value)) <==> Agrees(header, len, arith)
  {
    if !RfcValid(header) {
      RefusedIff(header, len, arith, ParsedHeader(Some(header), len, arith));
    } else if PREFIX <= header {
      ValidHeaderAgreesIff(header, len, arith);
    } else {
      assert ParsedHeader(Some(header), len, arith) == Returned(NoRanges);
    }
  }

  lemma NothingServed(found: Outcome<Option<seq<Slice>>>)
    ensures Conclude(found) == Returned(NoRanges) <==> found == Returned(None)
    ensures Conclude(found) == Returned(NotSatisfiable) <==> found == Returned(Some([]))
  {
  }

  lemma InvalidAgreesIff(header: Bytes, len: u64, arith: Arithmetic)
    requires VisibleAscii(header) && PREFIX <= header
    ensures ParsedHeader(Some(header), len, arith) == Returned(NoRanges) <==> Refuses(Pieces(header), arith)
    ensures ParsedHeader(Some(header), len, arith) == Returned(NotSatisfiable) <==>
            AllUnkept(Pieces(header), len, arith)
  {
    ParsedPieces(header, len, arith);
    NothingServed(Combine(Fates(Pieces(header), len, arith)));
    RefusesIff(Pieces(header), len, arith);
    AllUnkeptIff(Pieces(header), len, arith);
  }

  // ---------- inputs outside the condition ----------

  /**
   A valid header with an empty element, with white space before a comma, or with a number that
   does not fit a `u64` is never answered as the RFC says: the code ignores it, or panics over an
   earlier piece.
   */
  lemma ValidButIgnored(header: Bytes, i: nat, len: u64, arith: Arithmetic)
    requires RfcValid(header) && PREFIX <= header && i < |Pieces(header)|
    requires var piece := Pieces(header)[i];
             var r := RfcReading(piece);
             r.Blank? || Padded(piece) || !Fits(r.spec)
    ensures ParsedHeader(Some(header), len, arith) in {Panic, Returned(NoRanges)}
    ensures !RfcAllows(header, len, NoRanges)
  {
    RefusedPiece(Pieces(header)[i]);
    ValidVisible(header);
    UnreadShows(Pieces(header), len, arith);
    ParsedPieces(header, len, arith);
  }

  lemma RefusedPiece(piece: Bytes)
    requires ValidPiece(piece)
    requires var r := RfcReading(piece);
             r.Blank? || Padded(piece) || !Fits(r.spec)
    ensures ReadSpec(piece).None?
  {
    if ReadSpec(piece).Some? {
      BothRead(piece);
    }
  }

  lemma ParsedPieces(header: Bytes, len: u64, arith: Arithmetic)
    requires VisibleAscii(header) && PREFIX <= header
    ensures ParsedHeader(Some(header), len, arith) == Conclude(Combine(Fates(Pieces(header), len, arith)))
  {
  }

  /** Such headers exist with a single piece: `0-n` for every `n` above the largest `u64`. */
  lemma HugeLastValid(n: nat)
    requires n > U64_MAX
    ensures var header := PREFIX + ("0-" + Dec(n));
            RfcValid(header) && Pieces(header) == ["0-" + Dec(n)] && RfcReading("0-" + Dec(n)) == Element(RFromTo(0, n))
  {
    var t := "0-" + Dec(n);
    FromZeroTo(n);
    PlainDec(n);
    PlainConcat("0-", Dec(n));
    OnePiece(t);
    OneValidPiece(PREFIX + t, t);
  }

  lemma FromZeroTo(n: nat)
    ensures var t := "0-" + Dec(n);
            SkipOws(t) == Core(t) == t && RfcReading(t) == Element(RFromTo(0, n))
  {
    DecDigits(n);
    Zero();
    EndsInDigit("0-", Dec(n));
    assert "0-" + Dec(n) == "0" + ['-'] + Dec(n);
    Spelled("0-" + Dec(n), "0", Dec(n), 0, n);
  }

  lemma Zero()
    ensures Number("0", 0)
  {
    assert Value("0"[..0]) == 0;
  }

  lemma EndsInDigit(a: Bytes, x: Bytes)
    requires a != [] && !IsOws(a[0]) && x != [] && AllDigits(x)
    ensures SkipOws(a + x) == Core(a + x) == a + x
  {
    var t := a + x;
    assert t[|t| - 1] == x[|x| - 1] && IsDigit(x[|x| - 1]);
  }

  lemma OneValidPiece(header: Bytes, t: Bytes)
    requires PREFIX <= header && Pieces(header) == [t] && SkipOws(t) == Core(t) == t
    requires RfcReading(t).Element? && !Backwards(RfcReading(t).spec)
    ensures RfcValid(header)
  {
    assert RfcReading(Pieces(header)[0]).Element?;
  }

  lemma OnePiece(t: Bytes)
    requires ByteRange.Plain(t)
    ensures var h := PREFIX + t; VisibleAscii(h) && PREFIX <= h && Pieces(h) == [t]
  {
    assert (PREFIX + t)[|PREFIX|..] == t;
    assert forall i :: 0 <= i < |t| ==> IsPlain(t[i]);
    assert Find(t, ',') == |t|;
  }

  lemma Spelled(piece: Bytes, x: Bytes, y: Bytes, a: nat, b: nat)
    requires Number(x, a) && Number(y, b) && Core(piece) == x + ['-'] + y
    ensures RfcReading(piece) == Element(RFromTo(a, b))
  {
    assert Denotes(x, a, false) && Denotes(y, b, false);
    SignedIff(Core(piece), RFromTo(a, b));
    RfcReadingIff(piece, RFromTo(a, b));
  }

  lemma SuffixText(n: u64)
    ensures var t := "-" + Dec(n);
            && SkipOws(t) == Core(t) == t && ByteRange.Plain(t)
            && RfcReading(t) == Element(RSuffix(n)) && ReadSpec(t) == Some(Suffix(n))
  {
    var t := "-" + Dec(n);
    DecDigits(n);
    PlainDec(n);
    PlainConcat("-", Dec(n));
    EndsInDigit("-", Dec(n));
    assert Denotes(Dec(n), n, false) && Denotes(Dec(n), n, true) && t == ['-'] + Dec(n);
    SignedIff(t, RSuffix(n));
    RfcReadingIff(t, RSuffix(n));
    ReadIff(t, Suffix(n));
  }

  lemma OneElement(pieces: seq<Bytes>, spec: RfcSpec)
    requires |pieces| == 1 && RfcReading(pieces[0]) == Element(spec)
    ensures RfcSpecs(pieces) == [spec]
  {
    assert RfcSpecs(pieces[1..]) == [];
  }

  lemma OneSpec(spec: RfcSpec, len: u64)
    requires Satisfies(spec, len)
    ensures RfcAnswer([spec], len) == Satisfiable([RfcRange(spec, len).value])
  {
    assert RfcRanges([spec][1..], len) == [];
    assert Satisfies([spec][0], len);
  }

  /** A suffix that is not zero is satisfiable for an empty entity too; the code answers that it is not. */
  lemma SuffixOfNothing(n: u64, arith: Arithmetic)
    requires n > 0
    ensures var header := PREFIX + ("-" + Dec(n));
            && (forall res :: RfcAllows(header, 0, res) <==> res == Satisfiable([Range(0, 0)]))
            && ParsedHeader(Some(header), 0, arith) == Returned(NotSatisfiable)
  {
    var t := "-" + Dec(n);
    SuffixText(n);
    OnePiece(t);
    OneValidPiece(PREFIX + t, t);
    OneElement([t], RSuffix(n));
    OneSpec(RSuffix(n), 0);
    ParsedPieces(PREFIX + t, 0, arith);
    SuffixDropped(t, n, arith);
  }

  lemma SuffixDropped(piece: Bytes, n: u64, arith: Arithmetic)
    requires ReadSpec(piece) == Some(Suffix(n))
    ensures Conclude(Combine(Fates([piece], 0, arith))) == Returned(NotSatisfiable)
  {
    OneDropped(Fates([piece], 0, arith));
  }

  lemma OneDropped(fates: seq<Resolution>)
    requires fates == [Dropped]
    ensures Conclude(Combine(fates)) == Returned(NotSatisfiable)
  {
    assert fates[1..] == [];
  }

  function SignedText(a: u64, b: u64): Bytes {
    "+" + (Dec(a) + "-" + Dec(b))
  }

  lemma SignedReading(a: u64, b: u64)
    ensures RfcReading(SignedText(a, b)) == Invalid && ReadSpec(SignedText(a, b)) == Some(FromTo(a, b))
  {
    var x, y := "+" + Dec(a), Dec(b);
    var t := SignedText(a, b);
    DecDigits(a);
    DecDigits(b);
    assert t == "+" + (Dec(a) + "-") + y && t == x + ['-'] + y;
    EndsInDigit("+" + (Dec(a) + "-"), y);
    assert Denotes(x, a, true) by { assert x[1..] == Dec(a); }
    assert Denotes(y, b, true);
    ReadIff(t, FromTo(a, b));
    SignedPiece(t);
  }

  lemma PlainSigned(a: u64, b: u64)
    ensures ByteRange.Plain(SignedText(a, b))
  {
    PlainDec(a);
    PlainDec(b);
    PlainConcat(Dec(a), "-");
    PlainConcat(Dec(a) + "-", Dec(b));
    PlainConcat("+", Dec(a) + "-" + Dec(b));
  }

  /** The grammar has no plus sign, the code accepts one: `+a-b` is resolved as `a-b` would be. */
  lemma PlusSignAccepted(a: u64, b: u64, len: u64, arith: Arithmetic)
    ensures var header := PREFIX + SignedText(a, b);
            && (forall res :: RfcAllows(header, len, res) ==> !res.Satisfiable?)
            && ParsedHeader(Some(header), len, arith) == Conclude(Combine([Resolve(FromTo(a, b), len, arith)]))
  {
    var t := SignedText(a, b);
    SignedReading(a, b);
    PlainSigned(a, b);
    OnePiece(t);
    ParsedPieces(PREFIX + t, len, arith);
    assert Fates([t], len, arith) == [Resolve(FromTo(a, b), len, arith)];
    assert !ValidPiece(Pieces(PREFIX + t)[0]);
  }

  lemma SignedPiece(t: Bytes)
    requires t != [] && t[0] == '+' && Core(t) == t
    ensures RfcReading(t) == Invalid
  {
    if RfcReading(t).Element? {
      RfcReadingIff(t, RfcReading(t).spec);
    }
  }
}
