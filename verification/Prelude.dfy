/**
 Types and sequence helpers shared by every part of the model.

 A byte string is a `seq<char>`: one `char` stands for one octet.  No definition or proof
 relies on the characters being below 256, so every theorem covers all octet strings.
 */
module Prelude {

  datatype Option<+T> = None | Some(value: T) {
    predicate IsFailure() {
      None?
    }

    function PropagateFailure<U>(): Option<U>
      requires None?
    {
      None
    }

    function Extract(): T
      requires Some?
    {
      value
    }
  }

  /** A call either returns or panics (overflow check, slice index, `debug_assert!`). */
  datatype Outcome<+T> = Returned(value: T) | Panic

  const U64_MAX: int := 0xFFFF_FFFF_FFFF_FFFF

  /** Rust's `u64`: every assignment to a place of this type is an overflow proof obligation. */
  type u64 = x: int | 0 <= x <= U64_MAX

  /** Whether the build checks overflow and debug assertions (panic), or wraps and skips them (Rust's release default). */
  datatype Arithmetic = Checked | Wrapping

  /** `a - b` on a `u64`: `None` is the overflow check's panic. */
  function Minus(a: u64, b: nat, arith: Arithmetic): Option<u64> {
    if b <= a then Some(a - b)
    else if arith.Checked? then None
    else Some((a - b) % (U64_MAX + 1))
  }

  type Bytes = seq<char>

  /** Rust's half-open `Range<u64>`. */
  datatype Range = Range(start: u64, end: u64) {
    function Size(): int {
      end - start
    }

    predicate Within(len: int) {
      start <= end <= len
    }
  }

  /** A range whose end is not before its start, as every resolved range is. */
  type Slice = r: Range | r.start <= r.end witness Range(0, 0)

  predicate AllWithin(ranges: seq<Slice>, len: int) {
    forall i :: 0 <= i < |ranges| ==> ranges[i].end <= len
  }

  /** One header line: a field name and its value. */
  type Header = (Bytes, Bytes)

  /** The chunks of a queue or stream, joined. */
  function Concat(chunks: seq<Bytes>): Bytes {
    if chunks == [] then [] else chunks[0] + Concat(chunks[1..])
  }

  lemma {:induction false} ConcatAppend(a: seq<Bytes>, b: seq<Bytes>)
    ensures Concat(a + b) == Concat(a) + Concat(b)
  {
    if a == [] {
      assert a + b == b;
    } else {
      assert (a + b)[1..] == a[1..] + b;
      ConcatAppend(a[1..], b);
    }
  }

  lemma ConcatSnoc(a: seq<Bytes>, c: Bytes)
    ensures Concat(a + [c]) == Concat(a) + c
  {
    ConcatAppend(a, [c]);
    assert Concat([c]) == c;
  }

  /** Position of the first `c` in `s`, or `|s|` when there is none. */
  function Find(s: Bytes, c: char): (i: nat)
    ensures i <= |s|
    ensures i < |s| ==> s[i] == c
    ensures c !in s[..i]
  {
    if s == [] || s[0] == c then 0
    else
      assert forall j :: 1 + j <= |s| && j >= 0 ==> s[..1 + j] == [s[0]] + s[1..][..j];
      1 + Find(s[1..], c)
  }

  /** The first `c` of `a + [c] + b` is the one in the middle when `a` has none. */
  lemma {:induction false} FindMiddle(a: Bytes, c: char, b: Bytes)
    requires c !in a
    ensures Find(a + [c] + b, c) == |a|
  {
    var s := a + [c] + b;
    if a != [] {
      assert s[1..] == a[1..] + [c] + b;
      FindMiddle(a[1..], c, b);
    }
  }

  /** Optional white space of HTTP: spaces and tabs. */
  predicate IsOws(c: char) {
    c == ' ' || c == '\t'
  }

  predicate AllOws(s: Bytes) {
    forall i :: 0 <= i < |s| ==> IsOws(s[i])
  }

  /** `s` without its leading white space. */
  function SkipOws(s: Bytes): (r: Bytes)
    ensures |r| <= |s|
  {
    if s != [] && IsOws(s[0]) then SkipOws(s[1..]) else s
  }

  lemma {:induction false} SkipOwsOf(ows: Bytes, rest: Bytes)
    requires AllOws(ows) && (rest == [] || !IsOws(rest[0]))
    ensures SkipOws(ows + rest) == rest
  {
    if ows == [] {
      assert ows + rest == rest;
    } else {
      assert (ows + rest)[1..] == ows[1..] + rest;
      SkipOwsOf(ows[1..], rest);
    }
  }

  lemma Reassociate(a: Bytes, b: Bytes, c: Bytes)
    ensures (a + b) + c == a + (b + c)
  {
  }
}
