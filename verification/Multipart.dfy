/**
 `MultipartStream` of `src/serving.rs`: the state machine that sends a `multipart/byteranges` body.

 `PollMulti` on the datatype `Multi` is one call of `poll_next`; the class `MultipartStream` has the
 loop of the source and is proved to compute it.  The lemmas say what a whole run produces.
 */
module Multipart {
  import opened Prelude
  import opened Streams

  /** What follows all the parts. */
  const TRAILER: Bytes := "\r\n--B--\r\n"

  /**
   The fields of a `MultipartStream`.  With `n` ranges, `state` is `2i` to send header `i`,
   `2i + 1` to send body `i`, `2n` to send the trailer, and `2n + 1` at the end.  `scripts[i]` is
   the stream that the entity returns for `ranges[i]`, and `arith` is the kind of build.
   */
  datatype Multi = Multi(
    arith: Arithmetic,
    cur: Option<Exact>,
    state: nat,
    headers: seq<Bytes>,
    ranges: seq<Slice>,
    scripts: seq<seq<Event>>,
    remaining: u64
  ) {
    /** What the constructor's caller and the type give; kept by every poll, even after errors. */
    predicate WF() {
      && |headers| == |ranges| == |scripts|
      && (cur.Some? ==> state % 2 == 1)
    }
  }

  function Create(arith: Arithmetic, headers: seq<Bytes>, ranges: seq<Slice>, scripts: seq<seq<Event>>, len: u64): Multi {
    Multi(arith, None, 0, headers, ranges, scripts, len)
  }

  // ---------- one poll ----------

  /** Polls the current part's body. */
  function PollBody(m: Multi): (Multi, Outcome<Poll>)
    requires m.WF() && m.cur.Some?
  {
    var (x, p) := ExactPoll(m.cur.value);
    match p
    case Item(d) =>
      (match Minus(m.remaining, |d|, m.arith)
       case None => (m, Panic)
       case Some(left) => (m.(cur := Some(x), remaining := left), Returned(p)))
    case Fail(_) => (m.(cur := Some(x), remaining := 0, state := 2 * |m.ranges| + 1), Returned(p))
    case Done => SendNext(Closed(m))
    case Pending => (m.(cur := Some(x)), Returned(p))
  }

  /** In an even state: sends the next part's header, or the trailer. */
  function SendNext(m: Multi): (Multi, Outcome<Poll>)
    requires m.WF() && m.cur.None? && m.state % 2 == 0
  {
    var i := m.state / 2;
    if i == |m.ranges| then
      match Minus(m.remaining, |TRAILER|, m.arith)
      case None => (m, Panic)
      case Some(left) => (m.(state := m.state + 1, remaining := left), Returned(Item(TRAILER)))
    else if i > |m.ranges| then (m, Panic)
    else
      var v := m.headers[i];
      match Minus(m.remaining, |v|, m.arith)
      case None => (m, Panic)
      case Some(left) =>
        (m.(headers := m.headers[i := []], state := m.state + 1, remaining := left), Returned(Item(v)))
  }

  /** Opens the stream of the part whose body comes next. */
  function Open(m: Multi): Multi
    requires m.WF() && m.state % 2 == 1 && m.state / 2 < |m.ranges|
  {
    var i := m.state / 2;
    m.(cur := Some(Exact(m.scripts[i], m.ranges[i].Size())))
  }

  function PollMulti(m: Multi): (Multi, Outcome<Poll>)
    requires m.WF()
  {
    if m.cur.Some? then PollBody(m)
    else if m.state % 2 == 0 then SendNext(m)
    else if m.state / 2 == |m.ranges| then 
      (m, if m.remaining == 0 || m.arith.Wrapping? then Returned(Done) else Panic)
    else if m.state / 2 > |m.ranges| then (m, Panic)
    else PollBody(Open(m))
  }

  class MultipartStream {
    const arith: Arithmetic
    var cur: ExactLenStream?
    var state: nat
    var headers: seq<Bytes>
    const ranges: seq<Slice>
    const entity: seq<seq<Event>>
    var remaining: u64

    constructor (arith: Arithmetic, entity: seq<seq<Event>>, headers: seq<Bytes>, ranges: seq<Slice>, len: u64)
      requires Create(arith, headers, ranges, entity, len).WF()
      ensures Valid() && cur == null && Abs() == Create(arith, headers, ranges, entity, len)
    {
      this.arith := arith;
      cur := null;
      state := 0;
      this.headers := headers;
      this.ranges := ranges;
      this.entity := entity;
      remaining := len;
    }

    ghost function Footprint(): set<object>
      reads this, cur
    {
      {this} + if cur == null then {} else {cur, cur.stream}
    }

    ghost function Abs(): Multi
      reads Footprint()
    {
      Multi(arith, if cur == null then None else Some(cur.Abs()), state, headers, ranges, entity, remaining)
    }

    ghost predicate Valid()
      reads Footprint()
    {
      Abs().WF()
    }

    method PollNext() returns (res: Outcome<Poll>)
      requires Valid()
      modifies Footprint()
      ensures res == PollMulti(old(Abs())).1
      ensures res.Returned? ==> Valid() && Abs() == PollMulti(old(Abs())).0
      ensures fresh(Footprint() - old(Footprint()))
    {
      while true
        invariant Valid() && fresh(Footprint() - old(Footprint()))
        invariant PollMulti(Abs()) == PollMulti(old(Abs()))
        decreases cur == null
      {
        if cur != null {
          var answer := PollCurrent();
          if answer.Some? {
            return answer.value;
          }
        }
        var answer := Advance();
        if answer.Some? {
          return answer.value;
        }
      }
    }

    /** The first half of the loop body: polls the open part, and closes it when it has ended. */
    method PollCurrent() returns (answer: Option<Outcome<Poll>>)
      requires Valid() && cur != null
      modifies this, cur, cur.stream
      ensures answer.None? ==> cur == null && state % 2 == 0 && Valid() && PollMulti(Abs()) == PollMulti(old(Abs()))
      ensures answer.Some? ==> cur == old(cur) && answer.value == PollMulti(old(Abs())).1
      ensures answer.Some? && answer.value.Returned? ==> Valid() && Abs() == PollMulti(old(Abs())).0
    {
      var p := cur.PollNext();
      match p
      case Item(d) =>
        var left := Minus(remaining, |d|, arith);
        if left.None? { return Some(Panic); }
        remaining := left.value;
        return Some(Returned(p));
      case Fail(_) =>
        remaining := 0;
        state := 2 * |ranges| + 1;
        return Some(Returned(p));
      case Done =>
        cur := null;
        state := state + 1;
        return None;
      case Pending =>
        return Some(Returned(p));
    }

    /** The second half of the loop body: with no part open, answers from `state` or opens the next part. */
    method Advance() returns (answer: Option<Outcome<Poll>>)
      requires Valid() && cur == null
      modifies this
      ensures answer.None? ==> old(state) % 2 == 1 && Valid() && PollMulti(Abs()) == PollMulti(old(Abs()))
      ensures answer.None? ==> cur != null && fresh(cur) && fresh(cur.stream)
      ensures answer.Some? ==> answer.value == PollMulti(old(Abs())).1 && cur == null
      ensures answer.Some? && answer.value.Returned? ==> Valid() && Abs() == PollMulti(old(Abs())).0
    {
      var i := state / 2;
      var odd := state % 2 == 1;
      if i == |ranges| && odd {
        if remaining != 0 && arith.Checked? { return Some(Panic); }
        return Some(Returned(Done));
      }
      if i == |ranges| {
        state := state + 1;
        var left := Minus(remaining, |TRAILER|, arith);
        if left.None? { return Some(Panic); }
        remaining := left.value;
        return Some(Returned(Item(TRAILER)));
      } else if i > |ranges| {
        return Some(Panic);
      } else if odd {
        var s := new EntityStream(entity[i]);
        cur := new ExactLenStream(ranges[i].end - ranges[i].start, s);
        return None;
      } else {
        var v := headers[i];
        headers := headers[i := []];
        state := state + 1;
        var left := Minus(remaining, |v|, arith);
        if left.None? { return Some(Panic); }
        remaining := left.value;
        return Some(Returned(Item(v)));
      }
    }
  }

  // ---------- what is owed ----------

  /** The length of everything from part `i` on. */
  function Owed(headers: seq<Bytes>, ranges: seq<Slice>, i: nat): int
    requires |headers| == |ranges|
    decreases |ranges| - i
  {
    if i >= |ranges| then |TRAILER| else |headers[i]| + ranges[i].Size() + Owed(headers, ranges, i + 1)
  }

  /** The text of everything from part `i` on. */
  function Content(headers: seq<Bytes>, bodies: seq<Bytes>, i: nat): Bytes
    decreases |bodies| - i
  {
    if i >= |bodies| || i >= |headers| then TRAILER else headers[i] + (bodies[i] + Content(headers, bodies, i + 1))
  }

  lemma {:induction false} OwedFrame(a: seq<Bytes>, b: seq<Bytes>, ranges: seq<Slice>, i: nat)
    requires |a| == |b| == |ranges| && forall j :: i <= j < |a| ==> a[j] == b[j]
    ensures Owed(a, ranges, i) == Owed(b, ranges, i)
    decreases |ranges| - i
  {
    if i < |ranges| {
      OwedFrame(a, b, ranges, i + 1);
    }
  }

  lemma {:induction false} OwedAtLeastTrailer(headers: seq<Bytes>, ranges: seq<Slice>, i: nat)
    requires |headers| == |ranges|
    ensures Owed(headers, ranges, i) >= |TRAILER|
    decreases |ranges| - i
  {
    if i < |ranges| {
      OwedAtLeastTrailer(headers, ranges, i + 1);
    }
  }

  lemma {:induction false} ContentFrame(a: seq<Bytes>, b: seq<Bytes>, bodies: seq<Bytes>, i: nat)
    requires |a| == |b| == |bodies| && forall j :: i <= j < |a| ==> a[j] == b[j]
    ensures Content(a, bodies, i) == Content(b, bodies, i)
    decreases |bodies| - i
  {
    if i < |bodies| {
      ContentFrame(a, b, bodies, i + 1);
    }
  }

  lemma {:induction false} ContentLength(headers: seq<Bytes>, bodies: seq<Bytes>, ranges: seq<Slice>, i: nat)
    requires |headers| == |bodies| == |ranges| && forall j :: i <= j < |ranges| ==> |bodies[j]| == ranges[j].Size()
    ensures |Content(headers, bodies, i)| == Owed(headers, ranges, i)
    decreases |bodies| - i
  {
    if i < |bodies| {
      ContentLength(headers, bodies, ranges, i + 1);
    }
  }

  // ---------- the invariant before the first error ----------

  /** The bytes still to be sent, computed from the phase that `state` and `cur` encode. */
  function Promise(m: Multi): int
    requires |m.headers| == |m.ranges|
  {
    var i := m.state / 2;
    if i >= |m.ranges| then if m.state == 2 * |m.ranges| then |TRAILER| else 0
    else if m.state % 2 == 0 then Owed(m.headers, m.ranges, i)
    else (if m.cur.Some? then m.cur.value.remaining else m.ranges[i].Size()) + Owed(m.headers, m.ranges, i + 1)
  }

  /** Holds from the start until the first error: `cur` is open only in a body phase, and `remaining` is exact. */
  ghost predicate Inv(m: Multi) {
    && m.WF()
    && m.state <= 2 * |m.ranges| + 1
    && (m.cur.Some? ==> m.state / 2 < |m.ranges|)
    && m.remaining == Promise(m)
  }

  /** `m'` is a legal continuation of `m` by one poll that answers `p`. */
  ghost predicate Continues(m: Multi, m': Multi, p: Poll) {
    match p
    case Item(d) => Inv(m') && m'.remaining + |d| == m.remaining
    case Pending => Inv(m') && m'.remaining == m.remaining
    case Done => m' == m && m.remaining == 0
    case Fail(_) => m'.WF() && m'.remaining == 0 && m'.cur.Some? && m'.state == 2 * |m.ranges| + 1 && m.remaining > 0
  }

  lemma SendNextKeeps(m: Multi)
    requires Inv(m) && m.cur.None? && m.state % 2 == 0
    ensures SendNext(m).1.Returned? && SendNext(m).1.value.Item?
    ensures Continues(m, SendNext(m).0, SendNext(m).1.value)
  {
    var i := m.state / 2;
    if i < |m.ranges| {
      OwedAtLeastTrailer(m.headers, m.ranges, i + 1);
      OwedFrame(m.headers, m.headers[i := []], m.ranges, i + 1);
    }
  }

  /** The state once the open part has ended. */
  function Closed(m: Multi): Multi {
    m.(cur := None, state := m.state + 1)
  }

  lemma ClosedKeeps(m: Multi)
    requires Inv(m) && m.cur.Some? && m.cur.value.remaining == 0
    ensures Inv(Closed(m)) && Closed(m).state % 2 == 0 && Closed(m).state / 2 == m.state / 2 + 1
  {
  }

  lemma PollBodyKeeps(m: Multi)
    requires Inv(m) && m.cur.Some?
    ensures PollBody(m).1.Returned? && !PollBody(m).1.value.Done?
    ensures Continues(m, PollBody(m).0, PollBody(m).1.value)
  {
    var i := m.state / 2;
    OwedAtLeastTrailer(m.headers, m.ranges, i + 1);
    var (x, p) := ExactPoll(m.cur.value);
    match p {
      case Done =>
        ClosedKeeps(m);
        SendNextKeeps(Closed(m));
      case _ =>
        ExactPollConserves(m.cur.value);
    }
  }

  /**
   Whatever the entity does, a poll before the first error never panics: no subtraction
   underflows, no index is out of bounds and the final assertion holds.  Every poll accounts for
   exactly the bytes it sends, and the stream ends only when nothing is owed.
   */
  lemma PollKeeps(m: Multi)
    requires Inv(m)
    ensures PollMulti(m).1.Returned?
    ensures Continues(m, PollMulti(m).0, PollMulti(m).1.value)
  {
    if m.cur.Some? {
      PollBodyKeeps(m);
    } else if m.state % 2 == 0 {
      SendNextKeeps(m);
    } else if m.state / 2 < |m.ranges| {
      PollBodyKeeps(Open(m));
    }
  }

  // ---------- progress ----------

  function Events(scripts: seq<seq<Event>>, i: nat): nat
    decreases |scripts| - i
  {
    if i >= |scripts| then 0 else |scripts[i]| + Events(scripts, i + 1)
  }

  /** Bounds the polls left: the phases left plus the entity's answers left. */
  function Measure(m: Multi): int
    requires m.WF() && m.state <= 2 * |m.ranges| + 1
  {
    2 * |m.ranges| + 1 - m.state
    + (if m.cur.Some? then |m.cur.value.script| + Events(m.scripts, m.state / 2 + 1)
       else Events(m.scripts, m.state / 2))
  }

  lemma SendNextShrinks(m: Multi)
    requires Inv(m) && m.cur.None? && m.state % 2 == 0
    ensures Inv(SendNext(m).0) && Measure(SendNext(m).0) == Measure(m) - 1
  {
    SendNextKeeps(m);
  }

  lemma PollBodyShrinks(m: Multi)
    requires Inv(m) && m.cur.Some?
    ensures PollBody(m).1.Returned?
    ensures !PollBody(m).1.value.Fail? ==> Inv(PollBody(m).0) && Measure(PollBody(m).0) < Measure(m)
  {
    PollBodyKeeps(m);
    if ExactPoll(m.cur.value).1.Done? {
      ClosedKeeps(m);
      SendNextShrinks(Closed(m));
      assert Measure(Closed(m)) < Measure(m);
    }
  }

  lemma PollShrinks(m: Multi)
    requires Inv(m)
    ensures Measure(m) >= 0
    ensures var (m', res) := PollMulti(m);
            res.Returned? && (res.value.Item? || res.value.Pending?) ==> Inv(m') && Measure(m') < Measure(m)
  {
    if m.cur.Some? {
      PollBodyShrinks(m);
    } else if m.state % 2 == 0 {
      SendNextShrinks(m);
    } else if m.state / 2 < |m.ranges| {
      PollBodyShrinks(Open(m));
      assert Measure(Open(m)) == Measure(m);
    }
  }

  // ---------- whole runs ----------

  /** Polls until the first error or the end: the bytes sent, how it finished, and the number of polls. */
  function Drain(m: Multi): (r: (Bytes, Finish, nat))
    requires Inv(m)
    ensures r.2 <= Measure(m) + 1
    decreases Measure(m)
  {
    PollKeeps(m);
    PollShrinks(m);
    var (m', res) := PollMulti(m);
    match res.value
    case Done => ([], Completed, 1)
    case Fail(f) => ([], Broken(f), 1)
    case Pending => var (rest, fin, n) := Drain(m'); (rest, fin, n + 1)
    case Item(d) => var (rest, fin, n) := Drain(m'); (d + rest, fin, n + 1)
  }

  function Payloads(scripts: seq<seq<Event>>): (ps: seq<Bytes>)
    ensures |ps| == |scripts| && forall i :: 0 <= i < |ps| ==> ps[i] == Payload(scripts[i])
  {
    seq(|scripts|, i requires 0 <= i < |scripts| => Payload(scripts[i]))
  }

  ghost predicate DeliversFrom(scripts: seq<seq<Event>>, ranges: seq<Slice>, i: nat) {
    forall j :: i <= j < |ranges| && j < |scripts| ==> Delivers(scripts[j], ranges[j].Size())
  }

  /** Every stream still to be read delivers exactly what is still expected of it. */
  ghost predicate AllDeliver(m: Multi) {
    if m.cur.Some? then
      Delivers(m.cur.value.script, m.cur.value.remaining) && DeliversFrom(m.scripts, m.ranges, m.state / 2 + 1)
    else DeliversFrom(m.scripts, m.ranges, m.state / 2)
  }

  /** The text still to come, with whatever data each stream produces before it stops. */
  ghost function Expect(m: Multi): Bytes {
    var i, bodies := m.state / 2, Payloads(m.scripts);
    if i >= |bodies| then if m.state % 2 == 0 then TRAILER else []
    else if m.state % 2 == 0 then Content(m.headers, bodies, i)
    else (if m.cur.Some? then Payload(m.cur.value.script) else bodies[i]) + Content(m.headers, bodies, i + 1)
  }

  /** What one answer says about the run: it never changes the verdict, and its bytes come first. */
  ghost predicate Explains(m: Multi, m': Multi, p: Poll) {
    match p
    case Item(d) => (AllDeliver(m) <==> AllDeliver(m')) && Expect(m) == d + Expect(m')
    case Pending => (AllDeliver(m) <==> AllDeliver(m')) && Expect(m) == Expect(m')
    case Done => AllDeliver(m) && Expect(m) == []
    case Fail(_) => !AllDeliver(m)
  }

  /** A part is open; nothing is assumed about the bytes owed. */
  ghost predicate InBody(m: Multi) {
    m.WF() && m.cur.Some? && m.state / 2 < |m.ranges|
  }

  lemma SendNextExplains(m: Multi)
    requires m.WF() && m.cur.None? && m.state % 2 == 0 && SendNext(m).1.Returned?
    ensures Explains(m, SendNext(m).0, SendNext(m).1.value)
  {
    var i := m.state / 2;
    if i < |m.ranges| {
      ContentFrame(m.headers, m.headers[i := []], Payloads(m.scripts), i + 1);
    }
  }

  lemma ClosedExplains(m: Multi)
    requires InBody(m) && ExactPoll(m.cur.value).1.Done?
    ensures (AllDeliver(m) <==> AllDeliver(Closed(m))) && Expect(m) == Expect(Closed(m))
  {
    ExactPollMeaning(m.cur.value);
    assert Expect(m) == [] + Expect(Closed(m));
  }

  lemma DoneExplains(m: Multi)
    requires InBody(m) && ExactPoll(m.cur.value).1.Done? && SendNext(Closed(m)).1.Returned?
    ensures var (m', res) := SendNext(Closed(m)); Explains(m, m', res.value)
  {
    ClosedExplains(m);
    SendNextExplains(Closed(m));
  }

  lemma PendingExplains(m: Multi, x: Exact)
    requires InBody(m) && ExactPoll(m.cur.value) == (x, Pending)
    ensures Explains(m, m.(cur := Some(x)), Pending)
  {
    ExactPollMeaning(m.cur.value);
  }

  lemma ExpectInBody(m: Multi)
    requires InBody(m)
    ensures Expect(m) == Payload(m.cur.value.script) + Content(m.headers, Payloads(m.scripts), m.state / 2 + 1)
  {
  }

  lemma ItemExplains(m: Multi, x: Exact, d: Bytes, left: u64)
    requires InBody(m) && ExactPoll(m.cur.value) == (x, Item(d))
    ensures Explains(m, m.(cur := Some(x), remaining := left), Item(d))
  {
    var m' := m.(cur := Some(x), remaining := left);
    assert Expect(m) == d + Expect(m') by {
      ExactPollMeaning(m.cur.value);
      ExpectInBody(m);
      ExpectInBody(m');
    }
    assert AllDeliver(m) <==> AllDeliver(m') by {
      ExactPollMeaning(m.cur.value);
    }
  }

  lemma FailExplains(m: Multi, m': Multi, f: Failure)
    requires InBody(m) && ExactPoll(m.cur.value).1 == Fail(f)
    ensures Explains(m, m', Fail(f))
  {
    ExactPollMeaning(m.cur.value);
  }

  lemma PollBodyExplains(m: Multi)
    requires InBody(m) && PollBody(m).1.Returned?
    ensures Explains(m, PollBody(m).0, PollBody(m).1.value)
  {
    var (x, p) := ExactPoll(m.cur.value);
    match p {
      case Done => DoneExplains(m);
      case Item(d) => ItemExplains(m, x, d, PollBody(m).0.remaining);
      case Pending => PendingExplains(m, x);
      case Fail(f) => FailExplains(m, PollBody(m).0, f);
    }
  }

  lemma PollExplains(m: Multi)
    requires Inv(m)
    ensures PollMulti(m).1.Returned? && Explains(m, PollMulti(m).0, PollMulti(m).1.value)
  {
    PollKeeps(m);
    if m.cur.Some? {
      PollBodyExplains(m);
    } else if m.state % 2 == 0 {
      SendNextExplains(m);
    } else if m.state / 2 < |m.ranges| {
      PollBodyExplains(Open(m));
      OpenExplains(m);
    }
  }

  lemma OpenExplains(m: Multi)
    requires m.WF() && m.cur.None? && m.state % 2 == 1 && m.state / 2 < |m.ranges|
    ensures (AllDeliver(m) <==> AllDeliver(Open(m))) && Expect(m) == Expect(Open(m))
  {
  }

  /**
   The run completes exactly when every part's stream delivers its promised number of bytes.
   Then the bytes sent are exactly the expected text, as many as `remaining` said.  Otherwise
   fewer are sent before the error - and even then they are the beginning of the headers and of
   the data that the entity produced, in order.
   */
  lemma {:induction false} DrainMeaning(m: Multi)
    requires Inv(m)
    ensures Drain(m).1 == Completed <==> AllDeliver(m)
    ensures Drain(m).1 == Completed ==> Drain(m).0 == Expect(m) && |Drain(m).0| == m.remaining
    ensures Drain(m).1 != Completed ==> |Drain(m).0| < m.remaining
    ensures Drain(m).0 <= Expect(m)
    decreases Measure(m)
  {
    PollKeeps(m);
    PollShrinks(m);
    PollExplains(m);
    var (m', res) := PollMulti(m);
    if res.value.Pending? || res.value.Item? {
      DrainMeaning(m');
    }
  }

  // ---------- a run is the runs of its parts ----------

  /**
   What parts from `i` on send and how they finish, one after the other: a header, then whatever a
   run of the part's own exact-length stream sends; the first one that breaks breaks the body.
   */
  ghost function PartRuns(headers: seq<Bytes>, ranges: seq<Slice>, scripts: seq<seq<Event>>, i: nat): (Bytes, Finish)
    requires |headers| == |ranges| == |scripts|
    decreases |ranges| - i
  {
    if i >= |ranges| then (TRAILER, Completed)
    else Before(headers[i], Then(ExactDrain(Exact(scripts[i], ranges[i].Size())), PartRuns(headers, ranges, scripts, i + 1)))
  }

  ghost function Before(data: Bytes, run: (Bytes, Finish)): (Bytes, Finish) {
    (data + run.0, run.1)
  }

  ghost function Then(first: (Bytes, Finish), rest: (Bytes, Finish)): (Bytes, Finish) {
    if first.1.Completed? then Before(first.0, rest) else first
  }

  /** The same from any state. */
  ghost function RunsFrom(m: Multi): (Bytes, Finish)
    requires m.WF()
  {
    var i := m.state / 2;
    if i >= |m.ranges| then if m.state % 2 == 0 then (TRAILER, Completed) else ([], Completed)
    else if m.state % 2 == 0 then PartRuns(m.headers, m.ranges, m.scripts, i)
    else
      Then(ExactDrain(if m.cur.Some? then m.cur.value else Exact(m.scripts[i], m.ranges[i].Size())),
           PartRuns(m.headers, m.ranges, m.scripts, i + 1))
  }

  lemma {:induction false} PartRunsFrame(
    a: seq<Bytes>, b: seq<Bytes>, ranges: seq<Slice>, scripts: seq<seq<Event>>, i: nat)
    requires |a| == |b| == |ranges| == |scripts| && forall j :: i <= j < |a| ==> a[j] == b[j]
    ensures PartRuns(a, ranges, scripts, i) == PartRuns(b, ranges, scripts, i)
    decreases |ranges| - i
  {
    if i < |ranges| {
      PartRunsFrame(a, b, ranges, scripts, i + 1);
    }
  }

  /** One answer comes first in the run, and a last answer is all of it. */
  ghost predicate RunsAs(m: Multi, m': Multi, p: Poll)
    requires m.WF()
  {
    match p
    case Item(d) => m'.WF() && RunsFrom(m) == Before(d, RunsFrom(m'))
    case Pending => m'.WF() && RunsFrom(m) == RunsFrom(m')
    case Done => RunsFrom(m) == ([], Completed)
    case Fail(f) => RunsFrom(m) == ([], Broken(f))
  }

  lemma SendNextRuns(m: Multi)
    requires m.WF() && m.cur.None? && m.state % 2 == 0 && SendNext(m).1.Returned?
    ensures RunsAs(m, SendNext(m).0, SendNext(m).1.value)
  {
    var i := m.state / 2;
    if i < |m.ranges| {
      PartRunsFrame(m.headers, m.headers[i := []], m.ranges, m.scripts, i + 1);
    } else {
      assert TRAILER + [] == TRAILER;
    }
  }

  lemma ClosedRuns(m: Multi)
    requires InBody(m) && ExactPoll(m.cur.value).1.Done?
    ensures RunsFrom(m) == RunsFrom(Closed(m))
  {
    var rest := PartRuns(m.headers, m.ranges, m.scripts, m.state / 2 + 1);
    assert ExactDrain(m.cur.value) == ([], Completed);
    assert [] + rest.0 == rest.0;
  }

  lemma ThenLater(d: Bytes, first: (Bytes, Finish), rest: (Bytes, Finish))
    ensures Then(Before(d, first), rest) == Before(d, Then(first, rest))
  {
    Reassociate(d, first.0, rest.0);
  }

  lemma PollBodyRuns(m: Multi)
    requires InBody(m) && PollBody(m).1.Returned?
    ensures RunsAs(m, PollBody(m).0, PollBody(m).1.value)
  {
    var (x, p) := ExactPoll(m.cur.value);
    match p {
      case Done =>
        ClosedRuns(m);
        SendNextRuns(Closed(m));
      case Item(d) =>
        ThenLater(d, ExactDrain(x), PartRuns(m.headers, m.ranges, m.scripts, m.state / 2 + 1));
      case _ =>
    }
  }

  lemma PollRuns(m: Multi)
    requires Inv(m)
    ensures PollMulti(m).1.Returned? && RunsAs(m, PollMulti(m).0, PollMulti(m).1.value)
  {
    PollKeeps(m);
    if m.cur.Some? {
      PollBodyRuns(m);
    } else if m.state % 2 == 0 {
      SendNextRuns(m);
    } else if m.state / 2 < |m.ranges| {
      PollBodyRuns(Open(m));
    }
  }

  /**
   Whatever the entity does, a multipart run sends header, part, header, part, ..., trailer, where
   each part sends what its own exact-length stream does, up to the first part that breaks; and it
   breaks with that part's failure.
   */
  lemma {:induction false} DrainRuns(m: Multi)
    requires Inv(m)
    ensures (Drain(m).0, Drain(m).1) == RunsFrom(m)
    decreases Measure(m)
  {
    PollKeeps(m);
    PollShrinks(m);
    PollRuns(m);
    var (m', res) := PollMulti(m);
    if res.value.Pending? || res.value.Item? {
      DrainRuns(m');
    }
  }

  /** `k` is the first part from `i` on whose stream does not deliver its range. */
  ghost predicate FirstToBreak(ranges: seq<Slice>, scripts: seq<seq<Event>>, i: nat, k: nat)
    requires |ranges| == |scripts|
  {
    && i <= k < |ranges| && !Delivers(scripts[k], ranges[k].Size())
    && forall j :: i <= j < k ==> Delivers(scripts[j], ranges[j].Size())
  }

  lemma {:induction false} PartRunsBreak(
    headers: seq<Bytes>, ranges: seq<Slice>, scripts: seq<seq<Event>>, i: nat, k: nat)
    requires |headers| == |ranges| == |scripts| && FirstToBreak(ranges, scripts, i, k)
    ensures PartRuns(headers, ranges, scripts, i).1.Broken?
    ensures BreaksWith(scripts[k], ranges[k].Size(), PartRuns(headers, ranges, scripts, i).1.error)
    decreases |ranges| - i
  {
    var x := Exact(scripts[i], ranges[i].Size());
    ExactDrainMeaning(x);
    if i < k {
      PartRunsBreak(headers, ranges, scripts, i + 1, k);
    } else {
      FailureMeaning(x);
    }
  }

  /**
   A body that breaks reports the failure of the first part `k` whose stream does not deliver:
   too long, the entity's own error, or too short, whichever that part's answers call for, with
   its amount or code.
   */
  lemma FirstFailureDecides(
    arith: Arithmetic, headers: seq<Bytes>, ranges: seq<Slice>, scripts: seq<seq<Event>>, len: u64, k: nat)
    requires |headers| == |ranges| == |scripts| && len == Owed(headers, ranges, 0)
    requires FirstToBreak(ranges, scripts, 0, k)
    ensures var m := Create(arith, headers, ranges, scripts, len);
            && Inv(m) && Drain(m).1.Broken?
            && BreaksWith(scripts[k], ranges[k].Size(), Drain(m).1.error)
  {
    DrainRuns(Create(arith, headers, ranges, scripts, len));
    PartRunsBreak(headers, ranges, scripts, 0, k);
  }

  /** The body waits only for an entity's stream that waits, so that a waker is stored. */
  lemma PendingIff(m: Multi)
    requires Inv(m)
    ensures PollMulti(m).1 == Returned(Pending) <==>
            m.state % 2 == 1 && m.state / 2 < |m.ranges| &&
            Head(if m.cur.Some? then m.cur.value.script else m.scripts[m.state / 2]).NotReady?
  {
    PollKeeps(m);
    if m.cur.Some? && ExactPoll(m.cur.value).1.Done? {
      ExactPollMeaning(m.cur.value);
      ClosedKeeps(m);
      SendNextKeeps(Closed(m));
    } else if m.cur.None? && m.state % 2 == 0 {
      SendNextKeeps(m);
    } else if m.cur.None? && m.state / 2 < |m.ranges| && ExactPoll(Open(m).cur.value).1.Done? {
      ExactPollMeaning(Open(m).cur.value);
      ClosedKeeps(Open(m));
      SendNextKeeps(Closed(Open(m)));
    }
  }

  /**
   A fresh multipart body over an entity whose streams are honest sends header 0, body 0, ...,
   the last body and the trailer, whatever the chunking and the pauses, and exactly the promised
   number of bytes.
   */
  lemma HonestBody(
    arith: Arithmetic, headers: seq<Bytes>, ranges: seq<Slice>, scripts: seq<seq<Event>>, bodies: seq<Bytes>, len: u64)
    requires |headers| == |ranges| == |scripts| == |bodies|
    requires forall i :: 0 <= i < |ranges| ==>
      Honest(scripts[i], bodies[i]) && |bodies[i]| == ranges[i].Size()
    requires len == Owed(headers, ranges, 0)
    ensures var m := Create(arith, headers, ranges, scripts, len);
            && Inv(m)
            && Drain(m).0 == Content(headers, bodies, 0)
            && Drain(m).1 == Completed
            && |Drain(m).0| == len
  {
    var m := Create(arith, headers, ranges, scripts, len);
    DrainMeaning(m);
    assert AllDeliver(m);
    assert Payloads(scripts) == bodies;
    if ranges == [] {
      assert Expect(m) == TRAILER == Content(headers, bodies, 0);
    }
  }

  // ---------- streams that are not fused ----------

  /** Two bodies in the same place, whose entities' streams are alike up to their first ends. */
  ghost predicate AlikeBodies(m: Multi, n: Multi) {
    && n == m.(cur := n.cur, scripts := n.scripts)
    && (m.cur.Some? <==> n.cur.Some?) && (m.cur.Some? ==> Alike(m.cur.value, n.cur.value))
    && |m.scripts| == |n.scripts|
    && forall i :: 0 <= i < |m.scripts| ==> UntilEnd(m.scripts[i]) == UntilEnd(n.scripts[i])
  }

  lemma AlikePollBody(m: Multi, n: Multi)
    requires m.WF() && n.WF() && m.cur.Some? && AlikeBodies(m, n)
    ensures PollBody(m).1 == PollBody(n).1
    ensures PollBody(m).1.Returned? && !PollBody(m).1.value.Fail? ==> AlikeBodies(PollBody(m).0, PollBody(n).0)
  {
    AlikePoll(m.cur.value, n.cur.value);
  }

  lemma AlikePollMulti(m: Multi, n: Multi)
    requires m.WF() && n.WF() && AlikeBodies(m, n)
    ensures PollMulti(m).1 == PollMulti(n).1
    ensures PollMulti(m).1.Returned? && !PollMulti(m).1.value.Fail? ==> AlikeBodies(PollMulti(m).0, PollMulti(n).0)
  {
    if m.cur.Some? {
      AlikePollBody(m, n);
    } else if m.state % 2 == 1 && m.state / 2 < |m.ranges| {
      AlikePollBody(Open(m), Open(n));
    }
  }

  /**
   A run to the first error or end does not depend on what the entities' streams would do after
   their ends, so it covers streams that panic then.
   */
  lemma {:induction false} OnlyUntilEnd(m: Multi, n: Multi)
    requires Inv(m) && Inv(n) && AlikeBodies(m, n)
    ensures Drain(m) == Drain(n)
    decreases Measure(m)
  {
    PollKeeps(m);
    PollKeeps(n);
    PollShrinks(m);
    AlikePollMulti(m, n);
    var p := PollMulti(m).1.value;
    if p.Item? || p.Pending? {
      OnlyUntilEnd(PollMulti(m).0, PollMulti(n).0);
    }
  }

  // ---------- size reporting ----------

  /** `Body::size_hint` for a multipart body, in bytes (lower and upper bound agree). */
  function SizeHint(m: Multi): u64 {
    m.remaining
  }

  function IsEndStream(m: Multi): bool {
    m.remaining == 0
  }

  /**
   Before any error a reported end is one, whatever the entity does; and when the streams still to
   be read deliver, the reported size is the number of bytes to come.
   */
  lemma SizeIsTruthful(m: Multi)
    requires Inv(m)
    ensures IsEndStream(m) <==> m.state == 2 * |m.ranges| + 1
    ensures IsEndStream(m) ==> PollMulti(m) == (m, Returned(Done))
    ensures AllDeliver(m) ==> SizeHint(m) == |Expect(m)| == |Drain(m).0|
  {
    DrainMeaning(m);
    PromiseEndsLast(m);
  }

  lemma PromiseEndsLast(m: Multi)
    requires Inv(m)
    ensures m.remaining == 0 <==> m.state == 2 * |m.ranges| + 1
  {
    var i := m.state / 2;
    if i < |m.ranges| {
      OwedAtLeastTrailer(m.headers, m.ranges, i);
      OwedAtLeastTrailer(m.headers, m.ranges, i + 1);
    }
  }

  // ---------- after an error ----------

  /** A state that a failed poll leaves, or that polls after it lead to. */
  ghost predicate AfterError(m: Multi) {
    m.WF() && m.cur.Some? && m.state == 2 * |m.ranges| + 1
  }

  /** The state that a failed poll leaves, whatever came before. */
  ghost predicate Failed(m: Multi) {
    AfterError(m) && m.remaining == 0
  }

  /** One poll after an error, in either build: the part's stream is still there and is polled again. */
  lemma PollAfterError(m: Multi)
    requires AfterError(m)
    ensures var (m', res) := PollMulti(m);
            var x := m.cur.value;
            && res != Returned(Done)
            && (res == Panic <==>
                  match Head(x.script)
                  case End => x.remaining == 0
                  case Chunk(d) => m.remaining < |d| <= x.remaining && m.arith.Checked?
                  case _ => false)
            && (res.Returned? ==>
                  AfterError(m') && m'.arith == m.arith &&
                  ItemSize(res.value) + m'.cur.value.remaining <= x.remaining)
  {
    ExactPollConserves(m.cur.value);
  }

  /** The part's stream yields data that the part still expected. */
  predicate YieldsExpected(x: Exact) {
    match Head(x.script)
    case Chunk(d) => 0 < |d| <= x.remaining
    case _ => false
  }

  /**
   The stream is not fused by an error, as its comment intends: the next poll never answers the
   end.  It panics in any build when the part's stream now ends cleanly.  When that stream yields
   data that the part still expected, a checking build panics; a wrapping build sends the data, and
   then `remaining` has wrapped around, so that the body no longer reports its end.
   */
  lemma NotFusedAfterError(m: Multi)
    requires Failed(m)
    ensures var (m', res) := PollMulti(m);
            var x := m.cur.value;
            && res != Returned(Done)
            && (res == Panic <==>
                  (Head(x.script) == End && x.remaining == 0) || (YieldsExpected(x) && m.arith.Checked?))
            && (res.Returned? && ItemSize(res.value) > 0 <==> YieldsExpected(x) && m.arith.Wrapping?)
            && (res.Returned? ==>
                  AfterError(m') &&
                  m'.remaining == if ItemSize(res.value) == 0 then 0 else U64_MAX + 1 - ItemSize(res.value))
            && (res.Returned? ==> (IsEndStream(m') <==> ItemSize(res.value) == 0))
  {
    PollAfterError(m);
  }

  /** Polls after an error: the answers up to the first panic, `k` at most. */
  function AnswersAfter(m: Multi, k: nat): seq<Poll>
    requires m.WF()
    decreases k
  {
    if k == 0 then []
    else
      var (m', res) := PollMulti(m);
      if res.Panic? || !m'.WF() then [] else [res.value] + AnswersAfter(m', k - 1)
  }

  /** The data bytes in a list of answers. */
  function SentBytes(answers: seq<Poll>): nat {
    if answers == [] then 0 else ItemSize(answers[0]) + SentBytes(answers[1..])
  }

  /**
   However often a failed stream is polled, in either build, it never reports its end, and it sends
   no more than the failed part still expected; a checking build sends nothing more at all.
   */
  lemma {:induction false} NeverEndsAfterError(m: Multi, k: nat)
    requires AfterError(m)
    ensures var answers := AnswersAfter(m, k);
            && (forall i :: 0 <= i < |answers| ==> !answers[i].Done?)
            && SentBytes(answers) <= m.cur.value.remaining
            && (Failed(m) && m.arith.Checked? ==> SentBytes(answers) == 0)
    decreases k
  {
    PollAfterError(m);
    var (m', res) := PollMulti(m);
    if k > 0 && res.Returned? {
      NeverEndsAfterError(m', k - 1);
      var rest := AnswersAfter(m', k - 1);
      assert ([res.value] + rest)[1..] == rest;
      if Failed(m) {
        NotFusedAfterError(m);
      }
    }
  }

  /** The first three polls of `m`: the first part's header, a length error, and a panic. */
  ghost predicate ThirdPollPanics(m: Multi, extra: nat) {
    && m.WF() && |m.headers| > 0
    && var (m1, first) := PollMulti(m);
    && m1.WF() && first == Returned(Item(m.headers[0]))
    && var (m2, second) := PollMulti(m1);
    && m2.WF() && second == Returned(Fail(TooLong(extra)))
    && PollMulti(m2).1 == Panic
  }

  /** Every body whose first part's stream hands out too much panics at the third poll, whatever the build. */
  lemma OverlongFirstPart(m: Multi, d: Bytes)
    requires Inv(m) && m.cur.None? && m.state == 0 && m.ranges != []
    requires m.scripts[0] == [Chunk(d)] && |d| > m.ranges[0].Size()
    ensures ThirdPollPanics(m, |d| - m.ranges[0].Size())
  {
    SendNextKeeps(m);
    var m1 := SendNext(m).0;
    var m2 := PollBody(Open(m1)).0;
    assert m2.cur == Some(Exact([], 0));
    NotFusedAfterError(m2);
  }
}
