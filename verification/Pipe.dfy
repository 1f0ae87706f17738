/**
 The pipe as a concurrent system: a writer thread and a reader task interleave in any order.

 A step is one locked section of `Chunker` (with the writer's private buffer update), or the
 firing of the waker that the writer's last section took, which the source does only after
 unlocking.  A schedule is any list of actions; an action that is not possible does nothing.
 */
module Pipe {
  import opened Prelude
  import opened Streams
  import opened Chunker

  datatype Action =
    | WriteCall(data: Bytes)
    | FlushCall
    | AbortCall(error: int)
    | DropCall
    | FireWaker
    | PollCall(waker: WakerId)

  /** Whether the reader's last poll answered `Pending`, and whether its waker has fired since. */
  datatype ReaderTask = Running | Waiting(waker: WakerId, fired: bool)

  /** A queued chunk, and whether an explicit flush or the drop queued it. */
  datatype Push = Push(chunk: Bytes, explicit: bool)

  /**
   The first six fields are the program's state; the rest records its history: the bytes that
   `write` accepted, the chunks ever queued, the chunks delivered, every answer but `Pending`,
   and the error of the first abort that took effect.
   */
  datatype System = System(
    ch: Channel,
    buf: Buffer,
    cap: nat,
    gone: bool,
    inflight: Option<WakerId>,
    reader: ReaderTask,
    accepted: Bytes,
    pushes: seq<Push>,
    chunksOut: seq<Bytes>,
    answers: seq<Poll>,
    aborted: Option<int>
  )

  function Initial(cap: nat): System {
    System(Channel(Ok([], 0, false), None), EMPTY, cap, false, None, Running, [], [], [], [], None)
  }

  // ---------- steps ----------

  /** The writer can start a call: it exists and has no waker left to fire. */
  predicate WriterFree(s: System) {
    !s.gone && s.inflight.None?
  }

  function Pushed(before: System, f: Flush, explicit: bool): seq<Push> {
    if before.ch.state.Ok? && f.ch.state.Ok? && |f.ch.state.ready| > |before.ch.state.ready| then
      before.pushes + [Push(f.ch.state.ready[|f.ch.state.ready| - 1], explicit)]
    else before.pushes
  }

  function StepWrite(s: System, data: Bytes): System
    requires s.buf.Valid(s.cap)
  {
    var w := Written(s.ch, s.buf, s.cap, data);
    s.(ch := w.ch, buf := w.buf, inflight := w.wake, pushes := Pushed(s, w, false),
       accepted := if w.ok then s.accepted + data[..Filled(s.buf, s.cap, data).1] else s.accepted)
  }

  function StepFlush(s: System, dropping: bool): System {
    var f := Flushed(s.ch, s.buf, dropping);
    s.(ch := f.ch, buf := f.buf, inflight := f.wake, pushes := Pushed(s, f, true), gone := dropping)
  }

  function StepAbort(s: System, e: int): System {
    var (ch, wake) := Aborted(s.ch, e);
    s.(ch := ch, inflight := wake, aborted := if s.ch.state.Ok? then Some(e) else s.aborted)
  }

  function StepFire(s: System): System
    requires s.inflight.Some?
  {
    s.(inflight := None,
       reader := if s.reader.Waiting? && s.reader.waker == s.inflight.value then s.reader.(fired := true) else s.reader)
  }

  function StepPoll(s: System, w: WakerId): System {
    match ReaderPoll(s.ch, w)
    case (ch, Panic) => s.(ch := ch, reader := Running)
    case (ch, Returned(p)) =>
      s.(ch := ch,
         reader := if p.Pending? then Waiting(w, false) else Running,
         chunksOut := if p.Item? then s.chunksOut + [p.data] else s.chunksOut,
         answers := if p.Pending? then s.answers else s.answers + [p])
  }

  function Step(s: System, a: Action): (t: System)
    requires s.buf.Valid(s.cap)
    ensures t.buf.Valid(t.cap) && t.cap == s.cap
  {
    match a
    case WriteCall(data) => if WriterFree(s) then StepWrite(s, data) else s
    case FlushCall => if WriterFree(s) then StepFlush(s, false) else s
    case AbortCall(e) => if WriterFree(s) then StepAbort(s, e) else s
    case DropCall => if WriterFree(s) then StepFlush(s, true) else s
    case FireWaker => if s.inflight.Some? then StepFire(s) else s
    case PollCall(w) => StepPoll(s, w)
  }

  // ---------- the invariant ----------

  /** Nothing to read and more may come: the only state in which the reader may sleep. */
  predicate Idle(ch: Channel) {
    ch.state.Ok? && ch.state.ready == [] && !ch.state.writerDropped
  }

  /** A stored waker is fired or kept: it is stored only while idle, and a sleeping reader's waker is never lost. */
  predicate WakeInv(s: System) {
    && (s.ch.waker.Some? ==> Idle(s.ch))
    && (s.reader.Waiting? && !s.reader.fired ==>
          s.ch.waker == Some(s.reader.waker) || s.inflight == Some(s.reader.waker))
  }

  function Chunks(pushes: seq<Push>): (cs: seq<Bytes>)
    ensures |cs| == |pushes| && forall i :: 0 <= i < |cs| ==> cs[i] == pushes[i].chunk
  {
    seq(|pushes|, i requires 0 <= i < |pushes| => pushes[i].chunk)
  }

  /** The writer's buffer is never left full while the pipe is open, nor kept after the drop. */
  predicate BufferInv(s: System) {
    && s.buf.Valid(s.cap)
    && (s.ch.state.Ok? ==>
          && (s.ch.state.writerDropped <==> s.gone)
          && |s.buf.data| < s.cap
          && (s.gone ==> s.buf.data == []))
  }

  /** A queued chunk is non-empty, at most `cap` bytes, and exactly `cap` unless queued by a flush or the drop. */
  predicate LawfulPush(p: Push, cap: nat) {
    0 < |p.chunk| <= cap && (!p.explicit ==> |p.chunk| == cap)
  }

  predicate ChunkInv(s: System) {
    forall i :: 0 <= i < |s.pushes| ==> LawfulPush(s.pushes[i], s.cap)
  }

  /** No byte is lost, duplicated or reordered. */
  predicate FlowInv(s: System) {
    if s.ch.state.Ok? then
      && s.chunksOut + s.ch.state.ready == Chunks(s.pushes)
      && Concat(Chunks(s.pushes)) + s.buf.data == s.accepted
      && s.ch.state.readyBytes == |Concat(s.ch.state.ready)|
    else
      && s.chunksOut <= Chunks(s.pushes)
      && Concat(s.chunksOut) <= s.accepted
  }

  /** What the reader has been told so far. */
  datatype Phase = Flowing | Failed(error: Failure) | Ended | Malformed

  function Advance(ph: Phase, p: Poll): Phase {
    match (ph, p)
    case (Flowing, Item(_)) => Flowing
    case (Flowing, Fail(f)) => Failed(f)
    case (Flowing, Done) => Ended
    case (Failed(f), Done) => Failed(f)
    case (Ended, Done) => Ended
    case _ => Malformed
  }

  /** Data, then at most one error, then only ends. */
  function PhaseOf(answers: seq<Poll>): Phase {
    if answers == [] then Flowing else Advance(PhaseOf(answers[..|answers| - 1]), answers[|answers| - 1])
  }

  predicate AnswerInv(s: System) {
    var ph := PhaseOf(s.answers);
    match s.ch.state
    case Ok(_, _, _) => ph == Flowing && s.aborted.None?
    case Err(e) => ph == Flowing && s.aborted == Some(e)
    case ReaderFused =>
      if s.aborted.Some? then ph == Failed(Upstream(s.aborted.value))
      else s.gone && (ph == Flowing || ph == Ended) && Concat(s.chunksOut) == s.accepted
  }

  predicate Inv(s: System) {
    WakeInv(s) && BufferInv(s) && ChunkInv(s) && FlowInv(s) && AnswerInv(s)
  }

  lemma InitialInv(cap: nat)
    requires cap > 0
    ensures Inv(Initial(cap))
  {
  }

  // ---------- every step keeps the invariant ----------

  lemma PhaseSnoc(answers: seq<Poll>, p: Poll)
    ensures PhaseOf(answers + [p]) == Advance(PhaseOf(answers), p)
  {
    assert (answers + [p])[..|answers|] == answers;
  }

  lemma ChunksSnoc(pushes: seq<Push>, p: Push)
    ensures Chunks(pushes + [p]) == Chunks(pushes) + [p.chunk]
  {
  }

  /** A push of the whole buffer moves its bytes from the buffer to the queue. */
  lemma PushKeepsFlow(s: System, chunk: Bytes, explicit: bool, accepted: Bytes)
    requires s.ch.state.Ok? && FlowInv(s) && accepted == Concat(Chunks(s.pushes)) + chunk
    ensures var ready := s.ch.state.ready + [chunk];
            var pushes := s.pushes + [Push(chunk, explicit)];
            && s.chunksOut + ready == Chunks(pushes)
            && Concat(Chunks(pushes)) == accepted
            && |Concat(ready)| == s.ch.state.readyBytes + |chunk|
  {
    ChunksSnoc(s.pushes, Push(chunk, explicit));
    ConcatSnoc(Chunks(s.pushes), chunk);
    ConcatSnoc(s.ch.state.ready, chunk);
    assert s.chunksOut + (s.ch.state.ready + [chunk]) == (s.chunksOut + s.ch.state.ready) + [chunk];
  }

  lemma FlushKeeps(s: System, dropping: bool)
    requires Inv(s) && WriterFree(s)
    ensures Inv(StepFlush(s, dropping))
  {
    var t := StepFlush(s, dropping);
    if s.ch.state.Ok? && s.buf.data != [] {
      PushKeepsFlow(s, s.buf.data, true, s.accepted);
      assert t.ch.state.ready[|t.ch.state.ready| - 1] == s.buf.data;
      assert t.pushes == s.pushes + [Push(s.buf.data, true)];
    }
  }

  lemma FillKeepsFlow(s: System, data: Bytes)
    requires Inv(s) && s.ch.state.Ok?
    ensures var (b, n) := Filled(s.buf, s.cap, data);
            Concat(Chunks(s.pushes)) + b.data == s.accepted + data[..n]
  {
  }

  /** The write that fills the buffer of an open pipe. */
  lemma FullWriteKeeps(s: System, data: Bytes)
    requires Inv(s) && WriterFree(s) && s.ch.state.Ok? && |Filled(s.buf, s.cap, data).0.data| == s.cap
    ensures Inv(StepWrite(s, data))
  {
    var t := StepWrite(s, data);
    var (b, n) := Filled(s.buf, s.cap, data);
    FillKeepsFlow(s, data);
    PushKeepsFlow(s, b.data, false, t.accepted);
    assert t.ch.state.ready[|t.ch.state.ready| - 1] == b.data;
    assert t.pushes == s.pushes + [Push(b.data, false)];
    assert Concat(Chunks(t.pushes)) + [] == t.accepted;
  }

  lemma WriteKeeps(s: System, data: Bytes)
    requires Inv(s) && WriterFree(s)
    ensures Inv(StepWrite(s, data))
  {
    if s.ch.state.Ok? {
      if |Filled(s.buf, s.cap, data).0.data| == s.cap {
        FullWriteKeeps(s, data);
      } else {
        FillKeepsFlow(s, data);
      }
    }
  }

  lemma AbortKeeps(s: System, e: int)
    requires Inv(s) && WriterFree(s)
    ensures Inv(StepAbort(s, e))
  {
    if s.ch.state.Ok? {
      ConcatAppend(s.chunksOut, s.ch.state.ready);
      assert s.accepted == Concat(s.chunksOut) + (Concat(s.ch.state.ready) + s.buf.data);
    }
  }

  lemma TakeKeepsFlow(s: System)
    requires s.ch.state.Ok? && FlowInv(s) && s.ch.state.ready != []
    ensures var c := s.ch.state.ready[0];
            var rest := s.ch.state.ready[1..];
            && |c| <= s.ch.state.readyBytes
            && s.ch.state.readyBytes - |c| == |Concat(rest)|
            && (s.chunksOut + [c]) + rest == Chunks(s.pushes)
  {
    assert [s.ch.state.ready[0]] + s.ch.state.ready[1..] == s.ch.state.ready;
  }

  /** The reader takes the last chunk of a dropped writer: everything accepted has been delivered. */
  lemma LastChunk(s: System)
    requires Inv(s) && s.ch.state.Ok? && s.gone && |s.ch.state.ready| <= 1
    ensures Concat(s.chunksOut + s.ch.state.ready) == s.accepted
  {
    assert s.buf.data == [];
    assert Concat(Chunks(s.pushes)) + [] == Concat(Chunks(s.pushes));
  }

  lemma TakeKeeps(s: System, w: WakerId)
    requires Inv(s) && s.ch.state.Ok? && s.ch.state.ready != []
    ensures Inv(StepPoll(s, w)) && ReaderPoll(s.ch, w).1.Returned?
  {
    var ready := s.ch.state.ready;
    TakeKeepsFlow(s);
    PhaseSnoc(s.answers, Item(ready[0]));
    if |ready| == 1 && s.gone {
      LastChunk(s);
      assert s.chunksOut + ready == s.chunksOut + [ready[0]];
    }
  }

  lemma EmptyPollKeeps(s: System, w: WakerId)
    requires Inv(s) && s.ch.state.Ok? && s.ch.state.ready == []
    ensures Inv(StepPoll(s, w)) && ReaderPoll(s.ch, w).1.Returned?
  {
    if s.gone {
      PhaseSnoc(s.answers, Done);
      LastChunk(s);
      assert s.chunksOut + [] == s.chunksOut;
    }
  }

  lemma PollKeeps(s: System, w: WakerId)
    requires Inv(s)
    ensures Inv(StepPoll(s, w)) && ReaderPoll(s.ch, w).1.Returned?
  {
    match s.ch.state {
      case Ok(ready, _, _) =>
        if ready != [] {
          TakeKeeps(s, w);
        } else {
          EmptyPollKeeps(s, w);
        }
      case Err(e) =>
        PhaseSnoc(s.answers, Fail(Upstream(e)));
      case ReaderFused =>
        PhaseSnoc(s.answers, Done);
    }
  }

  lemma StepKeeps(s: System, a: Action)
    requires Inv(s)
    ensures Inv(Step(s, a))
  {
    match a {
      case WriteCall(data) => if WriterFree(s) { WriteKeeps(s, data); }
      case FlushCall => if WriterFree(s) { FlushKeeps(s, false); }
      case AbortCall(e) => if WriterFree(s) { AbortKeeps(s, e); }
      case DropCall => if WriterFree(s) { FlushKeeps(s, true); }
      case FireWaker =>
      case PollCall(w) => PollKeeps(s, w);
    }
  }

  // ---------- whole schedules ----------

  function Run(s: System, schedule: seq<Action>): (t: System)
    requires s.buf.Valid(s.cap)
    ensures t.buf.Valid(t.cap) && t.cap == s.cap
    decreases |schedule|
  {
    if schedule == [] then s else Run(Step(s, schedule[0]), schedule[1..])
  }

  /** Every state that some schedule reaches. */
  function Reached(cap: nat, schedule: seq<Action>): System
    requires cap > 0
  {
    Run(Initial(cap), schedule)
  }

  lemma {:induction false} RunKeeps(s: System, schedule: seq<Action>)
    requires Inv(s)
    ensures Inv(Run(s, schedule))
    decreases |schedule|
  {
    if schedule != [] {
      StepKeeps(s, schedule[0]);
      RunKeeps(Step(s, schedule[0]), schedule[1..]);
    }
  }

  /** The invariant holds in every reachable state. */
  lemma ReachedInv(cap: nat, schedule: seq<Action>)
    requires cap > 0
    ensures Inv(Reached(cap, schedule))
  {
    InitialInv(cap);
    RunKeeps(Initial(cap), schedule);
  }
}
