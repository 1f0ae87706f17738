/**
 What the pipe guarantees over every interleaving of its writer and its reader.
 */
module PipeGuarantees {
  import opened Prelude
  import opened Streams
  import opened Chunker
  import opened Pipe

  // ---------- wakeups ----------

  /**
   No lost wakeup.  In every reachable state, if the reader's last poll answered `Pending` and its
   waker has not fired since, then either the pipe is still idle with that very waker stored, or
   the writer holds it and its next step fires it.
   */
  lemma NoLostWakeup(cap: nat, schedule: seq<Action>)
    requires cap > 0
    ensures var s := Reached(cap, schedule);
            s.reader.Waiting? && !s.reader.fired ==>
              var w := s.reader.waker;
              || (Idle(s.ch) && s.ch.waker == Some(w))
              || (s.inflight == Some(w) && Step(s, FireWaker).reader == Waiting(w, true))
  {
    ReachedInv(cap, schedule);
  }

  /** Polling an idle pipe again, with any waker, leaves its state as it was (the bug fixed in 0.4.0-rc.2). */
  lemma PendingIsStable(cap: nat, schedule: seq<Action>, w: WakerId, w': WakerId)
    requires cap > 0
    ensures var s := Reached(cap, schedule);
            && (ReaderPoll(s.ch, w).1 == Returned(Pending) <==> Idle(s.ch))
            && (Idle(s.ch) ==>
                  StepPoll(StepPoll(s, w), w') == s.(ch := Channel(s.ch.state, Some(w')), reader := Waiting(w', false)))
  {
    ReachedInv(cap, schedule);
  }

  // ---------- conservation ----------

  /**
   Conservation.  While the pipe is open, the bytes delivered, the bytes queued and the bytes
   buffered are together exactly the bytes that `write` accepted, in order; in every state the
   bytes delivered are a prefix of them; and polling never panics.
   */
  lemma Conservation(cap: nat, schedule: seq<Action>, w: WakerId)
    requires cap > 0
    ensures var s := Reached(cap, schedule);
            && (s.ch.state.Ok? ==>
                  Concat(s.chunksOut) + Concat(s.ch.state.ready) + s.buf.data == s.accepted &&
                  s.ch.state.readyBytes == |Concat(s.ch.state.ready)|)
            && Concat(s.chunksOut) <= s.accepted
            && ReaderPoll(s.ch, w).1.Returned?
  {
    ReachedInv(cap, schedule);
    var s := Reached(cap, schedule);
    PollKeeps(s, w);
    if s.ch.state.Ok? {
      ConcatAppend(s.chunksOut, s.ch.state.ready);
      assert Concat(s.chunksOut) + (Concat(s.ch.state.ready) + s.buf.data) == s.accepted;
    }
  }

  /** The reader's task is scheduled: it has not been polled to `Pending`, or its waker has fired since. */
  predicate Due(s: System) {
    s.reader.Running? || s.reader.fired
  }

  /** Up to `k` polls by a task that is polled only when it is due. */
  function DuePolls(s: System, k: nat, w: WakerId): (t: System)
    requires s.buf.Valid(s.cap)
    ensures t.buf.Valid(t.cap)
    decreases k
  {
    if k == 0 || !Due(s) then s else DuePolls(StepPoll(s, w), k - 1, w)
  }

  function Backlog(ch: Channel): nat {
    if ch.state.Ok? then |ch.state.ready| else 0
  }

  /** Dropped without an abort, and the drop has fired the waker it took. */
  predicate Dropped(s: System) {
    s.gone && s.aborted.None? && s.inflight.None?
  }

  lemma DrainOne(s: System, w: WakerId)
    requires Inv(s) && Dropped(s)
    ensures Due(s)
    ensures var t := StepPoll(s, w);
            && Inv(t) && Dropped(t) && t.accepted == s.accepted
            && (Backlog(s.ch) > 0 ==> Backlog(t.ch) == Backlog(s.ch) - 1)
            && (Backlog(s.ch) == 0 ==> t.answers == s.answers + [Done] && Concat(t.chunksOut) == t.accepted)
  {
    PollKeeps(s, w);
  }

  lemma {:induction false} DrainAfterDrop(s: System, w: WakerId)
    requires Inv(s) && Dropped(s)
    ensures DeliveredAll(DuePolls(s, Backlog(s.ch) + 1, w), s.accepted)
    decreases Backlog(s.ch)
  {
    DrainOne(s, w);
    if Backlog(s.ch) > 0 {
      DrainAfterDrop(StepPoll(s, w), w);
    } else {
      assert DuePolls(s, 1, w) == DuePolls(StepPoll(s, w), 0, w);
    }
  }

  predicate DeliveredAll(t: System, accepted: Bytes) {
    && Concat(t.chunksOut) == accepted
    && t.answers != [] && t.answers[|t.answers| - 1] == Done
  }

  /**
   Once the writer is dropped without an abort and has fired the waker it took, whatever was polled
   before, the reader does not sleep: a task that is polled only when it is due goes through the
   backlog and one poll more, receives everything that was accepted, and is told the end.
   */
  lemma DropDeliversAll(cap: nat, schedule: seq<Action>, w: WakerId)
    requires cap > 0
    ensures var s := Reached(cap, schedule);
            s.gone && s.aborted.None? ==>
              var t := Step(s, FireWaker);
              Due(t) && DeliveredAll(DuePolls(t, Backlog(t.ch) + 1, w), s.accepted)
  {
    ReachedInv(cap, schedule);
    var s := Reached(cap, schedule);
    if s.gone && s.aborted.None? {
      StepKeeps(s, FireWaker);
      var t := Step(s, FireWaker);
      DrainOne(t, w);
      DrainAfterDrop(t, w);
    }
  }

  // ---------- flushing ----------

  /** Polls in a row; what is the writer's does not change. */
  function Polled(s: System, ws: seq<WakerId>): (t: System)
    requires Inv(s)
    ensures Inv(t) && t.gone == s.gone && t.inflight == s.inflight && t.aborted == s.aborted
    ensures t.accepted == s.accepted && t.buf == s.buf && t.cap == s.cap
    decreases |ws|
  {
    if ws == [] then s
    else
      PollKeeps(s, ws[0]);
      Polled(StepPoll(s, ws[0]), ws[1..])
  }

  lemma TakeOne(s: System, w: WakerId)
    requires Inv(s) && s.ch.state.Ok? && Backlog(s.ch) > 0 && s.inflight.None?
    ensures Due(s)
    ensures var t := StepPoll(s, w);
            && Inv(t) && t.accepted == s.accepted && t.buf == s.buf && t.inflight.None?
            && (t.ch.state.Ok? ==> Backlog(t.ch) == Backlog(s.ch) - 1)
            && (!t.ch.state.Ok? ==> Backlog(s.ch) == 1 && Concat(t.chunksOut) == s.accepted)
  {
    PollKeeps(s, w);
  }

  /** Open, nothing buffered, and no waker left to fire: polls that are due deliver everything accepted so far. */
  lemma {:induction false} DueDelivers(s: System, w: WakerId)
    requires Inv(s) && s.ch.state.Ok? && s.buf.data == [] && s.inflight.None?
    ensures Concat(DuePolls(s, Backlog(s.ch), w).chunksOut) == s.accepted
    decreases Backlog(s.ch)
  {
    if Backlog(s.ch) == 0 {
      assert s.chunksOut + [] == s.chunksOut;
    } else {
      TakeOne(s, w);
      if StepPoll(s, w).ch.state.Ok? {
        DueDelivers(StepPoll(s, w), w);
      } else {
        assert DuePolls(s, 1, w) == DuePolls(StepPoll(s, w), 0, w);
      }
    }
  }

  /**
   A flush delivers.  After any flush of an open pipe, any polls, and the firing of the waker that
   the flush took, a task that is polled only when it is due receives everything accepted so far.
   */
  lemma FlushDelivers(cap: nat, schedule: seq<Action>, between: seq<WakerId>, w: WakerId)
    requires cap > 0
    ensures var s := Reached(cap, schedule);
            WriterFree(s) && s.ch.state.Ok? ==>
              Inv(Step(s, FlushCall)) &&
              var t := Step(Polled(Step(s, FlushCall), between), FireWaker);
              Concat(DuePolls(t, Backlog(t.ch), w).chunksOut) == s.accepted
  {
    ReachedInv(cap, schedule);
    var s := Reached(cap, schedule);
    if WriterFree(s) && s.ch.state.Ok? {
      StepKeeps(s, FlushCall);
      var f := Step(s, FlushCall);
      StillOpen(f, between);
      var p := Polled(f, between);
      StepKeeps(p, FireWaker);
      DueDelivers(Step(p, FireWaker), w);
    }
  }

  /** The reader does not close a pipe whose writer is there. */
  lemma {:induction false} StillOpen(s: System, ws: seq<WakerId>)
    requires Inv(s) && s.ch.state.Ok? && !s.gone
    ensures Polled(s, ws).ch.state.Ok?
    decreases |ws|
  {
    if ws != [] {
      PollKeeps(s, ws[0]);
      StillOpen(StepPoll(s, ws[0]), ws[1..]);
    }
  }

  // ---------- the order of answers ----------

  ghost predicate ItemsUntil(answers: seq<Poll>, k: nat) {
    forall i :: 0 <= i < k && i < |answers| ==> answers[i].Item?
  }

  ghost predicate DoneFrom(answers: seq<Poll>, k: nat) {
    forall i :: k <= i < |answers| ==> answers[i].Done?
  }

  /** What a phase means: only data; or data and then ends; or data, one error, and then ends. */
  ghost predicate Describes(ph: Phase, answers: seq<Poll>) {
    match ph
    case Flowing => ItemsUntil(answers, |answers|)
    case Ended => exists k: nat :: k < |answers| && ItemsUntil(answers, k) && DoneFrom(answers, k)
    case Failed(f) =>
      exists k: nat :: k < |answers| && ItemsUntil(answers, k) && answers[k] == Fail(f) && DoneFrom(answers, k + 1)
    case Malformed => true
  }

  lemma {:induction false} PhaseDescribes(answers: seq<Poll>)
    ensures Describes(PhaseOf(answers), answers)
  {
    if answers != [] {
      var n := |answers| - 1;
      var front := answers[..n];
      PhaseDescribes(front);
      match PhaseOf(front) {
        case Flowing =>
          assert ItemsUntil(answers, n) && DoneFrom(answers, n + 1);
          assert answers[n].Done? ==> DoneFrom(answers, n);
        case Ended =>
          var k: nat :| k < n && ItemsUntil(front, k) && DoneFrom(front, k);
          assert ItemsUntil(answers, k);
          assert answers[n].Done? ==> DoneFrom(answers, k);
        case Failed(f) =>
          var k: nat :| k < n && ItemsUntil(front, k) && front[k] == Fail(f) && DoneFrom(front, k + 1);
          assert ItemsUntil(answers, k) && answers[k] == Fail(f);
          assert answers[n].Done? ==> DoneFrom(answers, k + 1);
        case Malformed =>
      }
    }
  }

  /**
   The reader is told data, then at most one error, then only ends: without an abort there is no
   error, and with one the error is the first abort's.
   */
  lemma AnswersWellFormed(cap: nat, schedule: seq<Action>)
    requires cap > 0
    ensures var s := Reached(cap, schedule);
            && (s.aborted.None? ==> Describes(Flowing, s.answers) || Describes(Ended, s.answers))
            && (s.aborted.Some? ==>
                  Describes(Flowing, s.answers) || Describes(Failed(Upstream(s.aborted.value)), s.answers))
  {
    ReachedInv(cap, schedule);
    PhaseDescribes(Reached(cap, schedule).answers);
  }

  // ---------- what later steps can change ----------

  /** Nothing ever undoes an abort, a drop or a delivery; after either end of the writer nothing more is accepted. */
  ghost predicate Later(s: System, t: System) {
    && s.accepted <= t.accepted && s.chunksOut <= t.chunksOut
    && (s.gone ==> t.gone && t.accepted == s.accepted && t.pushes == s.pushes && t.aborted == s.aborted)
    && (s.aborted.Some? ==> t.aborted == s.aborted && t.chunksOut == s.chunksOut && t.pushes == s.pushes)
  }

  lemma StepIsLater(s: System, a: Action)
    requires Inv(s)
    ensures Later(s, Step(s, a))
  {
  }

  lemma {:induction false} RunIsLater(s: System, more: seq<Action>)
    requires Inv(s)
    ensures Later(s, Run(s, more))
    decreases |more|
  {
    if more != [] {
      StepIsLater(s, more[0]);
      StepKeeps(s, more[0]);
      RunIsLater(Step(s, more[0]), more[1..]);
    }
  }

  /**
   After an abort takes effect, no schedule delivers another byte, queues another chunk or changes
   the error, and the next poll that has not reported it reports exactly that error.
   */
  lemma AbortIsFinal(cap: nat, schedule: seq<Action>, more: seq<Action>, w: WakerId)
    requires cap > 0
    ensures var s := Reached(cap, schedule);
            s.aborted.Some? ==>
              var t := Run(s, more);
              && t.aborted == s.aborted && t.chunksOut == s.chunksOut && t.pushes == s.pushes
              && ReaderPoll(t.ch, w).1 ==
                 Returned(if PhaseOf(t.answers) == Flowing then Fail(Upstream(s.aborted.value)) else Done)
  {
    ReachedInv(cap, schedule);
    var s := Reached(cap, schedule);
    RunIsLater(s, more);
    RunKeeps(s, more);
  }

  /**
   After an abort takes effect, dropping the writer, at once or after any steps of the reader,
   changes nothing but that the writer is gone.
   */
  lemma DropAfterAbort(cap: nat, schedule: seq<Action>, more: seq<Action>)
    requires cap > 0
    ensures var s := Reached(cap, schedule);
            var t := Run(s, more);
            s.aborted.Some? && WriterFree(t) ==> Step(t, DropCall) == t.(gone := true)
  {
    ReachedInv(cap, schedule);
    RunIsLater(Reached(cap, schedule), more);
    RunKeeps(Reached(cap, schedule), more);
  }

  /** Once the writer is gone it adds nothing. */
  lemma GoneAddsNothing(cap: nat, schedule: seq<Action>, more: seq<Action>)
    requires cap > 0
    ensures var s := Reached(cap, schedule);
            s.gone ==> Run(s, more).pushes == s.pushes && Run(s, more).accepted == s.accepted
  {
    ReachedInv(cap, schedule);
    RunIsLater(Reached(cap, schedule), more);
  }

  // ---------- size reporting ----------

  /** The stream has ended for its reader without an abort. */
  predicate EndedCleanly(t: System) {
    t.ch.state.ReaderFused? && t.aborted.None?
  }

  /**
   The size hint is truthful: of the bytes delivered by the time the stream ends, at least `lower`
   come after the hint was given, and exactly that many when an upper bound was given too.
   */
  lemma HintIsTruthful(cap: nat, schedule: seq<Action>, more: seq<Action>)
    requires cap > 0
    ensures var s := Reached(cap, schedule);
            var t := Run(s, more);
            var (lower, upper) := HintOf(s.ch);
            && (s.ch.state.Ok? ==> lower == |Concat(s.ch.state.ready)| && (upper.Some? <==> s.gone))
            && (!s.ch.state.Ok? ==> lower == 0 && upper.None?)
            && (EndedCleanly(t) ==>
                  && lower <= |Concat(t.chunksOut)| - |Concat(s.chunksOut)|
                  && (upper.Some? ==> upper.value == |Concat(t.chunksOut)| - |Concat(s.chunksOut)|))
  {
    ReachedInv(cap, schedule);
    var s := Reached(cap, schedule);
    RunIsLater(s, more);
    RunKeeps(s, more);
    var t := Run(s, more);
    if s.ch.state.Ok? {
      ConcatAppend(s.chunksOut, s.ch.state.ready);
    } else if EndedCleanly(t) {
      assert Concat(s.chunksOut) <= s.accepted <= t.accepted == Concat(t.chunksOut);
    }
  }

  /** When the end of the stream is reported, no later byte is delivered. */
  lemma EndIsFinal(cap: nat, schedule: seq<Action>, more: seq<Action>)
    requires cap > 0
    ensures var s := Reached(cap, schedule);
            EndOf(s.ch) ==> Concat(Run(s, more).chunksOut) == Concat(s.chunksOut)
  {
    ReachedInv(cap, schedule);
    var s := Reached(cap, schedule);
    RunIsLater(s, more);
    RunKeeps(s, more);
    var t := Run(s, more);
    if EndOf(s.ch) && s.aborted.None? {
      if s.ch.state.Ok? {
        EmptyQueue(s.ch.state.ready);
        ConcatAppend(s.chunksOut, s.ch.state.ready);
      }
      assert Concat(s.chunksOut) == s.accepted == t.accepted;
      assert Concat(t.chunksOut) <= t.accepted by {
        Conserved(t);
      }
      PrefixConcat(s.chunksOut, t.chunksOut);
    }
  }

  /** The end of the stream is reported exactly when the next poll answers the end. */
  lemma EndIffDone(cap: nat, schedule: seq<Action>, w: WakerId)
    requires cap > 0
    ensures var s := Reached(cap, schedule);
            EndOf(s.ch) <==> ReaderPoll(s.ch, w).1 == Returned(Done)
  {
    ReachedInv(cap, schedule);
    var s := Reached(cap, schedule);
    if s.ch.state.Ok? && s.ch.state.ready != [] {
      QueuedNotEmpty(s);
    }
  }

  lemma QueuedNotEmpty(s: System)
    requires Inv(s) && s.ch.state.Ok? && s.ch.state.ready != []
    ensures s.ch.state.ready[0] != [] && s.ch.state.readyBytes > 0
  {
    var k := |s.chunksOut|;
    assert s.ch.state.ready[0] == (s.chunksOut + s.ch.state.ready)[k] == Chunks(s.pushes)[k] == s.pushes[k].chunk;
    assert LawfulPush(s.pushes[k], s.cap);
  }

  lemma Conserved(s: System)
    requires Inv(s)
    ensures Concat(s.chunksOut) <= s.accepted
  {
    if s.ch.state.Ok? {
      ConcatAppend(s.chunksOut, s.ch.state.ready);
      assert s.accepted == Concat(s.chunksOut) + (Concat(s.ch.state.ready) + s.buf.data);
    }
  }

  lemma PrefixConcat(a: seq<Bytes>, b: seq<Bytes>)
    requires a <= b
    ensures Concat(a) <= Concat(b)
  {
    ConcatAppend(a, b[|a|..]);
    assert a + b[|a|..] == b;
  }

  lemma EmptyQueue(ready: seq<Bytes>)
    ensures |Concat(ready)| == 0 ==> Concat(ready) == []
  {
  }

  // ---------- chunking ----------

  /** Every chunk that ever enters the queue is lawful, and chunks are delivered whole and in order. */
  lemma ChunkingLaw(cap: nat, schedule: seq<Action>)
    requires cap > 0
    ensures var s := Reached(cap, schedule);
            && (forall i :: 0 <= i < |s.pushes| ==> LawfulPush(s.pushes[i], cap))
            && s.chunksOut <= Chunks(s.pushes)
            && (s.ch.state.Ok? ==> s.chunksOut + s.ch.state.ready == Chunks(s.pushes))
  {
    ReachedInv(cap, schedule);
  }

  /** `data` cut into pieces of exactly `cap` bytes; a shorter remainder is left out. */
  function FullPieces(data: Bytes, cap: nat): seq<Bytes>
    requires cap > 0
    decreases |data|
  {
    if |data| < cap then [] else [data[..cap]] + FullPieces(data[cap..], cap)
  }

  lemma {:induction false} PiecesAreUnique(chunks: seq<Bytes>, rest: Bytes, cap: nat)
    requires cap > 0 && |rest| < cap && forall i :: 0 <= i < |chunks| ==> |chunks[i]| == cap
    ensures FullPieces(Concat(chunks) + rest, cap) == chunks
  {
    if chunks == [] {
      assert Concat(chunks) + rest == rest;
    } else {
      var data := Concat(chunks) + rest;
      assert data[..cap] == chunks[0];
      assert data[cap..] == Concat(chunks[1..]) + rest;
      PiecesAreUnique(chunks[1..], rest, cap);
      assert chunks == [chunks[0]] + chunks[1..];
    }
  }

  /** Without explicit flushes the chunks are the accepted bytes cut every `cap` bytes, however they were written. */
  lemma WritesAreCutEvenly(cap: nat, schedule: seq<Action>)
    requires cap > 0
    ensures var s := Reached(cap, schedule);
            s.ch.state.Ok? && (forall i :: 0 <= i < |s.pushes| ==> !s.pushes[i].explicit) ==>
              Chunks(s.pushes) == FullPieces(s.accepted, cap)
  {
    ReachedInv(cap, schedule);
    var s := Reached(cap, schedule);
    if s.ch.state.Ok? && forall i :: 0 <= i < |s.pushes| ==> !s.pushes[i].explicit {
      assert forall i :: 0 <= i < |s.pushes| ==> LawfulPush(s.pushes[i], cap);
      PiecesAreUnique(Chunks(s.pushes), s.buf.data, cap);
    }
  }

  // ---------- progress of the writer ----------

  /**
   A write fails exactly when an abort has taken effect and the data fills the buffer.  It accepts
   all the data or what fits into the buffer, which is something while the pipe is open.  When it
   fails, nothing more is ever delivered.
   */
  lemma WriteOutcome(cap: nat, schedule: seq<Action>, data: Bytes, more: seq<Action>)
    requires cap > 0
    ensures var s := Reached(cap, schedule);
            WriterFree(s) ==>
              var n := Filled(s.buf, cap, data).1;
              && (!Written(s.ch, s.buf, cap, data).ok <==> s.aborted.Some? && cap - |s.buf.data| <= |data|)
              && n <= |data| && |s.buf.data| + n <= cap && (n == |data| || |s.buf.data| + n == cap)
              && (s.aborted.None? && data != [] ==> n >= 1)
              && (!Written(s.ch, s.buf, cap, data).ok ==> Run(s, more).chunksOut == s.chunksOut)
  {
    ReachedInv(cap, schedule);
    RunIsLater(Reached(cap, schedule), more);
  }

  /** One `write` and the firing of the waker it took, with polls before each of the two. */
  function WriteOnce(s: System, data: Bytes, before: seq<WakerId>, between: seq<WakerId>): (t: System)
    requires Inv(s) && WriterFree(s) && s.aborted.None?
    ensures Inv(t) && WriterFree(t) && t.aborted.None?
    ensures t.accepted == s.accepted + data[..Filled(s.buf, s.cap, data).1]
  {
    var s0 := Polled(s, before);
    WriteKeeps(s0, data);
    var s1 := Polled(StepWrite(s0, data), between);
    StepKeeps(s1, FireWaker);
    Step(s1, FireWaker)
  }

  /**
   Writes all of `data`, each time with what the last write did not accept, while the reader polls
   at any time: `polls(i)` are its polls before the writer's step `i`.
   */
  function WriteAll(s: System, data: Bytes, polls: nat -> seq<WakerId>, i: nat): (t: System)
    requires Inv(s) && WriterFree(s) && s.aborted.None?
    ensures Inv(t) && WriterFree(t) && t.aborted.None? && t.accepted == s.accepted + data
    decreases |data|
  {
    if data == [] then Polled(s, polls(i))
    else
      var n := Filled(s.buf, s.cap, data).1;
      assert s.accepted + data[..n] + data[n..] == s.accepted + data;
      WriteAll(WriteOnce(s, data, polls(i), polls(i + 1)), data[n..], polls, i + 2)
  }
}
