/**
 `src/chunker.rs`: the pipe between a `Writer` and the body stream `Reader`.

 The two share a mutex-protected `Shared`.  Each function below is one locked section; the class
 methods are the source's and are proved to compute them.  A method that took a waker returns it
 in `wake`: the source fires it only after unlocking.  A waker is an id, and two wakers wake the
 same task exactly when their ids are equal.
 */
module Chunker {
  import opened Prelude
  import opened Streams

  type WakerId = nat

  datatype SharedState =
    | Ok(ready: seq<Bytes>, readyBytes: nat, writerDropped: bool)
    | Err(error: int)
    | ReaderFused

  /** The contents of the mutex. */
  datatype Channel = Channel(state: SharedState, waker: Option<WakerId>)

  /** The writer's buffer: a vector has no capacity until it is first reserved. */
  datatype Buffer = Buffer(data: Bytes, capacity: nat) {
    predicate Valid(cap: nat) {
      cap > 0 && (capacity == 0 || capacity == cap) && |data| <= capacity
    }
  }

  const EMPTY: Buffer := Buffer([], 0)

  // ---------- the locked sections ----------

  function ReaderPoll(ch: Channel, w: WakerId): (Channel, Outcome<Poll>) {
    match ch.state
    case Ok(ready, readyBytes, writerDropped) =>
      if ready != [] then
        if |ready[0]| > readyBytes then (ch.(state := ReaderFused), Panic)
        else if |ready| > 1 || !writerDropped then
          (ch.(state := Ok(ready[1..], readyBytes - |ready[0]|, writerDropped)), Returned(Item(ready[0])))
        else (ch.(state := ReaderFused), Returned(Item(ready[0])))
      else if readyBytes != 0 then (ch.(state := ReaderFused), Panic)
      else if !writerDropped then (ch.(waker := Some(w)), Returned(Pending))
      else (ch.(state := ReaderFused), Returned(Done))
    case Err(e) => (ch.(state := ReaderFused), Returned(Fail(Upstream(e))))
    case ReaderFused => (ch, Returned(Done))
  }

  /** `abort`: the channel afterwards and the waker taken. */
  function Aborted(ch: Channel, e: int): (Channel, Option<WakerId>) {
    if ch.state.Ok? then (Channel(Err(e), None), ch.waker) else (ch, None)
  }

  datatype Flush = Flush(ch: Channel, buf: Buffer, wake: Option<WakerId>, ok: bool)

  function Flushed(ch: Channel, buf: Buffer, dropping: bool): Flush {
    if buf.data == [] && !dropping then Flush(ch, buf, None, true)
    else if ch.state.Ok? then
      Flush(Channel(Ok(if buf.data == [] then ch.state.ready else ch.state.ready + [buf.data],
                       ch.state.readyBytes + |buf.data|, dropping), None),
            if buf.data == [] then buf else EMPTY, ch.waker, true)
    else Flush(ch, buf, None, buf.data == [])
  }

  /** The buffer with the bytes that fit, and how many fit. */
  function Filled(buf: Buffer, cap: nat, data: Bytes): (Buffer, nat)
    requires buf.Valid(cap)
  {
    var n := if cap - |buf.data| <= |data| then cap - |buf.data| else |data|;
    (Buffer(buf.data + data[..n], cap), n)
  }

  /** `write`: the buffer is flushed when it is full. */
  function Written(ch: Channel, buf: Buffer, cap: nat, data: Bytes): Flush
    requires buf.Valid(cap)
  {
    var (b, n) := Filled(buf, cap, data);
    if |b.data| == cap then Flushed(ch, b, false) else Flush(ch, b, None, true)
  }

  // ---------- the classes ----------

  class Shared {
    var state: SharedState
    var waker: Option<WakerId>

    constructor ()
      ensures Abs() == Channel(Ok([], 0, false), None)
    {
      state := Ok([], 0, false);
      waker := None;
    }

    ghost function Abs(): Channel
      reads this
    {
      Channel(state, waker)
    }
  }

  class Reader {
    const shared: Shared

    constructor (shared: Shared)
      ensures this.shared == shared
    {
      this.shared := shared;
    }

    method PollNext(w: WakerId) returns (res: Outcome<Poll>)
      modifies shared
      ensures (shared.Abs(), res) == ReaderPoll(old(shared.Abs()), w)
    {
      var taken := shared.state;
      shared.state := ReaderFused;
      match taken
      case Ok(ready, readyBytes, writerDropped) =>
        if ready != [] {
          var c := ready[0];
          var left := ready[1..];
          if |c| > readyBytes { return Panic; }
          var bytes := readyBytes - |c|;
          if left != [] || !writerDropped {
            shared.state := Ok(left, bytes, writerDropped);
          }
          return Returned(Item(c));
        }
        if readyBytes != 0 { return Panic; }
        if !writerDropped {
          match shared.waker {
            case Some(stored) =>
              if stored != w {
                shared.waker := Some(w);
              }
            case None =>
              shared.waker := Some(w);
          }
          shared.state := Ok(ready, readyBytes, writerDropped);
          return Returned(Pending);
        }
        return Returned(Done);
      case Err(e) =>
        return Returned(Fail(Upstream(e)));
      case ReaderFused =>
        return Returned(Done);
    }

    method SizeHint() returns (lower: nat, upper: Option<nat>)
      ensures (lower, upper) == HintOf(shared.Abs())
    {
      lower, upper := 0, None;
      if shared.state.Ok? {
        lower := shared.state.readyBytes;
        if shared.state.writerDropped {
          upper := Some(lower);
        }
      }
    }

    method IsEndStream() returns (ended: bool)
      ensures ended == EndOf(shared.Abs())
    {
      match shared.state
      case Ok(_, readyBytes, writerDropped) => ended := readyBytes == 0 && writerDropped;
      case Err(_) => ended := false;
      case ReaderFused => ended := true;
    }
  }

  function HintOf(ch: Channel): (nat, Option<nat>) {
    if ch.state.Ok? then
      (ch.state.readyBytes, if ch.state.writerDropped then Some(ch.state.readyBytes) else None)
    else (0, None)
  }

  predicate EndOf(ch: Channel) {
    match ch.state
    case Ok(_, readyBytes, writerDropped) => readyBytes == 0 && writerDropped
    case Err(_) => false
    case ReaderFused => true
  }

  class Writer {
    const shared: Shared
    const cap: nat
    var buf: Bytes
    var capacity: nat

    constructor (shared: Shared, cap: nat)
      requires cap > 0
      ensures Valid() && Buf() == EMPTY && this.shared == shared && this.cap == cap
    {
      this.shared := shared;
      this.cap := cap;
      buf := [];
      capacity := 0;
    }

    ghost function Buf(): Buffer
      reads this
    {
      Buffer(buf, capacity)
    }

    ghost predicate Valid()
      reads this
    {
      Buf().Valid(cap)
    }

    method Abort(error: int) returns (wake: Option<WakerId>)
      modifies shared
      ensures (shared.Abs(), wake) == Aborted(old(shared.Abs()), error)
    {
      if !shared.state.Ok? {
        return None;
      }
      shared.state := Err(error);
      wake := shared.waker;
      shared.waker := None;
    }

    method FlushHelper(dropping: bool) returns (ok: bool, wake: Option<WakerId>)
      requires Valid()
      modifies this, shared
      ensures Valid()
      ensures Flush(shared.Abs(), Buf(), wake, ok) == Flushed(old(shared.Abs()), old(Buf()), dropping)
    {
      if buf == [] && !dropping {
        return true, None;
      }
      match shared.state
      case Ok(ready, readyBytes, _) =>
        var queue, bytes := ready, readyBytes;
        if buf != [] {
          var fullBuf := buf;
          buf, capacity := [], 0;
          bytes := bytes + |fullBuf|;
          queue := queue + [fullBuf];
        }
        shared.state := Ok(queue, bytes, dropping);
        wake := shared.waker;
        shared.waker := None;
        return true, wake;
      case _ =>
        return buf == [], None;
    }

    /** `None` is the source's broken-pipe error. */
    method Write(data: Bytes) returns (accepted: Option<nat>, wake: Option<WakerId>)
      requires Valid()
      modifies this, shared
      ensures Valid()
      ensures var w := Written(old(shared.Abs()), old(Buf()), cap, data);
              && Flush(shared.Abs(), Buf(), wake, accepted.Some?) == w
              && (accepted.Some? ==> accepted.value == Filled(old(Buf()), cap, data).1)
    {
      if capacity == 0 {
        capacity := cap;
      }
      var remaining := capacity - |buf|;
      var full := remaining <= |data|;
      var bytes := if full then remaining else |data|;
      buf := buf + data[..bytes];
      wake := None;
      if full {
        var ok;
        ok, wake := FlushHelper(false);
        if !ok {
          return None, wake;
        }
      }
      return Some(bytes), wake;
    }

    method Drop() returns (wake: Option<WakerId>)
      requires Valid()
      modifies this, shared
      ensures Valid()
      ensures var f := Flushed(old(shared.Abs()), old(Buf()), true);
              shared.Abs() == f.ch && wake == f.wake
    {
      var ok;
      ok, wake := FlushHelper(true);
    }
  }

  method WithChunkSize(cap: nat) returns (w: Writer, r: Reader)
    requires cap > 0
    ensures fresh(w) && fresh(r) && fresh(w.shared) && w.shared == r.shared
    ensures w.Valid() && w.cap == cap && w.Buf() == EMPTY
    ensures w.shared.Abs() == Channel(Ok([], 0, false), None)
  {
    var shared := new Shared();
    w := new Writer(shared, cap);
    r := new Reader(shared);
  }
}
