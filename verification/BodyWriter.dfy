/**
 `BodyWriter` of `src/gzip.rs`, restricted to its uncompressed and dead variants: an aborted or
 failed writer is dropped, and everything after that fails without touching the pipe.
 */
module RawBodyWriter {
  import opened Prelude
  import opened Chunker

  function Taken(wake: Option<WakerId>): seq<WakerId> {
    if wake.Some? then [wake.value] else []
  }

  /** The bytes that are queued or buffered, in order. */
  function Pending(ready: seq<Bytes>, buf: Bytes): Bytes {
    Concat(ready) + buf
  }

  /** A chunk moved from the buffer to the queue is still pending. */
  lemma PushKeepsPending(ready: seq<Bytes>, chunk: Bytes)
    ensures Pending(ready + [chunk], []) == Pending(ready, chunk)
  {
    ConcatSnoc(ready, chunk);
  }

  class BodyWriter {
    /** `null` is the dead variant. */
    var inner: Writer?

    constructor Raw(w: Writer)
      requires w.Valid()
      ensures inner == w && Valid()
    {
      inner := w;
    }

    ghost predicate Valid()
      reads this, inner
    {
      inner != null ==> inner.Valid()
    }

    ghost function Footprint(): set<object>
      reads this, inner
    {
      {this} + if inner == null then {} else {inner, inner.shared}
    }

    /** Returns the wakers to fire, in order. */
    method Abort(error: int) returns (wakes: seq<WakerId>)
      requires Valid()
      modifies Footprint()
      ensures inner == null
      ensures old(inner) == null ==> wakes == []
      ensures old(inner) != null ==>
                (old(inner).shared.Abs(), wakes) ==
                (Aborted(old(inner.shared.Abs()), error).0, Taken(Aborted(old(inner.shared.Abs()), error).1))
    {
      wakes := [];
      if inner != null {
        var w := inner;
        inner := null;
        var wake := w.Abort(error);
        var wake' := w.Drop();
        wakes := Taken(wake) + Taken(wake');
        assert wake' == None && wakes == Taken(wake);
      }
    }

    /** `None` is the source's broken-pipe error. */
    method Write(data: Bytes) returns (accepted: Option<nat>, wakes: seq<WakerId>)
      requires Valid()
      modifies Footprint()
      ensures old(inner) == null ==> inner == null && accepted == None && wakes == []
      ensures old(inner) != null ==>
                var w := Written(old(inner.shared.Abs()), old(inner.Buf()), old(inner).cap, data);
                && old(inner).shared.Abs() == w.ch && wakes == Taken(w.wake)
                && accepted == (if w.ok then Some(Filled(old(inner.Buf()), old(inner).cap, data).1) else None)
                && inner == (if w.ok then old(inner) else null)
                && (w.ok ==> inner.Buf() == w.buf)
      ensures old(inner) != null && old(inner.shared.state.Ok?) ==>
                && accepted.Some? && accepted.value <= |data| && |old(inner.buf)| + accepted.value <= old(inner).cap
                && (accepted.value == |data| || |old(inner.buf)| + accepted.value == old(inner).cap)
                && old(inner).shared.state.Ok?
                && Pending(old(inner).shared.state.ready, old(inner).buf) ==
                   old(Pending(inner.shared.state.ready, inner.buf)) + data[..accepted.value]
      ensures Valid()
    {
      if inner == null {
        return None, [];
      }
      var w := inner;
      var wake;
      ghost var ready, full := if w.shared.state.Ok? then w.shared.state.ready else [], Filled(w.Buf(), w.cap, data).0.data;
      PushKeepsPending(ready, full);
      Reassociate(Concat(ready), w.buf, full[|w.buf|..]);
      accepted, wake := w.Write(data);
      wakes := Taken(wake);
      if accepted.None? {
        inner := null;
        var wake' := w.Drop();
        wakes := wakes + Taken(wake');
      }
    }

    method Flush() returns (ok: bool, wakes: seq<WakerId>)
      requires Valid()
      modifies Footprint()
      ensures old(inner) == null ==> inner == null && !ok && wakes == []
      ensures old(inner) != null ==>
                var f := Flushed(old(inner.shared.Abs()), old(inner.Buf()), false);
                && old(inner).shared.Abs() == f.ch && wakes == Taken(f.wake) && ok == f.ok
                && inner == (if ok then old(inner) else null)
                && (ok ==> inner.Buf() == f.buf)
      ensures old(inner) != null && old(inner.shared.state.Ok?) ==>
                && ok && old(inner).shared.state.Ok? && old(inner).buf == []
                && Concat(old(inner).shared.state.ready) == old(Pending(inner.shared.state.ready, inner.buf))
      ensures Valid()
    {
      if inner == null {
        return false, [];
      }
      var w := inner;
      var wake;
      PushKeepsPending(if w.shared.state.Ok? then w.shared.state.ready else [], w.buf);
      ok, wake := w.FlushHelper(false);
      wakes := Taken(wake);
      if !ok {
        inner := null;
        var wake' := w.Drop();
        wakes := wakes + Taken(wake');
      }
    }
  }
}
