/**
 `src/body.rs`: the exact-length stream that polices what an entity produces.

 An entity's stream is modelled by the list of answers it gives to successive polls; after the
 list it keeps answering `End`.  The list is arbitrary: it may be too long, too short, contain
 errors, or go on after an `End`.  A real stream need not be fused: polled again after its end it may
 also panic.  `OnlyUntilEnd` shows that no run to the first error or end depends on what follows the
 first `End`; `FileStream` models the panic of its stream.
 */
module Streams {
  import opened Prelude

  /** One answer of an entity's stream. */
  datatype Event = NotReady | Chunk(data: Bytes) | Error(code: int) | End

  /** Why a body stream failed: the entity's own error, or one injected by `ExactLenStream`. */
  datatype Failure = Upstream(code: int) | TooShort(missing: nat) | TooLong(extra: nat)

  /** One answer of a body stream: `Pending`, `Ready(Some(Ok(..)))`, `Ready(Some(Err(..)))` or `Ready(None)`. */
  datatype Poll = Pending | Item(data: Bytes) | Fail(error: Failure) | Done

  /** How a stream that was polled to its first error or its end finished. */
  datatype Finish = Completed | Broken(error: Failure)

  function Head(script: seq<Event>): Event {
    if script == [] then End else script[0]
  }

  function Tail(script: seq<Event>): (t: seq<Event>)
    ensures script != [] ==> |t| < |script|
  {
    if script == [] then [] else script[1..]
  }

  // ---------- what a script means ----------

  /** All the data before the first `Error` or `End`. */
  function Payload(script: seq<Event>): Bytes {
    match Head(script)
    case Chunk(d) => d + Payload(script[1..])
    case NotReady => Payload(script[1..])
    case _ => []
  }

  /** The error that stops the stream, if an error does. */
  function StoppedBy(script: seq<Event>): Option<int> {
    match Head(script)
    case Chunk(_) => StoppedBy(script[1..])
    case NotReady => StoppedBy(script[1..])
    case Error(c) => Some(c)
    case End => None
  }

  /** Produces exactly `n` bytes, in any chunking and with any pauses, and then ends. */
  predicate Delivers(script: seq<Event>, n: int) {
    StoppedBy(script).None? && |Payload(script)| == n
  }

  /** The contract of `Entity::get_range`, in its strict reading: exactly `data`, without error. */
  ghost predicate Honest(script: seq<Event>, data: Bytes) {
    StoppedBy(script).None? && Payload(script) == data
  }

  // ---------- ExactLenStream ----------

  /** The fields of an `ExactLenStream`: the stream still to be polled and the bytes still expected. */
  datatype Exact = Exact(script: seq<Event>, remaining: u64)

  function ExactPoll(x: Exact): (Exact, Poll) {
    var rest := Tail(x.script);
    match Head(x.script)
    case Chunk(d) =>
      if |d| <= x.remaining then (Exact(rest, x.remaining - |d|), Item(d))
      else (Exact(rest, 0), Fail(TooLong(|d| - x.remaining)))
    case Error(c) => (Exact(rest, x.remaining), Fail(Upstream(c)))
    case End =>
      if x.remaining != 0 then (Exact(rest, 0), Fail(TooShort(x.remaining)))
      else (Exact(rest, 0), Done)
    case NotReady => (Exact(rest, x.remaining), Pending)
  }

  class EntityStream {
    var script: seq<Event>

    constructor (script: seq<Event>)
      ensures this.script == script
    {
      this.script := script;
    }

    method PollNext() returns (e: Event)
      modifies this
      ensures e == Head(old(script)) && script == Tail(old(script))
    {
      e := Head(script);
      script := Tail(script);
    }
  }

  class ExactLenStream {
    const stream: EntityStream
    var remaining: u64

    constructor (len: u64, stream: EntityStream)
      ensures this.stream == stream && remaining == len
    {
      this.stream := stream;
      remaining := len;
    }

    ghost function Abs(): Exact
      reads this, stream
    {
      Exact(stream.script, remaining)
    }

    method PollNext() returns (p: Poll)
      modifies this, stream
      ensures (Abs(), p) == ExactPoll(old(Abs()))
    {
      var e := stream.PollNext();
      match e
      case Chunk(d) =>
        if |d| <= remaining {
          remaining := remaining - |d|;
          p := Item(d);
        } else {
          var extra := |d| - remaining;
          remaining := 0;
          p := Fail(TooLong(extra));
        }
      case Error(c) =>
        p := Fail(Upstream(c));
      case End =>
        if remaining != 0 {
          var missing := remaining;
          remaining := 0;
          p := Fail(TooShort(missing));
        } else {
          p := Done;
        }
      case NotReady =>
        p := Pending;
    }
  }

  /** What one answer says about the stream: its data comes first, and a failure means it does not deliver. */
  lemma ExactPollMeaning(x: Exact)
    ensures var (x', p) := ExactPoll(x);
            match p
            case Item(d) =>
              && Payload(x.script) == d + Payload(x'.script)
              && (Delivers(x.script, x.remaining) <==> Delivers(x'.script, x'.remaining))
            case Pending =>
              && Payload(x.script) == Payload(x'.script)
              && (Delivers(x.script, x.remaining) <==> Delivers(x'.script, x'.remaining))
            case Done => Payload(x.script) == [] && Delivers(x.script, x.remaining) && x.remaining == 0
            case Fail(_) => !Delivers(x.script, x.remaining)
  {
  }

  // ---------- whole runs ----------

  /** Polls until the first error or the end: the bytes delivered and how it finished. */
  function ExactDrain(x: Exact): (Bytes, Finish)
    decreases |x.script|
  {
    var (x', p) := ExactPoll(x);
    match p
    case Done => ([], Completed)
    case Fail(f) => ([], Broken(f))
    case Pending => ExactDrain(x')
    case Item(d) => var (rest, fin) := ExactDrain(x'); (d + rest, fin)
  }

  /**
   The stream completes exactly when the entity delivers the promised number of bytes, and then
   it has delivered precisely the entity's bytes.  Otherwise it fails: with `TooLong` exactly when
   the entity produces more bytes than promised, else with the entity's own error if there is one,
   else with `TooShort` and the true number of missing bytes.
   */
  lemma {:induction false} ExactDrainMeaning(x: Exact)
    ensures var (bytes, fin) := ExactDrain(x);
            && (fin == Completed <==> Delivers(x.script, x.remaining))
            && (fin == Completed ==> bytes == Payload(x.script))
            && (|bytes| <= x.remaining && bytes <= Payload(x.script))
            && (fin.Broken? && fin.error.TooLong? <==> |Payload(x.script)| > x.remaining)
            && (fin.Broken? && fin.error.Upstream? ==> StoppedBy(x.script) == Some(fin.error.code))
            && (fin.Broken? && fin.error.TooShort? <==>
                StoppedBy(x.script).None? && |Payload(x.script)| < x.remaining)
            && (fin.Broken? && fin.error.TooShort? ==>
                fin.error.missing == x.remaining - |Payload(x.script)|)
    decreases |x.script|
  {
    var (x', p) := ExactPoll(x);
    if p.Pending? || p.Item? {
      ExactDrainMeaning(x');
    }
  }

  /** The data up to and including the first answer that goes beyond `n` bytes is `extra` bytes too long. */
  ghost predicate Overshoots(script: seq<Event>, n: nat, extra: nat) {
    exists k :: 0 <= k < |script| && OvershootsAt(script, n, extra, k)
  }

  ghost predicate OvershootsAt(script: seq<Event>, n: nat, extra: nat, k: nat)
    requires k < |script|
  {
    |Payload(script[..k])| <= n && |Payload(script[..k + 1])| == n + extra && extra > 0
  }

  /** The one failure that a stream of which `n` bytes are promised calls for, when it does not deliver them. */
  ghost predicate BreaksWith(script: seq<Event>, n: nat, f: Failure) {
    match f
    case TooLong(extra) => |Payload(script)| > n && Overshoots(script, n, extra)
    case Upstream(c) => |Payload(script)| <= n && StoppedBy(script) == Some(c)
    case TooShort(missing) => StoppedBy(script).None? && missing > 0 && |Payload(script)| + missing == n
  }

  lemma BreaksLater(x: Exact, f: Failure)
    requires ExactPoll(x).1.Item? || ExactPoll(x).1.Pending?
    requires var x' := ExactPoll(x).0; BreaksWith(x'.script, x'.remaining, f)
    ensures BreaksWith(x.script, x.remaining, f)
  {
    var x' := ExactPoll(x).0;
    if f.TooLong? {
      var k :| 0 <= k < |x'.script| && OvershootsAt(x'.script, x'.remaining, f.extra, k);
      PayloadStep(x.script, k);
      PayloadStep(x.script, k + 1);
      assert OvershootsAt(x.script, x.remaining, f.extra, k + 1);
    }
  }

  lemma PayloadStep(script: seq<Event>, k: nat)
    requires script != [] && k <= |script[1..]|
    ensures script[0].Chunk? ==> Payload(script[..k + 1]) == script[0].data + Payload(script[1..][..k])
    ensures script[0].NotReady? ==> Payload(script[..k + 1]) == Payload(script[1..][..k])
  {
    assert script[..k + 1][1..] == script[1..][..k];
    assert script[..k + 1][0] == script[0];
  }

  lemma BreaksNow(x: Exact)
    requires ExactPoll(x).1.Fail?
    ensures BreaksWith(x.script, x.remaining, ExactPoll(x).1.error)
  {
    var f := ExactPoll(x).1.error;
    if f.TooLong? {
      assert x.script[..0] == [] && x.script[..1] == [x.script[0]];
      assert Payload(x.script[..1]) == x.script[0].data + Payload([]);
      assert OvershootsAt(x.script, x.remaining, f.extra, 0);
    }
  }

  /** A stream that breaks does so with exactly the failure that its answers call for. */
  lemma {:induction false} FailureMeaning(x: Exact)
    ensures ExactDrain(x).1.Broken? ==> BreaksWith(x.script, x.remaining, ExactDrain(x).1.error)
    decreases |x.script|
  {
    var (x', p) := ExactPoll(x);
    if p.Pending? || p.Item? {
      FailureMeaning(x');
      if ExactDrain(x').1.Broken? {
        BreaksLater(x, ExactDrain(x').1.error);
      }
    } else if p.Fail? {
      BreaksNow(x);
    }
  }

  /** A script calls for one failure at most, and for none when it delivers. */
  lemma OneFailure(script: seq<Event>, n: nat, f: Failure, g: Failure)
    requires BreaksWith(script, n, f) && BreaksWith(script, n, g)
    ensures f == g && !Delivers(script, n)
  {
    if f.TooLong? {
      var j :| 0 <= j < |script| && OvershootsAt(script, n, f.extra, j);
      var k :| 0 <= k < |script| && OvershootsAt(script, n, g.extra, k);
      if j < k {
        PayloadGrows(script, j + 1, k);
      } else if k < j {
        PayloadGrows(script, k + 1, j);
      }
    }
  }

  lemma {:induction false} PayloadGrows(script: seq<Event>, j: nat, k: nat)
    requires j <= k <= |script|
    ensures |Payload(script[..j])| <= |Payload(script[..k])|
  {
    if j > 0 && (script[0].Chunk? || script[0].NotReady?) {
      PayloadGrows(script[1..], j - 1, k - 1);
      PayloadStep(script, j - 1);
      PayloadStep(script, k - 1);
    }
  }

  /** A poll waits exactly when the entity's stream does, which is when its waker is stored. */
  lemma PendingIff(x: Exact)
    ensures ExactPoll(x).1.Pending? <==> Head(x.script).NotReady?
  {
  }

  /** The answers before the first `End`. */
  function UntilEnd(script: seq<Event>): seq<Event> {
    if Head(script) == End then [] else [script[0]] + UntilEnd(script[1..])
  }

  /** Two streams alike up to their first end, in the same place of their bodies. */
  predicate Alike(x: Exact, y: Exact) {
    UntilEnd(x.script) == UntilEnd(y.script) && x.remaining == y.remaining
  }

  lemma AlikeHead(s: seq<Event>, t: seq<Event>)
    requires UntilEnd(s) == UntilEnd(t)
    ensures Head(s) == Head(t)
    ensures Head(s) != End ==> UntilEnd(s[1..]) == UntilEnd(t[1..])
  {
    if Head(s) != End {
      assert UntilEnd(s)[0] == s[0] && UntilEnd(s)[1..] == UntilEnd(s[1..]);
      assert UntilEnd(t)[0] == t[0] && UntilEnd(t)[1..] == UntilEnd(t[1..]);
    }
  }

  lemma AlikePoll(x: Exact, y: Exact)
    requires Alike(x, y)
    ensures ExactPoll(x).1 == ExactPoll(y).1
    ensures ExactPoll(x).1.Item? || ExactPoll(x).1.Pending? ==> Alike(ExactPoll(x).0, ExactPoll(y).0)
  {
    AlikeHead(x.script, y.script);
  }

  /** What a stream would do after its end has no influence on a run to the first error or end. */
  lemma {:induction false} OnlyUntilEnd(x: Exact, y: Exact)
    requires Alike(x, y)
    ensures ExactDrain(x) == ExactDrain(y)
    decreases |x.script|
  {
    AlikePoll(x, y);
    if ExactPoll(x).1.Item? || ExactPoll(x).1.Pending? {
      OnlyUntilEnd(ExactPoll(x).0, ExactPoll(y).0);
    }
  }

  function ItemSize(p: Poll): nat {
    if p.Item? then |p.data| else 0
  }

  lemma ExactPollConserves(x: Exact)
    ensures var (x', p) := ExactPoll(x);
            && ItemSize(p) + x'.remaining <= x.remaining
            && (!p.Fail? ==> ItemSize(p) + x'.remaining == x.remaining)
  {
  }

  /** `k` polls in a row, whatever they answer: the state reached and the bytes delivered. */
  function ExactRun(x: Exact, k: nat): (Exact, nat)
    decreases k
  {
    if k == 0 then (x, 0)
    else
      var (x', p) := ExactPoll(x);
      var (x'', n) := ExactRun(x', k - 1);
      (x'', ItemSize(p) + n)
  }

  /** No error within the first `k` polls. */
  predicate NoFailure(x: Exact, k: nat)
    decreases k
  {
    k == 0 || (!ExactPoll(x).1.Fail? && NoFailure(ExactPoll(x).0, k - 1))
  }

  /**
   Over any number of polls, even past errors, no more bytes than promised are delivered; and
   until the first error the bytes delivered and the bytes still expected add up to the promise.
   */
  lemma {:induction false} ExactRunConserves(x: Exact, k: nat)
    ensures var (x', n) := ExactRun(x, k);
            && n + x'.remaining <= x.remaining
            && (NoFailure(x, k) ==> n + x'.remaining == x.remaining)
    decreases k
  {
    if k > 0 {
      ExactPollConserves(x);
      ExactRunConserves(ExactPoll(x).0, k - 1);
    }
  }

  /** A length error fuses the body: nothing is expected any more, and no later poll delivers a byte. */
  lemma LengthErrorFuses(x: Exact, later: nat)
    ensures var (x', p) := ExactPoll(x);
            p.Fail? && !p.error.Upstream? ==> x'.remaining == 0 && ExactRun(x', later).1 == 0
    ensures var (x', p) := ExactPoll(x);
            p.Fail? && p.error.Upstream? ==> x'.remaining == x.remaining
  {
    ExactRunConserves(ExactPoll(x).0, later);
  }

  /** `Body::size_hint` (exact) and `Body::is_end_stream` of an exact-length body. */
  function SizeHint(x: Exact): u64 {
    x.remaining
  }

  predicate IsEndStream(x: Exact) {
    x.remaining == 0
  }

  /** The first `k` polls answer only data and `Pending`. */
  predicate Running(x: Exact, k: nat)
    decreases k
  {
    k == 0 || ((ExactPoll(x).1.Item? || ExactPoll(x).1.Pending?) && Running(ExactPoll(x).0, k - 1))
  }

  /**
   At every point of a body over a delivering stream the reported size is the number of bytes
   still to come; and at any point of any body a reported end means that no byte ever follows.
   */
  lemma {:induction false} ExactSizeIsTruthful(x: Exact, k: nat, later: nat)
    ensures var x' := ExactRun(x, k).0;
            && (Delivers(x.script, x.remaining) && Running(x, k) ==>
                  && SizeHint(x') == |Payload(x'.script)| == |ExactDrain(x').0|
                  && (IsEndStream(x') <==> ExactDrain(x').0 == []))
            && (IsEndStream(x') ==> ExactRun(x', later).1 == 0)
    decreases k
  {
    if k == 0 {
      ExactDrainMeaning(x);
      ExactRunConserves(x, later);
    } else {
      ExactPollMeaning(x);
      ExactSizeIsTruthful(ExactPoll(x).0, k - 1, later);
    }
  }
}
