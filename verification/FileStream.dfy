/**
 `ChunkedReadFile::get_range` of `src/file.rs`: a range of a file, read chunk by chunk.

 Of the platform layer only the contract of `read_at` is kept: it fails, or returns at least one
 and at most the requested number of bytes that the file holds at that offset.  The file may have
 become shorter than the entity's recorded length.  `stream::unfold` of futures-util is kept with
 its panic: it must not be polled again after it has answered the end.
 */
module FileStream {
  import opened Prelude
  import opened Streams

  const CHUNK_SIZE: nat := 65536

  /** What one `read_at` answers: how many bytes it read, or an error. */
  datatype ReadResult = ReadOk(count: nat) | ReadErr(code: int)

  function ChunkSize(left: Slice): nat {
    if left.Size() <= CHUNK_SIZE then left.Size() else CHUNK_SIZE
  }

  /** The contract of `read_at(chunk_size, offset)`. */
  predicate LegalRead(file: Bytes, left: Slice, rd: ReadResult) {
    rd.ReadOk? ==> 1 <= rd.count <= ChunkSize(left) && left.start + rd.count <= |file|
  }

  /** One step of the unfold: what the stream answers and what is left to read. */
  function Unfold(file: Bytes, left: Slice, rd: ReadResult): (Event, Slice)
    requires left.Size() > 0 ==> LegalRead(file, left, rd)
  {
    if left.start == left.end then (End, left)
    else
      match rd
      case ReadErr(c) => (Error(c), left)
      case ReadOk(n) => (Chunk(file[left.start..left.start + n]), Range(left.start + n, left.end))
  }

  /** Every read is legal for what is left when it happens. */
  predicate AllLegal(file: Bytes, left: Slice, results: seq<ReadResult>)
    decreases |results|
  {
    results == [] || left.Size() == 0 ||
    (LegalRead(file, left, results[0]) && AllLegal(file, Unfold(file, left, results[0]).1, results[1..]))
  }

  /** The stream's answers when `results` are the outcomes of its reads. */
  function Script(file: Bytes, left: Slice, results: seq<ReadResult>): seq<Event>
    requires AllLegal(file, left, results)
    decreases |results|
  {
    if results == [] || left.Size() == 0 then []
    else
      var (e, left') := Unfold(file, left, results[0]);
      [e] + Script(file, left', results[1..])
  }

  /** What is left after all the reads. */
  function LeftAfter(file: Bytes, left: Slice, results: seq<ReadResult>): Slice
    requires AllLegal(file, left, results)
    decreases |results|
  {
    if results == [] || left.Size() == 0 then left
    else LeftAfter(file, Unfold(file, left, results[0]).1, results[1..])
  }

  predicate NoErrors(results: seq<ReadResult>) {
    forall i :: 0 <= i < |results| ==> results[i].ReadOk?
  }

  predicate LawfulChunk(e: Event) {
    e.Chunk? && 0 < |e.data| <= CHUNK_SIZE
  }

  /**
   However short the reads, an error-free stream that has read its range hands out exactly that
   slice of the file, in non-empty chunks of at most 65536 bytes, and needs at most one read per byte.
   */
  lemma {:induction false} StreamIsSlice(file: Bytes, left: Slice, results: seq<ReadResult>)
    requires AllLegal(file, left, results) && NoErrors(results) && left.end <= |file|
    ensures var script := Script(file, left, results);
            && |script| <= left.Size()
            && (forall i :: 0 <= i < |script| ==> LawfulChunk(script[i]))
            && (LeftAfter(file, left, results).Size() == 0 ==> Honest(script, file[left.start..left.end]))
            && (|results| >= left.Size() ==> LeftAfter(file, left, results).Size() == 0)
    decreases |results|
  {
    if results != [] && left.Size() > 0 {
      var (e, left') := Unfold(file, left, results[0]);
      StreamIsSlice(file, left', results[1..]);
      assert file[left.start..left.end] == e.data + file[left'.start..left.end];
    }
  }

  /** The data handed out by `k` polls in a row, whatever they answer. */
  function Collected(x: Exact, k: nat): Bytes
    decreases k
  {
    if k == 0 then []
    else
      var (x', p) := ExactPoll(x);
      (if p.Item? then p.data else []) + Collected(x', k - 1)
  }

  /** What poll `k`, not past the first end, of an exact-length stream over `script` shows, when the bytes `left` are promised. */
  ghost predicate FileAnswers(file: Bytes, left: Slice, script: seq<Event>, allRead: bool, k: nat) {
    var x := Exact(script, left.Size());
    && AnswerAt(ExactRun(x, k).0, k < |script|, allRead)
    && ExactRun(x, k).0.script == (if k <= |script| then script[k..] else [])
    && DataAt(file, left, Collected(x, k))
    && |Collected(x, k)| + ExactRun(x, k).0.remaining == left.Size()
  }

  ghost predicate AnswerAt(x: Exact, reading: bool, allRead: bool) {
    var p := ExactPoll(x).1;
    && (reading ==> p.Item? || (p.Fail? && p.error.Upstream?))
    && (!reading && allRead ==> p == Done && x.remaining == 0)
  }

  ghost predicate DataAt(file: Bytes, left: Slice, data: Bytes) {
    data != [] ==> left.start + |data| <= |file| && data == file[left.start..left.start + |data|]
  }

  lemma DataFollows(file: Bytes, left: Slice, n: nat, data: Bytes)
    requires 1 <= n <= left.Size() && left.start + n <= |file|
    requires DataAt(file, Range(left.start + n, left.end), data)
    ensures DataAt(file, left, file[left.start..left.start + n] + data)
  {
  }

  lemma RunStep(x: Exact, k: nat)
    ensures ExactRun(x, k + 1).0 == ExactRun(ExactPoll(x).0, k).0
    ensures var p := ExactPoll(x).1;
            Collected(x, k + 1) == (if p.Item? then p.data else []) + Collected(ExactPoll(x).0, k)
  {
  }

  /** The poll that makes one read. */
  lemma ReadingPoll(file: Bytes, left: Slice, rd: ReadResult, rest: seq<Event>)
    requires left.Size() > 0 && LegalRead(file, left, rd)
    ensures var (e, left') := Unfold(file, left, rd);
            ExactPoll(Exact([e] + rest, left.Size())) ==
            (Exact(rest, left'.Size()), match e case Chunk(d) => Item(d) case Error(c) => Fail(Upstream(c)) case _ => Done)
  {
    assert ([Unfold(file, left, rd).0] + rest)[1..] == rest;
  }

  lemma FileAnswersStep(file: Bytes, left: Slice, rd: ReadResult, rest: seq<Event>, allRead: bool, k: nat)
    requires left.Size() > 0 && LegalRead(file, left, rd)
    requires FileAnswers(file, Unfold(file, left, rd).1, rest, allRead, k)
    ensures FileAnswers(file, left, [Unfold(file, left, rd).0] + rest, allRead, k + 1)
  {
    var (e, left') := Unfold(file, left, rd);
    var x := Exact([e] + rest, left.Size());
    ReadingPoll(file, left, rd, rest);
    RunStep(x, k);
    var data := Collected(Exact(rest, left'.Size()), k);
    if rd.ReadOk? {
      DataFollows(file, left, rd.count, data);
    } else {
      assert [] + data == data;
    }
    assert ([e] + rest)[1..] == rest;
    assert k <= |rest| ==> ([e] + rest)[k + 1..] == rest[k..];
  }

  lemma {:induction false} FileAnswersUpToEnd(file: Bytes, left: Slice, results: seq<ReadResult>, k: nat)
    requires AllLegal(file, left, results) && k <= |Script(file, left, results)|
    ensures FileAnswers(file, left, Script(file, left, results), LeftAfter(file, left, results).Size() == 0, k)
    decreases k
  {
    if k > 0 {
      FileAnswersUpToEnd(file, Unfold(file, left, results[0]).1, results[1..], k - 1);
      FileAnswersStep(file, left, results[0], Script(file, Unfold(file, left, results[0]).1, results[1..]),
                      LeftAfter(file, left, results).Size() == 0, k - 1);
    }
  }

  // ---------- the stream is not fused ----------

  /** The state of `stream::unfold`: what is left to read, or nothing once it has answered the end. */
  datatype Unfolding = Reading(left: Slice) | Finished

  /** One poll of it.  It panics when it is polled again after the end. */
  function UnfoldPoll(file: Bytes, u: Unfolding, rd: ReadResult): Outcome<(Unfolding, Event)>
    requires u.Reading? && u.left.Size() > 0 ==> LegalRead(file, u.left, rd)
  {
    match u
    case Finished => Panic
    case Reading(left) =>
      var (e, left') := Unfold(file, left, rd);
      Returned((if e == End then Finished else Reading(left'), e))
  }

  /** Poll `k`, when poll `i` finds the outcome `results[i]` if it reads. */
  function UnfoldAt(file: Bytes, u: Unfolding, results: seq<ReadResult>, k: nat): Outcome<Event>
    requires k < |results| && (u.Reading? ==> AllLegal(file, u.left, results))
    decreases k
  {
    match UnfoldPoll(file, u, results[0])
    case Panic => Panic
    case Returned((u', e)) => if k == 0 then Returned(e) else UnfoldAt(file, u', results[1..], k - 1)
  }

  /** It answers its reads, then the end once, and panics ever after. */
  lemma {:induction false} UnfoldAnswers(file: Bytes, left: Slice, results: seq<ReadResult>, k: nat)
    requires AllLegal(file, left, results) && k < |results|
    ensures var script := Script(file, left, results);
            UnfoldAt(file, Reading(left), results, k) ==
            if k < |script| then Returned(script[k]) else if k == |script| then Returned(End) else Panic
    decreases k
  {
    if left.Size() > 0 {
      if k > 0 {
        UnfoldAnswers(file, Unfold(file, left, results[0]).1, results[1..], k - 1);
      }
    } else if k > 0 {
      assert UnfoldPoll(file, Reading(left), results[0]) == Returned((Finished, End));
    }
  }

  /** Answer `k` is that of read `k`. */
  lemma {:induction false} ScriptAt(file: Bytes, left: Slice, results: seq<ReadResult>, k: nat)
    requires AllLegal(file, left, results) && k < |Script(file, left, results)|
    ensures k < |results|
    ensures match results[k]
            case ReadOk(n) => Script(file, left, results)[k].Chunk? && |Script(file, left, results)[k].data| == n
            case ReadErr(c) => Script(file, left, results)[k] == Error(c)
    decreases k
  {
    if k > 0 {
      ScriptAt(file, Unfold(file, left, results[0]).1, results[1..], k - 1);
    }
  }

  lemma {:induction false} ReadsEnough(file: Bytes, left: Slice, results: seq<ReadResult>)
    requires AllLegal(file, left, results) && |Script(file, left, results)| < |results|
    ensures LeftAfter(file, left, results).Size() == 0
    decreases |results|
  {
    if left.Size() > 0 {
      ReadsEnough(file, Unfold(file, left, results[0]).1, results[1..]);
    }
  }

  /**
   Poll `k` of an `ExactLenStream` around the file's stream: every poll of the one polls the other
   once, so that a panic of the inner is a panic of the outer.
   */
  function BodyAt(file: Bytes, left: Slice, results: seq<ReadResult>, k: nat): Outcome<Poll>
    requires AllLegal(file, left, results) && k < |results|
  {
    match UnfoldAt(file, Reading(left), results, k)
    case Panic => Panic
    case Returned(_) => Returned(ExactPoll(ExactRun(Exact(Script(file, left, results), left.Size()), k).0).1)
  }

  /**
   A file inside the `ExactLenStream` that `serve` puts around it, at any poll `k`, whatever the
   reads do and even when reading goes on after errors.  A poll that reads answers the read's data
   or the read's own error; the first poll after the range is read answers the end, with nothing expected
   any more; so there never is a length error.  Every later poll panics.  Until then the data is the
   file's, in order, without loss or repetition across the retries.
   */
  lemma NeverALengthError(file: Bytes, left: Slice, results: seq<ReadResult>, k: nat)
    requires AllLegal(file, left, results) && k < |results|
    ensures var last := |Script(file, left, results)|;
            var x := Exact(Script(file, left, results), left.Size());
            var p := BodyAt(file, left, results, k);
            && (p == Panic <==> k > last)
            && (k < last ==>
                  match results[k]
                  case ReadOk(n) => p.value.Item? && |p.value.data| == n
                  case ReadErr(c) => p.value == Fail(Upstream(c)))
            && (k == last ==> p == Returned(Done) && ExactRun(x, k).0.remaining == 0)
            && (k <= last ==>
                  && UnfoldAt(file, Reading(left), results, k) == Returned(Head(ExactRun(x, k).0.script))
                  && DataAt(file, left, Collected(x, k))
                  && |Collected(x, k)| + ExactRun(x, k).0.remaining == left.Size())
  {
    UnfoldAnswers(file, left, results, k);
    var script := Script(file, left, results);
    if k <= |script| {
      FileAnswersUpToEnd(file, left, results, k);
      if k < |script| {
        ScriptAt(file, left, results, k);
      }
      if k == |script| {
        ReadsEnough(file, left, results);
      }
    }
  }

  /** A read asks for all that is left, up to 65536 bytes, and may get all of it. */
  lemma LargestRead(file: Bytes, left: Slice, n: nat)
    requires 0 < left.Size() && left.end <= |file|
    ensures LegalRead(file, left, ReadOk(n)) <==> 1 <= n <= left.Size() && n <= 65536
  {
  }

  /** A file that ends before the range does cannot be read to the end: every complete stream needs its bytes. */
  lemma {:induction false} TruncatedNeverCompletes(file: Bytes, left: Slice, results: seq<ReadResult>)
    requires AllLegal(file, left, results) && left.end > |file| && left.Size() > 0
    ensures LeftAfter(file, left, results).Size() > 0
    decreases |results|
  {
    if results != [] {
      TruncatedNeverCompletes(file, Unfold(file, left, results[0]).1, results[1..]);
    }
  }
}
