/** `BoundedFileSink`: a file opened for appending whose accepted length is counted.

    The asynchronous file accepts bytes into a buffer that a background thread
    writes out; `buffered` holds what was accepted and is not in the file yet. */
module BoundedSink {
  import opened Machine
  import opened Sendfile
  import opened FileSlices
  import opened CopyLoops
  import CopyTheorems

  datatype Sink = Sink(maxLen: Option<U64>, currentLen: U64, disk: FileBytes, buffered: seq<Byte>,
                       readable: bool)

  /** `File::create` truncates the file and opens it for writing only. */
  function Create(maxLen: Option<U64>): Sink {
    Sink(maxLen, 0, [], [], false)
  }

  /** `open_read_append` keeps the contents and opens for reading too. */
  function OpenAppend(maxLen: Option<U64>, contents: FileBytes): Sink {
    Sink(maxLen, |contents|, contents, [], true)
  }

  predicate CanBeAppended(currentLen: U64, maxLen: Option<U64>, bufLen: U64) {
    match maxLen
    case Some(max) => WrapAdd(currentLen, bufLen) <= max
    case None => true
  }

  /** A call answers whether the buffer fits exactly when its sum does not wrap, or
      wraps to more than the bound; within the bound the second cannot happen, so
      the caller need only see that current length plus buffer is below 2^64. */
  lemma CanBeAppendedIsRightIff(currentLen: U64, max: U64, bufLen: U64)
    ensures (CanBeAppended(currentLen, Some(max), bufLen) <==> currentLen + bufLen <= max)
       <==> currentLen + bufLen < TWO_64 || max < currentLen + bufLen - TWO_64
    ensures currentLen <= max ==>
      ((CanBeAppended(currentLen, Some(max), bufLen) <==> currentLen + bufLen <= max)
        <==> currentLen + bufLen < TWO_64)
  {
  }

  // ---------------------------------------------------------------- one poll

  /** How the underlying file answers a `poll_write`. */
  datatype WriterReply = Accept(wish: nat) | NotReady | Broken
  datatype WritePoll = Pending | ReadyOk(size: nat) | ReadyErr

  function PollWrite(s: Sink, buf: seq<Byte>, reply: WriterReply): (Sink, WritePoll) {
    match reply
    case NotReady => (s, Pending)
    case Broken => (s, ReadyErr)
    case Accept(wish) =>
      var size := Min(wish, |buf|);
      (s.(buffered := s.buffered + buf[..size], currentLen := WrapAdd(s.currentLen, Low64(size))), ReadyOk(size))
  }

  /** The background thread writes out some of the buffer, if the file can hold it. */
  function Drain(s: Sink, wish: nat): Sink {
    var count := Min(wish, |s.buffered|);
    if |s.disk| + count <= OFF_MAX
    then s.(disk := s.disk + s.buffered[..count], buffered := s.buffered[count..])
    else s
  }

  function SliceFrom(fd: int, position: U64, len: U64): AsyncFileSlice {
    RawSlice(fd, position, len)
  }

  /** The descriptor a slice of the sink refers to, as `sendfile` sees it. */
  function Descriptor(s: Sink): Source {
    Source(s.disk, s.readable)
  }

  // ---------------------------------------------------------------- runs

  /** A writer that checks each whole buffer once and then polls until it is gone. */
  datatype Writer = Writer(sink: Sink, remaining: seq<Byte>, accepted: seq<Byte>)
  datatype Action = Begin(buf: seq<Byte>) | Poll(reply: WriterReply) | Background(wish: nat) | GiveUp

  function Act(w: Writer, a: Action): Writer {
    match a
    case Begin(buf) =>
      if w.remaining == [] && |buf| < TWO_64 && CanBeAppended(w.sink.currentLen, w.sink.maxLen, |buf|)
      then w.(remaining := buf) else w
    case Poll(reply) =>
      var (sink, answer) := PollWrite(w.sink, w.remaining, reply);
      if answer.ReadyOk?
      then Writer(sink, w.remaining[answer.size..], w.accepted + w.remaining[..answer.size])
      else w.(sink := sink)
    case Background(wish) => w.(sink := Drain(w.sink, wish))
    case GiveUp => w.(remaining := [])
  }

  function Run(w: Writer, actions: seq<Action>): Writer
    decreases |actions|
  {
    if actions == [] then w else Run(Act(w, actions[0]), actions[1..])
  }

  function Open(s: Sink): Writer {
    Writer(s, [], [])
  }

  /** Bytes are conserved: the file, then the buffer, are what was there and what
      was accepted, in order, and the counter counts them. */
  ghost predicate Conserved(contents: seq<Byte>, w: Writer) {
    && w.sink.disk + w.sink.buffered == contents + w.accepted
    && w.sink.currentLen == Low64(|contents| + |w.accepted|)
  }

  lemma ActConserves(contents: seq<Byte>, w: Writer, a: Action)
    requires Conserved(contents, w)
    ensures Conserved(contents, Act(w, a))
    ensures Act(w, a).sink.readable == w.sink.readable && Act(w, a).sink.maxLen == w.sink.maxLen
  {
    match a {
      case Poll(Accept(wish)) =>
        AcceptConserves(contents, w, Min(wish, |w.remaining|));
      case Background(wish) =>
        DrainConserves(w.sink, wish);
      case _ =>
    }
  }

  lemma AcceptConserves(contents: seq<Byte>, w: Writer, size: nat)
    requires Conserved(contents, w) && size <= |w.remaining|
    ensures var more := w.remaining[..size];
      && w.sink.disk + (w.sink.buffered + more) == contents + (w.accepted + more)
      && WrapAdd(w.sink.currentLen, Low64(size)) == Low64(|contents| + |w.accepted + more|)
  {
    var more := w.remaining[..size];
    assert w.sink.disk + (w.sink.buffered + more) == (w.sink.disk + w.sink.buffered) + more;
    assert contents + (w.accepted + more) == (contents + w.accepted) + more;
    Low64Adds(|contents| + |w.accepted|, size);
  }

  lemma DrainConserves(s: Sink, wish: nat)
    ensures Drain(s, wish).disk + Drain(s, wish).buffered == s.disk + s.buffered
  {
    var count := Min(wish, |s.buffered|);
    assert s.buffered[..count] + s.buffered[count..] == s.buffered;
    assert (s.disk + s.buffered[..count]) + s.buffered[count..] == s.disk + (s.buffered[..count] + s.buffered[count..]);
  }

  lemma Low64Adds(a: nat, b: nat)
    ensures WrapAdd(Low64(a), Low64(b)) == Low64(a + b)
  {
    var sum := a % TWO_64 + b % TWO_64;
    assert a + b == TWO_64 * (a / TWO_64 + b / TWO_64) + sum;
    assert (a + b) % TWO_64 == if sum < TWO_64 then sum else sum - TWO_64;
  }

  lemma {:induction false} RunConserves(contents: seq<Byte>, w: Writer, actions: seq<Action>)
    requires Conserved(contents, w)
    ensures Conserved(contents, Run(w, actions))
    ensures Run(w, actions).sink.readable == w.sink.readable && Run(w, actions).sink.maxLen == w.sink.maxLen
    decreases |actions|
  {
    if actions != [] {
      ActConserves(contents, w, actions[0]);
      RunConserves(contents, Act(w, actions[0]), actions[1..]);
    }
  }

  /** The bound is kept with the rest of the current buffer already counted in. */
  ghost predicate Within(max: U64, w: Writer) {
    w.sink.maxLen == Some(max) && w.sink.currentLen + |w.remaining| <= max
  }

  /** Whenever the writer checks a new buffer, the sum it checks does not wrap. */
  ghost predicate NoSumWraps(w: Writer, actions: seq<Action>)
    decreases |actions|
  {
    actions != [] ==>
      && (actions[0].Begin? && w.remaining == [] && |actions[0].buf| < TWO_64 ==>
            w.sink.currentLen + |actions[0].buf| < TWO_64)
      && NoSumWraps(Act(w, actions[0]), actions[1..])
  }

  lemma ActStaysWithinIff(max: U64, w: Writer, a: Action)
    requires Within(max, w)
    ensures Within(max, Act(w, a)) <==>
      (a.Begin? && w.remaining == [] && |a.buf| < TWO_64 ==> w.sink.currentLen + |a.buf| < TWO_64)
  {
  }

  /** At every point of a run, partial writes, pending polls and errors included, the
      counted length plus what remains of the buffer is within the bound: exactly
      when no checked sum wraps. */
  lemma {:induction false} BoundIsKeptIff(max: U64, w: Writer, actions: seq<Action>)
    requires Within(max, w)
    ensures (forall n :: 0 <= n <= |actions| ==> Within(max, Run(w, actions[..n]))) <==> NoSumWraps(w, actions)
    decreases |actions|
  {
    if actions != [] {
      var next, rest := Act(w, actions[0]), actions[1..];
      ActStaysWithinIff(max, w, actions[0]);
      forall n | 0 < n <= |actions|
        ensures Run(w, actions[..n]) == Run(next, rest[..n - 1])
      {
        assert actions[..n][1..] == rest[..n - 1];
      }
      if Within(max, next) {
        BoundIsKeptIff(max, next, rest);
        assert forall n :: 0 <= n <= |rest| ==> Run(next, rest[..n]) == Run(w, actions[..n + 1]);
      } else {
        assert Run(w, actions[..1]) == Run(next, rest[..0]) == next;
      }
    }
  }

  /** So for a sink opened with a bound: created empty, or over contents within it. */
  lemma OpenedSinkKeepsTheBoundIff(max: U64, contents: FileBytes, actions: seq<Action>)
    requires |contents| <= max
    ensures var w := Open(OpenAppend(Some(max), contents));
      (forall n :: 0 <= n <= |actions| ==> Within(max, Run(w, actions[..n]))) <==> NoSumWraps(w, actions)
    ensures var w := Open(Create(Some(max)));
      (forall n :: 0 <= n <= |actions| ==> Within(max, Run(w, actions[..n]))) <==> NoSumWraps(w, actions)
  {
    BoundIsKeptIff(max, Open(OpenAppend(Some(max), contents)), actions);
    BoundIsKeptIff(max, Open(Create(Some(max))), actions);
  }

  /** Between two buffers nothing of the current one is lost or repeated: what was
      accepted, followed by what remains, is always the same bytes. */
  lemma {:induction false} PollsConsumeTheBuffer(w: Writer, actions: seq<Action>)
    requires forall i :: 0 <= i < |actions| ==> actions[i].Poll? || actions[i].Background?
    ensures Run(w, actions).accepted + Run(w, actions).remaining == w.accepted + w.remaining
    decreases |actions|
  {
    if actions != [] {
      var next := Act(w, actions[0]);
      if actions[0].Poll? && actions[0].reply.Accept? {
        var size := Min(actions[0].reply.wish, |w.remaining|);
        assert w.remaining[..size] + w.remaining[size..] == w.remaining;
        assert (w.accepted + w.remaining[..size]) + w.remaining[size..] == w.accepted + w.remaining;
      }
      PollsConsumeTheBuffer(next, actions[1..]);
    }
  }

  /** Flushing is possible: one background write of everything empties the buffer, as
      long as the file can hold what was accepted. */
  lemma FlushEmptiesTheBuffer(maxLen: Option<U64>, contents: FileBytes, actions: seq<Action>)
    requires |contents| + |Run(Open(OpenAppend(maxLen, contents)), actions).accepted| <= OFF_MAX
    ensures var w := Run(Open(OpenAppend(maxLen, contents)), actions);
      Act(w, Background(|w.sink.buffered|)).sink.buffered == []
  {
    assert contents + [] == contents;
    RunConserves(contents, Open(OpenAppend(maxLen, contents)), actions);
    var w := Run(Open(OpenAppend(maxLen, contents)), actions);
    assert |w.sink.disk + w.sink.buffered| == |contents + w.accepted|;
  }

  /** How much of a buffer of `len` bytes a stretch of replies takes. */
  function Taken(len: nat, replies: seq<WriterReply>): (taken: nat)
    ensures taken <= len
  {
    if replies == [] then 0
    else
      var before := Taken(len, replies[..|replies| - 1]);
      match replies[|replies| - 1]
      case Accept(wish) => before + Min(wish, len - before)
      case NotReady => before
      case Broken => before
  }

  lemma TakenSnoc(len: nat, replies: seq<WriterReply>, n: nat)
    requires n < |replies|
    ensures var before := Taken(len, replies[..n]);
      Taken(len, replies[..n + 1])
      == before + if replies[n].Accept? then Min(replies[n].wish, len - before) else 0
  {
    assert replies[..n + 1][..n] == replies[..n];
  }

  // ---------------------------------------------------------------- round trip

  /** Bytes appended through a sink opened with `open_append` and flushed come back
      over the socket: a copy of `slice_from(p, n)` that returns has delivered bytes
      p to p + n of the first contents followed by every accepted write, under every
      schedule and even while the file goes on growing. */
  lemma AppendToSocketRoundTrip(maxLen: Option<U64>, contents: FileBytes, actions: seq<Action>,
                                fd: int, position: U64, len: U64, target: seq<Byte>, schedule: seq<Event>)
    requires var w := Run(Open(OpenAppend(maxLen, contents)), actions);
      w.sink.buffered == [] && position + len <= w.sink.currentLen
    ensures var w := Run(Open(OpenAppend(maxLen, contents)), actions);
      var r := LinuxCopy(Descriptor(w.sink), target, SliceFrom(fd, position, len), schedule);
      && SliceFrom(fd, position, len).fd == fd && position + len <= |contents + w.accepted|
      && (r.outcome.Returned? ==>
            r.outcome.total == len && r.end.sent == target + (contents + w.accepted)[position..position + len])
      && (CopyTheorems.NoErrors(schedule) && |schedule| > len + CopyTheorems.TryAgains(schedule) ==>
            r.outcome.Returned?)
  {
    FlushedIsOnDisk(maxLen, contents, actions);
    var w := Run(Open(OpenAppend(maxLen, contents)), actions);
    CopyTheorems.CopyDuringAppends(Descriptor(w.sink), target, SliceFrom(fd, position, len), schedule);
    if CopyTheorems.NoErrors(schedule) && |schedule| > len + CopyTheorems.TryAgains(schedule) {
      CopyTheorems.CopyReturns(Descriptor(w.sink), target, SliceFrom(fd, position, len), schedule);
    }
  }

  /** On macOS the same range comes back as long as it is not empty. */
  lemma MacAppendToSocketRoundTrip(maxLen: Option<U64>, contents: FileBytes, actions: seq<Action>,
                                   fd: int, position: U64, len: U64, target: seq<Byte>, schedule: seq<Event>)
    requires 0 < len
    requires var w := Run(Open(OpenAppend(maxLen, contents)), actions);
      w.sink.buffered == [] && position + len <= w.sink.currentLen
    ensures var w := Run(Open(OpenAppend(maxLen, contents)), actions);
      var r := MacCopy(Descriptor(w.sink), target, SliceFrom(fd, position, len), schedule);
      && SliceFrom(fd, position, len).fd == fd && position + len <= |contents + w.accepted|
      && (r.outcome.Returned? ==>
            r.outcome.total == len && r.end.sent == target + (contents + w.accepted)[position..position + len])
      && (CopyTheorems.NoErrors(schedule) && |schedule| > len + CopyTheorems.TryAgains(schedule) ==>
            r.outcome.Returned?)
  {
    FlushedIsOnDisk(maxLen, contents, actions);
    var w := Run(Open(OpenAppend(maxLen, contents)), actions);
    CopyTheorems.MacCopyDuringAppends(Descriptor(w.sink), target, SliceFrom(fd, position, len), schedule);
    if CopyTheorems.NoErrors(schedule) && |schedule| > len + CopyTheorems.TryAgains(schedule) {
      CopyTheorems.MacCopyReturns(Descriptor(w.sink), target, SliceFrom(fd, position, len), schedule);
    }
  }

  /** A flushed sink has everything on disk, and its counter is the file's length. */
  lemma FlushedIsOnDisk(maxLen: Option<U64>, contents: FileBytes, actions: seq<Action>)
    requires Run(Open(OpenAppend(maxLen, contents)), actions).sink.buffered == []
    ensures var w := Run(Open(OpenAppend(maxLen, contents)), actions);
      w.sink.disk == contents + w.accepted && w.sink.currentLen == |w.sink.disk| && w.sink.readable
  {
    var start := Open(OpenAppend(maxLen, contents));
    assert contents + [] == contents;
    RunConserves(contents, start, actions);
    assert Run(start, actions).sink.disk + [] == Run(start, actions).sink.disk;
  }

  /** A sink from `create` has no such round trip: its descriptor is write-only, so
      the first call fails and nothing is ever delivered. */
  lemma CreatedSinkCannotBeCopied(maxLen: Option<U64>, actions: seq<Action>, slice: AsyncFileSlice,
                                  target: seq<Byte>, schedule: seq<Event>)
    ensures var w := Run(Open(Create(maxLen)), actions);
      var r := LinuxCopy(Descriptor(w.sink), target, slice, schedule);
      && r.outcome == (if schedule == [] then Running else Failed(BadDescriptor))
      && r.end.sent == target
  {
    RunConserves([], Open(Create(maxLen)), actions);
    var w := Run(Open(Create(maxLen)), actions);
    CopyTheorems.CopyDuringAppends(Descriptor(w.sink), target, slice, schedule);
  }

  /** So, for a flushed range of any sink, some copy returns exactly when the sink
      was opened for reading. */
  lemma SinkCopyReturnsIff(s: Sink, fd: int, position: U64, len: U64, target: seq<Byte>)
    requires position + len <= |s.disk|
    ensures (exists schedule ::
               LinuxCopy(Descriptor(s), target, SliceFrom(fd, position, len), schedule).outcome.Returned?)
       <==> s.readable
  {
    var slice := SliceFrom(fd, position, len);
    if s.readable {
      var schedule := [Event([], Transfer(len))];
      assert s.disk + [] == s.disk;
      assert LinuxCopy(Descriptor(s), target, slice, schedule).outcome.Returned?;
    }
  }
}
