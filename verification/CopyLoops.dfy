/** The Linux and macOS loops of `ZeroCopy::copy_slice`, as functions of the file,
    the slice and the schedule, and what they deliver under every schedule. */
module CopyLoops {
  import opened Machine
  import opened Sendfile
  import opened FileSlices

  /** The loop's variables, with what the target has received and the calls made. */
  datatype Progress = Progress(source: Source, sent: seq<Byte>, total: nat, offset: int,
                               calls: nat, agains: nat)

  /** `Running`: the schedule ended before the loop did. */
  datatype Outcome = Returned(total: nat) | Failed(errno: Errno) | Running
  datatype Run = Run(outcome: Outcome, end: Progress)

  /** `count` bytes of the file from `position`; nothing when there are not that many. */
  function Slice(bytes: seq<Byte>, position: int, count: nat): seq<Byte> {
    if 0 < count && 0 <= position && position + count <= |bytes| then bytes[position..position + count] else []
  }

  /** One more call moved `count` bytes from the current offset. */
  function Advance(p: Progress, source: Source, count: nat, again: bool): Progress {
    Progress(source, p.sent + Slice(source.bytes, p.offset, count), p.total + count, p.offset + count,
             p.calls + 1, if again then p.agains + 1 else p.agains)
  }

  /** One turn of the Linux loop; `Running` when it goes round again. The remaining
      length is a wrapping subtraction, which `LinuxTurn` shows never wraps. */
  function LinuxStep(size: U64, p: Progress, event: Event): Run {
    var source := Grow(p.source, event.appended);
    match LinuxSendfile(source, p.offset, WrapSub(size, Low64(p.total)), event.reply)
    case Ok(count) =>
      var q := Advance(p, source, count, false);
      Run(if count == 0 || size <= q.total then Returned(q.total) else Running, q)
    case Again(count) => Run(Running, Advance(p, source, 0, true))
    case Err(errno, _) => Run(Failed(errno), Advance(p, source, 0, false))
  }

  function LinuxLoop(size: U64, p: Progress, schedule: seq<Event>): Run
    decreases |schedule|
  {
    if schedule == [] then Run(Running, p)
    else
      var r := LinuxStep(size, p, schedule[0]);
      if r.outcome.Running? then LinuxLoop(size, r.end, schedule[1..]) else r
  }

  function LinuxCopy(source: Source, target: seq<Byte>, slice: AsyncFileSlice, schedule: seq<Event>): Run {
    LinuxLoop(slice.len, Progress(source, target, 0, AsI64(slice.position), 0, 0), schedule)
  }

  /** One turn of the macOS loop, with the casts and the wrapping of its arithmetic. */
  function MacStep(size: U64, p: Progress, event: Event): (r: Run)
    requires 0 <= p.offset
    ensures 0 <= r.end.offset
  {
    var source := Grow(p.source, event.appended);
    var length := AsI64(WrapSub(size, Low64(p.total)));
    match MacSendfile(source, AsI64(Low64(p.offset)), length, event.reply)
    case Ok(count) =>
      var q := Advance(p, source, count, false);
      Run(if count == 0 || size <= q.total then Returned(q.total) else Running, q)
    case Again(count) => Run(Running, Advance(p, source, count, true))
    case Err(errno, count) => Run(Failed(errno), Advance(p, source, count, false))
  }

  function MacLoop(size: U64, p: Progress, schedule: seq<Event>): Run
    requires 0 <= p.offset
    decreases |schedule|
  {
    if schedule == [] then Run(Running, p)
    else
      var r := MacStep(size, p, schedule[0]);
      if r.outcome.Running? then MacLoop(size, r.end, schedule[1..]) else r
  }

  function MacCopy(source: Source, target: seq<Byte>, slice: AsyncFileSlice, schedule: seq<Event>): Run {
    MacLoop(slice.len, Progress(source, target, 0, slice.position, 0, 0), schedule)
  }

  // ---------------------------------------------------------------- invariant

  /** Everything the target received since the start is the file from `position` on. */
  ghost predicate Faithful(position: U64, base: int, target: seq<Byte>, p: Progress) {
    && p.offset == base + p.total
    && (0 < p.total ==> base == position && position + p.total <= |p.source.bytes|)
    && p.sent == target + Slice(p.source.bytes, position, p.total)
  }

  lemma AdvanceKeepsFaithful(position: U64, base: int, target: seq<Byte>, p: Progress,
                             source: Source, count: nat, again: bool)
    requires Faithful(position, base, target, p) && p.source.bytes <= source.bytes
    requires 0 < count ==> base == position && p.offset + count <= |source.bytes|
    ensures Faithful(position, base, target, Advance(p, source, count, again))
  {
    if count == 0 {
      SliceStays(p.source.bytes, source.bytes, position, p.total);
    } else {
      SliceGrows(target, p.source.bytes, source.bytes, position, p.total, count);
    }
  }

  lemma SliceStays(before: seq<Byte>, after: seq<Byte>, position: nat, total: nat)
    requires before <= after && (0 < total ==> position + total <= |before|)
    ensures Slice(after, position, total) == Slice(before, position, total)
  {
  }

  /** A delivered slice and the chunk that follows it make one longer slice. */
  lemma SliceGrows(target: seq<Byte>, before: seq<Byte>, after: seq<Byte>, position: nat, total: nat, count: nat)
    requires before <= after && (0 < total ==> position + total <= |before|)
    requires 0 < count && position + total + count <= |after|
    ensures target + Slice(after, position, total + count)
         == (target + Slice(before, position, total)) + Slice(after, position + total, count)
  {
    var middle, end := position + total, position + total + count;
    SliceStays(before, after, position, total);
    assert after[position..end] == after[position..middle] + after[middle..end];
  }

  // ---------------------------------------------------------------- one turn

  /** What a turn of either loop does to a faithful state. */
  ghost predicate TurnSpec(size: U64, position: U64, base: int, target: seq<Byte>, p: Progress,
                           event: Event, r: Run) {
    var available := Available(r.end.source.bytes, position);
    && Faithful(position, base, target, r.end)
    && r.end.source == Grow(p.source, event.appended)
    && r.end.calls == p.calls + 1
    && r.end.total <= size
    && (r.outcome.Returned? ==> r.outcome.total == r.end.total == Min(size, available))
    && (r.outcome.Running? ==> p.total + p.agains < r.end.total + r.end.agains)
    && (r.outcome.Running? && p.total < size ==> r.end.total < size)
    && p.total <= r.end.total && p.agains <= r.end.agains
  }

  /** What a Linux call answers while the total is within the slice. */
  lemma LinuxCall(size: U64, p: Progress, source: Source, reply: Reply)
    requires p.total <= size
    ensures var answer := LinuxSendfile(source, p.offset, WrapSub(size, Low64(p.total)), reply);
      && answer.count <= size - p.total && (0 < answer.count ==> answer.Ok?)
      && (0 < answer.count ==> 0 <= p.offset && p.offset + answer.count <= |source.bytes|)
      && (answer == Ok(0) ==> p.total == size || (0 <= p.offset && |source.bytes| <= p.offset))
  {
  }

  lemma LinuxTurn(size: U64, position: U64, target: seq<Byte>, p: Progress, event: Event)
    requires p.total <= size && Faithful(position, AsI64(position), target, p)
    ensures TurnSpec(size, position, AsI64(position), target, p, event, LinuxStep(size, p, event))
  {
    var source := Grow(p.source, event.appended);
    LinuxCall(size, p, source, event.reply);
    var answer := LinuxSendfile(source, p.offset, WrapSub(size, Low64(p.total)), event.reply);
    AdvanceKeepsFaithful(position, AsI64(position), target, p, source, answer.count, answer.Again?);
  }

  /** The casts of the macOS loop lose nothing while bytes of the slice remain. */
  lemma MacCall(size: U64, p: Progress, source: Source, reply: Reply)
    requires p.total < size && p.source.bytes <= source.bytes
    requires 0 <= p.offset < TWO_64
    ensures var answer := MacSendfile(source, AsI64(Low64(p.offset)), AsI64(WrapSub(size, Low64(p.total))), reply);
      && answer.count <= size - p.total
      && (0 < answer.count ==> p.offset + answer.count <= |source.bytes|)
      && (answer.Again? ==> answer.count < size - p.total)
      && (answer == Ok(0) ==> |source.bytes| <= p.offset)
  {
  }

  lemma MacTurn(size: U64, position: U64, target: seq<Byte>, p: Progress, event: Event)
    requires p.total < size && Faithful(position, position, target, p)
    ensures TurnSpec(size, position, position, target, p, event, MacStep(size, p, event))
    ensures MacStep(size, p, event).outcome.Running? ==> MacStep(size, p, event).end.total < size
  {
    var source := Grow(p.source, event.appended);
    MacCall(size, p, source, event.reply);
    var answer := MacSendfile(source, AsI64(Low64(p.offset)), AsI64(WrapSub(size, Low64(p.total))), event.reply);
    AdvanceKeepsFaithful(position, position, target, p, source, answer.count, answer.Again?);
  }

  // ---------------------------------------------------------------- whole runs

  /** What a finished or interrupted run promises, whichever loop made it: the offset
      and the total in step, the bytes delivered, the result, and the calls, each paid
      for by a byte, an EAGAIN reply, or being the last of a copy that fell short. */
  ghost predicate CopySpec(size: U64, position: U64, base: int, target: seq<Byte>, start: Progress,
                           schedule: seq<Event>, r: Run) {
    var available := Available(r.end.source.bytes, position);
    var spent := (r.end.total - start.total) + (r.end.agains - start.agains);
    && start.calls <= r.end.calls <= start.calls + |schedule|
    && r.end.source == GrowAll(start.source, schedule[..r.end.calls - start.calls])
    && Faithful(position, base, target, r.end)
    && r.end.total <= Min(size, available)
    && (r.outcome.Returned? ==> r.outcome.total == r.end.total == Min(size, available))
    && (r.outcome.Running? ==> r.end.calls == start.calls + |schedule|)
    && r.end.calls - start.calls <= spent + 1
    && (r.outcome.Running? || (r.outcome.Returned? && start.total < size == r.end.total) ==>
          r.end.calls - start.calls <= spent)
  }

  /** A run meets the specification when its first turn does and ends it, or when
      what follows the first turn does. */
  lemma FirstTurn(size: U64, position: U64, base: int, target: seq<Byte>, p: Progress,
                  schedule: seq<Event>, first: Run, r: Run)
    requires schedule != [] && TurnSpec(size, position, base, target, p, schedule[0], first)
    requires if first.outcome.Running?
      then CopySpec(size, position, base, target, first.end, schedule[1..], r) else r == first
    ensures CopySpec(size, position, base, target, p, schedule, r)
  {
    var n := r.end.calls - p.calls;
    assert schedule[..n][1..] == schedule[1..][..n - 1];
  }

  lemma {:induction false} LinuxLoopMeetsSpec(size: U64, position: U64, target: seq<Byte>, p: Progress,
                                              schedule: seq<Event>)
    requires p.total <= size && Faithful(position, AsI64(position), target, p)
    ensures CopySpec(size, position, AsI64(position), target, p, schedule, LinuxLoop(size, p, schedule))
    decreases |schedule|
  {
    if schedule != [] {
      var first := LinuxStep(size, p, schedule[0]);
      LinuxTurn(size, position, target, p, schedule[0]);
      if first.outcome.Running? {
        LinuxLoopMeetsSpec(size, position, target, first.end, schedule[1..]);
      }
      FirstTurn(size, position, AsI64(position), target, p, schedule, first, LinuxLoop(size, p, schedule));
    }
  }

  /** The macOS loop meets the same specification for every slice that is not empty. */
  lemma {:induction false} MacLoopMeetsSpec(size: U64, position: U64, target: seq<Byte>, p: Progress,
                                            schedule: seq<Event>)
    requires p.total < size && Faithful(position, position, target, p)
    ensures CopySpec(size, position, position, target, p, schedule, MacLoop(size, p, schedule))
    decreases |schedule|
  {
    if schedule != [] {
      var first := MacStep(size, p, schedule[0]);
      MacTurn(size, position, target, p, schedule[0]);
      if first.outcome.Running? {
        MacLoopMeetsSpec(size, position, target, first.end, schedule[1..]);
      }
      FirstTurn(size, position, position, target, p, schedule, first, MacLoop(size, p, schedule));
    }
  }
}
