/** `ZeroCopy::copy_slice` as the imperative loops it is, over a host whose file,
    target and remaining schedule the calls change. */
module ZeroCopy {
  import opened Machine
  import opened Sendfile
  import opened FileSlices
  import opened CopyLoops

  class Host {
    var source: Source
    var target: seq<Byte>
    var pending: seq<Event>

    constructor (source: Source, target: seq<Byte>, schedule: seq<Event>)
      ensures this.source == source && this.target == target && pending == schedule
    {
      this.source, this.target, pending := source, target, schedule;
    }

    /** One call on Linux; the kernel itself moves the offset. */
    method CallLinux(offset: int, count: nat) returns (answer: Answer, next: int)
      requires pending != []
      modifies this
      ensures source == Grow(old(source), old(pending)[0].appended) && pending == old(pending)[1..]
      ensures answer == LinuxSendfile(source, offset, count, old(pending)[0].reply)
      ensures target == old(target) + Slice(source.bytes, offset, answer.count) && next == offset + answer.count
    {
      source := Grow(source, pending[0].appended);
      answer := LinuxSendfile(source, offset, count, pending[0].reply);
      target := target + Slice(source.bytes, offset, answer.count);
      pending, next := pending[1..], offset + answer.count;
    }

    /** One call on macOS, which reports the bytes moved beside its result. */
    method CallMac(offset: nat, length: int) returns (answer: Answer)
      requires pending != []
      modifies this
      ensures source == Grow(old(source), old(pending)[0].appended) && pending == old(pending)[1..]
      ensures answer == MacSendfile(source, AsI64(Low64(offset)), length, old(pending)[0].reply)
      ensures target == old(target) + Slice(source.bytes, offset, answer.count)
    {
      source := Grow(source, pending[0].appended);
      answer := MacSendfile(source, AsI64(Low64(offset)), length, pending[0].reply);
      target := target + Slice(source.bytes, offset, answer.count);
      pending := pending[1..];
    }

    /** The run the loop is specified by, and what it leaves on the host. */
    ghost predicate After(r: Run, result: Outcome, schedule: seq<Event>)
      reads this
    {
      && result == r.outcome && source == r.end.source && target == r.end.sent
      && r.end.calls <= |schedule| && pending == schedule[r.end.calls..]
    }

    /** `p` is the loop's state: its variables, the host, and the calls made so far. */
    ghost predicate Tracks(p: Progress, total: int, offset: int, schedule: seq<Event>)
      reads this
    {
      && p.source == source && p.sent == target && p.total == total && p.offset == offset
      && p.calls <= |schedule| && pending == schedule[p.calls..]
    }

    method CopySliceLinux(slice: AsyncFileSlice) returns (result: Outcome)
      modifies this
      ensures After(LinuxCopy(old(source), old(target), slice, old(pending)), result, old(pending))
    {
      ghost var schedule := pending;
      ghost var run := LinuxCopy(source, target, slice, schedule);
      var total: nat, offset := 0, AsI64(slice.position);
      ghost var p := Progress(source, target, 0, offset, 0, 0);
      while pending != []
        invariant Tracks(p, total, offset, schedule)
        invariant LinuxLoop(slice.len, p, pending) == run
        decreases |pending|
      {
        var toBeTransferred := WrapSub(slice.len, Low64(total));
        ghost var turn := LinuxStep(slice.len, p, pending[0]);
        var answer, next := CallLinux(offset, toBeTransferred);
        p, offset := turn.end, next;
        match answer {
          case Ok(count) =>
            total := total + count;
            if count == 0 || !(total < slice.len) {
              return Returned(total);
            }
          case Again(_) =>
          case Err(errno, _) =>
            return Failed(errno);
        }
      }
      return Running;
    }

    method CopySliceMac(slice: AsyncFileSlice) returns (result: Outcome)
      modifies this
      ensures var r := MacCopy(old(source), old(target), slice, old(pending));
        After(r, result, old(pending))
    {
      ghost var schedule := pending;
      ghost var run := MacCopy(source, target, slice, schedule);
      var total: nat, offset: nat := 0, slice.position;
      ghost var p := Progress(source, target, 0, offset, 0, 0);
      while pending != []
        invariant Tracks(p, total, offset, schedule)
        invariant MacLoop(slice.len, p, pending) == run
        decreases |pending|
      {
        var toBeTransferred := AsI64(WrapSub(slice.len, Low64(total)));
        ghost var turn := MacStep(slice.len, p, pending[0]);
        var answer := CallMac(offset, toBeTransferred);
        assert turn.end == Advance(p, source, answer.count, answer.Again?);
        p := turn.end;
        total, offset := total + answer.count, offset + answer.count;
        match answer {
          case Ok(count) =>
            if count == 0 || !(total < slice.len) {
              return Returned(total);
            }
          case Again(_) =>
          case Err(errno, _) =>
            return Failed(errno);
        }
      }
      return Running;
    }
  }
}
