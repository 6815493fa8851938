/** What a caller of `copy_slice` may rely on, for every file, slice and schedule. */
module CopyTheorems {
  import opened Machine
  import opened Sendfile
  import opened FileSlices
  import opened CopyLoops

  ghost predicate NoAppends(schedule: seq<Event>) {
    forall i :: 0 <= i < |schedule| ==> schedule[i].appended == []
  }

  ghost predicate NoErrors(schedule: seq<Event>) {
    forall i :: 0 <= i < |schedule| ==> !schedule[i].reply.Fail?
  }

  function TryAgains(schedule: seq<Event>): nat {
    if schedule == [] then 0
    else (if schedule[0].reply.TryAgain? then 1 else 0) + TryAgains(schedule[1..])
  }

  lemma {:induction false} NothingGrows(source: Source, schedule: seq<Event>)
    requires NoAppends(schedule)
    ensures GrowAll(source, schedule) == source
    decreases |schedule|
  {
    if schedule != [] {
      assert source.bytes + [] == source.bytes;
      NothingGrows(source, schedule[1..]);
    }
  }

  // ---------------------------------------------------------------- appends

  /** While the file only grows, the target receives the file as it stands at the
      end, from `position` on; a successful copy returns exactly what was available
      when its last call ran, so at least what was there at the start. */
  lemma CopyDuringAppends(source: Source, target: seq<Byte>, slice: AsyncFileSlice, schedule: seq<Event>)
    ensures var r := LinuxCopy(source, target, slice, schedule);
      var start, finish := Available(source.bytes, slice.position), Available(r.end.source.bytes, slice.position);
      && source.bytes <= r.end.source.bytes
      && r.end.calls <= |schedule|
      && r.end.source == GrowAll(source, schedule[..r.end.calls])
      && (|source.bytes| + |Appended(schedule[..r.end.calls])| <= OFF_MAX ==>
            r.end.source.bytes == source.bytes + Appended(schedule[..r.end.calls]))
      && r.end.total <= Min(slice.len, finish)
      && r.end.sent == target + Slice(r.end.source.bytes, slice.position, r.end.total)
      && (r.outcome.Returned? ==>
            r.outcome.total == r.end.total == Min(slice.len, finish) && Min(slice.len, start) <= r.end.total)
  {
    var p := Progress(source, target, 0, AsI64(slice.position), 0, 0);
    LinuxLoopMeetsSpec(slice.len, slice.position, target, p, schedule);
    var made := LinuxCopy(source, target, slice, schedule).end.calls;
    if |source.bytes| + |Appended(schedule[..made])| <= OFF_MAX {
      AppendsLand(source, schedule[..made]);
    }
  }

  // ---------------------------------------------------------------- schedules

  /** On a file nobody appends to, only the file and the slice decide a successful
      copy; a failed or unfinished one has delivered a prefix of the same bytes. */
  lemma ScheduleIndependence(source: Source, target: seq<Byte>, slice: AsyncFileSlice,
                             first: seq<Event>, second: seq<Event>)
    requires NoAppends(first) && NoAppends(second)
    ensures var r, s := LinuxCopy(source, target, slice, first), LinuxCopy(source, target, slice, second);
      var whole := Min(slice.len, Available(source.bytes, slice.position));
      && (r.outcome.Returned? ==>
            r.outcome == Returned(whole) && r.end.sent == target + Slice(source.bytes, slice.position, whole))
      && (r.outcome.Returned? && s.outcome.Returned? ==> r.outcome == s.outcome && r.end.sent == s.end.sent)
      && target <= r.end.sent <= target + Slice(source.bytes, slice.position, whole)
  {
    FixedFile(source, target, slice, first);
    FixedFile(source, target, slice, second);
  }

  lemma FixedFile(source: Source, target: seq<Byte>, slice: AsyncFileSlice, schedule: seq<Event>)
    requires NoAppends(schedule)
    ensures var r := LinuxCopy(source, target, slice, schedule);
      var whole := Min(slice.len, Available(source.bytes, slice.position));
      && r.end.sent == target + Slice(source.bytes, slice.position, r.end.total)
      && r.end.sent <= target + Slice(source.bytes, slice.position, whole)
      && (r.outcome.Returned? ==> r.outcome == Returned(whole) && r.end.total == whole)
  {
    CopyDuringAppends(source, target, slice, schedule);
    var r := LinuxCopy(source, target, slice, schedule);
    NothingGrows(source, schedule[..r.end.calls]);
    var whole := Min(slice.len, Available(source.bytes, slice.position));
    assert Slice(source.bytes, slice.position, r.end.total) <= Slice(source.bytes, slice.position, whole);
  }

  // ---------------------------------------------------------------- platforms

  /** Both loops deliver the same bytes and count for a slice that is not empty,
      whatever the two schedules are. */
  lemma PlatformAgreement(source: Source, target: seq<Byte>, slice: AsyncFileSlice,
                          linux: seq<Event>, mac: seq<Event>)
    requires slice.len > 0 && NoAppends(linux) && NoAppends(mac)
    ensures var r, s := LinuxCopy(source, target, slice, linux), MacCopy(source, target, slice, mac);
      && (r.outcome.Returned? && s.outcome.Returned? ==> r.outcome == s.outcome && r.end.sent == s.end.sent)
      && (s.outcome.Returned? ==> s.outcome == Returned(Min(slice.len, Available(source.bytes, slice.position))))
      && s.end.sent == target + Slice(source.bytes, slice.position, s.end.total)
  {
    FixedFile(source, target, slice, linux);
    var p := Progress(source, target, 0, slice.position, 0, 0);
    MacLoopMeetsSpec(slice.len, slice.position, target, p, mac);
    NothingGrows(source, mac[..MacCopy(source, target, slice, mac).end.calls]);
  }

  /** An empty slice is another matter, since macOS reads a zero length as "to the
      end": the loops agree on it exactly when there is nothing after its position. */
  lemma MacEmptySliceAgreesIff(source: Source, target: seq<Byte>, slice: AsyncFileSlice)
    requires slice.len == 0 && slice.position <= OFF_MAX && source.readable
    ensures (forall mac :: NoAppends(mac) ==>
               var s := MacCopy(source, target, slice, mac);
               s.outcome.Returned? ==> s.outcome == Returned(0) && s.end.sent == target)
       <==> Available(source.bytes, slice.position) == 0
  {
    var here := slice.position;
    if Available(source.bytes, here) == 0 {
      forall mac | NoAppends(mac)
        ensures var s := MacCopy(source, target, slice, mac);
          s.outcome.Returned? ==> s.outcome == Returned(0) && s.end.sent == target
      {
        MacEmptySliceAtEnd(source, Progress(source, target, 0, here, 0, 0), mac);
      }
    } else {
      var mac := [Event([], Transfer(1))];
      assert source.bytes + [] == source.bytes;
      assert WrapSub(0, 0) == 0;
      assert NoAppends(mac) && MacCopy(source, target, slice, mac).outcome == Returned(1);
    }
  }

  lemma {:induction false} MacEmptySliceAtEnd(source: Source, p: Progress, mac: seq<Event>)
    requires NoAppends(mac) && p.total == 0 && p.source == source
    requires 0 <= p.offset <= OFF_MAX && Available(source.bytes, p.offset) == 0
    ensures var s := MacLoop(0, p, mac);
      s.outcome.Returned? ==> s.outcome == Returned(0) && s.end.sent == p.sent
    decreases |mac|
  {
    if mac != [] {
      assert source.bytes + [] == source.bytes;
      assert WrapSub(0, 0) == 0;
      if mac[0].reply.TryAgain? {
        MacEmptySliceAtEnd(source, Advance(p, source, 0, true), mac[1..]);
      }
    }
  }

  // ---------------------------------------------------------------- termination

  /** The number of calls is bounded by the bytes moved, the EAGAIN replies and one
      more, which a copy that fills its slice does not need; the offset and the total stay in step and within the slice. */
  lemma CallsAreBounded(source: Source, target: seq<Byte>, slice: AsyncFileSlice, schedule: seq<Event>)
    ensures var r := LinuxCopy(source, target, slice, schedule);
      && r.end.calls <= r.end.total + r.end.agains + 1
      && r.end.total <= slice.len && r.end.offset == AsI64(slice.position) + r.end.total
      && r.end.agains <= TryAgains(schedule)
      && (r.outcome.Running? ==> |schedule| <= r.end.total + r.end.agains)
      && (0 < slice.len && r.outcome == Returned(slice.len) ==> r.end.calls <= r.end.total + r.end.agains)
  {
    var p := Progress(source, target, 0, AsI64(slice.position), 0, 0);
    LinuxLoopMeetsSpec(slice.len, slice.position, target, p, schedule);
    AgainsAreScheduled(slice.len, p, schedule);
  }

  lemma {:induction false} AgainsAreScheduled(size: U64, p: Progress, schedule: seq<Event>)
    requires p.total <= size
    ensures LinuxLoop(size, p, schedule).end.agains <= p.agains + TryAgains(schedule)
    decreases |schedule|
  {
    if schedule != [] {
      var first := LinuxStep(size, p, schedule[0]);
      if first.outcome.Running? {
        AgainsAreScheduled(size, first.end, schedule[1..]);
      }
    }
  }

  /** Without errors, on a readable file and a range that `off_t` can say, a schedule
      with enough calls that do not ask to try again makes the copy return. */
  lemma CopyReturns(source: Source, target: seq<Byte>, slice: AsyncFileSlice, schedule: seq<Event>)
    requires source.readable && slice.position + slice.len <= OFF_MAX && NoErrors(schedule)
    requires |schedule| > slice.len + TryAgains(schedule)
    ensures LinuxCopy(source, target, slice, schedule).outcome.Returned?
  {
    CallsAreBounded(source, target, slice, schedule);
    NoErrorsNeverFail(slice.len, slice.position, Progress(source, target, 0, slice.position, 0, 0), schedule);
  }

  lemma {:induction false} NoErrorsNeverFail(size: U64, position: nat, p: Progress, schedule: seq<Event>)
    requires p.source.readable && p.total <= size && NoErrors(schedule)
    requires p.offset == position + p.total && position + size <= OFF_MAX
    ensures !LinuxLoop(size, p, schedule).outcome.Failed?
    decreases |schedule|
  {
    if schedule != [] {
      var first := LinuxStep(size, p, schedule[0]);
      if first.outcome.Running? {
        NoErrorsNeverFail(size, position, first.end, schedule[1..]);
      }
    }
  }

  /** Some copy of a slice returns exactly when the file is open for reading and the
      slice ends where `off_t` can say; it need not lie inside the file. */
  lemma CopyCanReturnIff(source: Source, target: seq<Byte>, slice: AsyncFileSlice)
    ensures (exists schedule :: NoAppends(schedule) && LinuxCopy(source, target, slice, schedule).outcome.Returned?)
       <==> source.readable && slice.position + slice.len <= OFF_MAX
  {
    if source.readable && slice.position + slice.len <= OFF_MAX {
      var schedule := Steady(slice.len + 1);
      SteadyNeverAsksAgain(slice.len + 1);
      CopyReturns(source, target, slice, schedule);
      assert NoAppends(schedule) && LinuxCopy(source, target, slice, schedule).outcome.Returned?;
    }
  }

  /** Nothing but transfers. */
  function Steady(n: nat): seq<Event> {
    seq(n, _ => Event([], Transfer(1)))
  }

  lemma {:induction false} SteadyNeverAsksAgain(n: nat)
    ensures TryAgains(Steady(n)) == 0
  {
    if 0 < n {
      assert Steady(n)[1..] == Steady(n - 1);
      SteadyNeverAsksAgain(n - 1);
    }
  }

  // ---------------------------------------------------------------- failure

  /** Of the calls made since `calls` only the last can have been answered with an error; the copy
      failed exactly when it was, and with that error. */
  ghost predicate FailsAsTold(schedule: seq<Event>, calls: nat, r: Run) {
    var made, outcome := r.end.calls - calls, r.outcome;
    && (schedule != [] ==> 0 < made) && 0 <= made <= |schedule|
    && (forall i :: 0 <= i < made - 1 ==> !schedule[i].reply.Fail?)
    && (outcome.Failed? <==> 0 < made && schedule[made - 1].reply.Fail?)
    && (outcome.Failed? ==> outcome.errno == schedule[made - 1].reply.errno)
  }

  /** When a copy fails, and with which error: at its first call on a file not open
      for reading or a range `off_t` cannot say, and otherwise exactly when the kernel
      answers a call with an error, with that error. */
  lemma CopyFailsIff(source: Source, target: seq<Byte>, slice: AsyncFileSlice, schedule: seq<Event>)
    ensures var r := LinuxCopy(source, target, slice, schedule);
      if !source.readable || OFF_MAX < slice.position + slice.len
      then schedule != [] ==>
        && r.outcome == Failed(if source.readable then InvalidArgument else BadDescriptor)
        && r.end.calls == 1 && r.end.sent == target
      else FailsAsTold(schedule, 0, r)
  {
    var p := Progress(source, target, 0, AsI64(slice.position), 0, 0);
    if source.readable && slice.position + slice.len <= OFF_MAX {
      LinuxFailsAsTold(slice.len, slice.position, p, schedule);
    } else {
      CopyDuringAppends(source, target, slice, schedule);
    }
  }

  /** One turn fails exactly when its call was answered with an error, and with that error. */
  ghost predicate TurnFailsAsTold(event: Event, calls: nat, first: Run) {
    && first.end.calls == calls + 1
    && (first.outcome.Failed? <==> event.reply.Fail?)
    && (first.outcome.Failed? ==> first.outcome.errno == event.reply.errno)
  }

  /** A run fails as told when its first turn does, and what follows it. */
  lemma FailsLater(schedule: seq<Event>, calls: nat, first: Run, r: Run)
    requires schedule != [] && TurnFailsAsTold(schedule[0], calls, first)
    requires if first.outcome.Running?
      then FailsAsTold(schedule[1..], first.end.calls, r) else r == first
    ensures FailsAsTold(schedule, calls, r)
  {
    var rest, made := schedule[1..], r.end.calls - calls;
    forall i | 0 <= i < made - 1
      ensures !schedule[i].reply.Fail?
    {
      if 0 < i {
        assert schedule[i] == rest[i - 1];
      }
    }
  }

  lemma LinuxTurnFailsAsTold(size: U64, position: nat, p: Progress, event: Event)
    requires p.source.readable && p.total <= size
    requires p.offset == position + p.total && position + size <= OFF_MAX
    ensures var first := LinuxStep(size, p, event);
      && TurnFailsAsTold(event, p.calls, first)
      && first.end.source.readable && first.end.total <= size && first.end.offset == position + first.end.total
  {
  }

  lemma {:induction false} LinuxFailsAsTold(size: U64, position: nat, p: Progress, schedule: seq<Event>)
    requires p.source.readable && p.total <= size
    requires p.offset == position + p.total && position + size <= OFF_MAX
    ensures FailsAsTold(schedule, p.calls, LinuxLoop(size, p, schedule))
    decreases |schedule|
  {
    if schedule != [] {
      var first := LinuxStep(size, p, schedule[0]);
      LinuxTurnFailsAsTold(size, position, p, schedule[0]);
      if first.outcome.Running? {
        LinuxFailsAsTold(size, position, first.end, schedule[1..]);
      }
      FailsLater(schedule, p.calls, first, LinuxLoop(size, p, schedule));
    }
  }

  // ---------------------------------------------------------------- macOS, likewise

  /** When a macOS copy of a nonempty slice fails, and with which error. */
  lemma MacCopyFailsIff(source: Source, target: seq<Byte>, slice: AsyncFileSlice, schedule: seq<Event>)
    requires slice.len > 0
    ensures var r := MacCopy(source, target, slice, schedule);
      if !source.readable || OFF_MAX < slice.position || OFF_MAX < slice.len
      then schedule != [] ==>
        && r.outcome == Failed(if source.readable then InvalidArgument else BadDescriptor)
        && r.end.calls == 1 && r.end.sent == target
      else FailsAsTold(schedule, 0, r)
  {
    var p := Progress(source, target, 0, slice.position, 0, 0);
    if source.readable && slice.position <= OFF_MAX && slice.len <= OFF_MAX {
      MacFailsAsTold(slice.len, slice.position, target, p, schedule);
    } else {
      MacCopyDuringAppends(source, target, slice, schedule);
    }
  }

  lemma MacTurnFailsAsTold(size: U64, position: U64, target: seq<Byte>, p: Progress, event: Event)
    requires p.source.readable && p.total < size <= OFF_MAX && position <= OFF_MAX
    requires Faithful(position, position, target, p)
    ensures TurnFailsAsTold(event, p.calls, MacStep(size, p, event)) && MacStep(size, p, event).end.source.readable
  {
  }

  lemma {:induction false} MacFailsAsTold(size: U64, position: U64, target: seq<Byte>, p: Progress,
                                          schedule: seq<Event>)
    requires p.source.readable && p.total < size <= OFF_MAX && position <= OFF_MAX
    requires Faithful(position, position, target, p)
    ensures FailsAsTold(schedule, p.calls, MacLoop(size, p, schedule))
    decreases |schedule|
  {
    if schedule != [] {
      var first := MacStep(size, p, schedule[0]);
      MacTurn(size, position, target, p, schedule[0]);
      MacTurnFailsAsTold(size, position, target, p, schedule[0]);
      if first.outcome.Running? {
        MacFailsAsTold(size, position, target, first.end, schedule[1..]);
      }
      FailsLater(schedule, p.calls, first, MacLoop(size, p, schedule));
    }
  }

  /** The macOS counterpart of `CopyDuringAppends`, for a slice that is not empty. */
  lemma MacCopyDuringAppends(source: Source, target: seq<Byte>, slice: AsyncFileSlice, schedule: seq<Event>)
    requires slice.len > 0
    ensures var r := MacCopy(source, target, slice, schedule);
      var start, finish := Available(source.bytes, slice.position), Available(r.end.source.bytes, slice.position);
      && source.bytes <= r.end.source.bytes
      && r.end.calls <= |schedule|
      && r.end.source == GrowAll(source, schedule[..r.end.calls])
      && r.end.calls <= r.end.total + r.end.agains + 1
      && r.end.total <= Min(slice.len, finish)
      && r.end.sent == target + Slice(r.end.source.bytes, slice.position, r.end.total)
      && (r.outcome.Returned? ==>
            r.outcome.total == r.end.total == Min(slice.len, finish) && Min(slice.len, start) <= r.end.total)
  {
    var p := Progress(source, target, 0, slice.position, 0, 0);
    MacLoopMeetsSpec(slice.len, slice.position, target, p, schedule);
  }

  /** The macOS loop returns under the same conditions, given a slice that is not
      empty and whose length `off_t` can say. */
  lemma MacCopyReturns(source: Source, target: seq<Byte>, slice: AsyncFileSlice, schedule: seq<Event>)
    requires source.readable && slice.position <= OFF_MAX && 0 < slice.len <= OFF_MAX && NoErrors(schedule)
    requires |schedule| > slice.len + TryAgains(schedule)
    ensures MacCopy(source, target, slice, schedule).outcome.Returned?
  {
    var p := Progress(source, target, 0, slice.position, 0, 0);
    MacLoopMeetsSpec(slice.len, slice.position, target, p, schedule);
    MacRunsOn(slice.len, slice.position, target, p, schedule);
  }

  lemma {:induction false} MacRunsOn(size: U64, position: U64, target: seq<Byte>, p: Progress, schedule: seq<Event>)
    requires p.source.readable && p.total < size <= OFF_MAX && position <= OFF_MAX && NoErrors(schedule)
    requires Faithful(position, position, target, p)
    ensures var r := MacLoop(size, p, schedule);
      !r.outcome.Failed? && r.end.agains <= p.agains + TryAgains(schedule)
    decreases |schedule|
  {
    if schedule != [] {
      var first := MacStep(size, p, schedule[0]);
      MacTurn(size, position, target, p, schedule[0]);
      if first.outcome.Running? {
        MacRunsOn(size, position, target, first.end, schedule[1..]);
      }
    }
  }
}
