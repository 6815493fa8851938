/** Which slices `as_slice` accepts, and what copying an accepted one delivers. */
module SliceTheorems {
  import opened Machine
  import opened Sendfile
  import opened FileSlices
  import opened CopyLoops
  import opened CopyTheorems

  /** An explicit length is accepted when it ends strictly before the end of the file,
      so never when it ends exactly there, or when the sum wraps around. */
  lemma AsSliceAcceptsIff(fd: int, len: U64, position: U64, wanted: U64)
    requires len <= OFF_MAX
    ensures AsSlice(fd, len, position, Some(wanted)).Accepted?
       <==> position < len && (position + wanted < len || TWO_64 <= position + wanted)
    ensures position < len ==> AsSlice(fd, len, position, Some(len - position)).UnexpectedEof?
  {
  }

  /** The length the caller asked for, or everything up to the end. */
  function Asked(bytes: seq<Byte>, position: nat, desired: Option<U64>): int {
    if desired.Some? then desired.value else |bytes| - position
  }

  /** An accepted slice is the one asked for. */
  lemma AcceptedSliceIsTheOneAsked(fd: int, bytes: FileBytes, position: U64, desired: Option<U64>)
    requires AsSlice(fd, |bytes|, position, desired).Accepted?
    ensures var slice := AsSlice(fd, |bytes|, position, desired).slice;
      slice.fd == fd && slice.position == position && slice.len == Asked(bytes, position, desired)
  {
  }

  /** The copy sent `len` bytes from `position`, all of them there, and said so. */
  ghost predicate InFull(bytes: seq<Byte>, target: seq<Byte>, position: nat, len: int, r: Run) {
    && 0 <= len && position + len <= |bytes|
    && r.outcome == Returned(len)
    && r.end.sent == target + bytes[position..position + len]
  }

  /** On an unchanged file every copy of an accepted slice that returns has sent all
      that was asked for: the desired length, or the whole suffix. Some copy returns
      exactly when the requested end does not wrap, which is also when the slice lies
      inside the file. */
  lemma AcceptedSliceCopiesInFull(source: Source, target: seq<Byte>, fd: int, position: U64, desired: Option<U64>)
    requires source.readable && AsSlice(fd, |source.bytes|, position, desired).Accepted?
    ensures var slice, len := AsSlice(fd, |source.bytes|, position, desired).slice, Asked(source.bytes, position, desired);
      && (position + len <= |source.bytes| <==> position + len < TWO_64)
      && (forall schedule ::
            NoAppends(schedule) && LinuxCopy(source, target, slice, schedule).outcome.Returned? ==>
            InFull(source.bytes, target, position, len, LinuxCopy(source, target, slice, schedule)))
      && ((exists schedule :: NoAppends(schedule) && LinuxCopy(source, target, slice, schedule).outcome.Returned?)
           <==> position + len < TWO_64)
  {
    var slice, len := AsSlice(fd, |source.bytes|, position, desired).slice, Asked(source.bytes, position, desired);
    AcceptedSliceIsTheOneAsked(fd, source.bytes, position, desired);
    CopyCanReturnIff(source, target, slice);
    forall schedule | NoAppends(schedule) && LinuxCopy(source, target, slice, schedule).outcome.Returned?
      ensures InFull(source.bytes, target, position, len, LinuxCopy(source, target, slice, schedule))
    {
      FixedFile(source, target, slice, schedule);
    }
  }

  /** On macOS the same holds of an accepted slice exactly when it is not empty: a
      desired length of zero is accepted anywhere inside the file, and its copy sends
      what follows. */
  lemma MacAcceptedSliceCopiesInFullIff(source: Source, target: seq<Byte>, fd: int, position: U64,
                                        desired: Option<U64>)
    requires source.readable && AsSlice(fd, |source.bytes|, position, desired).Accepted?
    ensures var slice, len := AsSlice(fd, |source.bytes|, position, desired).slice, Asked(source.bytes, position, desired);
      && ((forall schedule ::
             NoAppends(schedule) && MacCopy(source, target, slice, schedule).outcome.Returned? ==>
             InFull(source.bytes, target, position, len, MacCopy(source, target, slice, schedule)))
           <==> len != 0)
      && (len != 0 ==>
            ((exists schedule :: NoAppends(schedule) && MacCopy(source, target, slice, schedule).outcome.Returned?)
              <==> position + len < TWO_64))
  {
    var slice, len := AsSlice(fd, |source.bytes|, position, desired).slice, Asked(source.bytes, position, desired);
    AcceptedSliceIsTheOneAsked(fd, source.bytes, position, desired);
    if len == 0 {
      MacEmptySliceSendsMore(source, target, slice);
    } else {
      forall schedule | NoAppends(schedule)
        ensures var r := MacCopy(source, target, slice, schedule);
          r.outcome.Returned? ==> InFull(source.bytes, target, position, len, r) && position + len < TWO_64
      {
        MacFixedSlice(source, target, slice, schedule);
      }
      if position + len < TWO_64 {
        var schedule := Steady(slice.len + 1);
        SteadyNeverAsksAgain(slice.len + 1);
        MacCopyReturns(source, target, slice, schedule);
        assert NoAppends(schedule) && MacCopy(source, target, slice, schedule).outcome.Returned?;
      }
    }
  }

  lemma MacEmptySliceSendsMore(source: Source, target: seq<Byte>, slice: AsyncFileSlice)
    requires source.readable && slice.len == 0 && slice.position < |source.bytes|
    ensures exists schedule ::
      NoAppends(schedule) && MacCopy(source, target, slice, schedule).outcome.Returned?
      && !InFull(source.bytes, target, slice.position, slice.len, MacCopy(source, target, slice, schedule))
  {
    var schedule := [Event([], Transfer(1))];
    assert source.bytes + [] == source.bytes;
    assert NoAppends(schedule) && MacCopy(source, target, slice, schedule).outcome == Returned(1);
  }

  lemma MacFixedSlice(source: Source, target: seq<Byte>, slice: AsyncFileSlice, schedule: seq<Event>)
    requires NoAppends(schedule) && slice.len > 0 && slice.position < |source.bytes|
    requires slice.position + slice.len <= |source.bytes| || TWO_64 <= slice.position + slice.len
    ensures var r := MacCopy(source, target, slice, schedule);
      r.outcome.Returned? ==>
        InFull(source.bytes, target, slice.position, slice.len, r) && slice.position + slice.len < TWO_64
  {
    MacCopyDuringAppends(source, target, slice, schedule);
    NothingGrows(source, schedule[..MacCopy(source, target, slice, schedule).end.calls]);
    if TWO_64 <= slice.position + slice.len && schedule != [] {
      var p := Progress(source, target, 0, slice.position, 0, 0);
      assert MacStep(slice.len, p, schedule[0]).outcome.Failed?;
    }
  }
}
