/** The kernel's `sendfile`, as the two copy loops of `ZeroCopy::copy_slice` see it.

    A schedule is the whole nondeterminism of the environment: before each call
    the file may grow, and the reply says whether the call transfers, would block
    or fails, and how much it would like to move. Every schedule is legal, since
    the wished amount is brought into the range the contract of the call allows;
    `EveryLegalTransferIsScheduled` shows that no allowed amount is lost that way. */
module Sendfile {
  import opened Machine

  /** An open descriptor of a regular file. */
  datatype Source = Source(bytes: FileBytes, readable: bool)

  /** Every error number but EAGAIN. */
  datatype Errno = BadDescriptor | InvalidArgument | Other(code: int)

  datatype Reply = Transfer(wish: nat) | TryAgain(wish: nat) | Fail(errno: Errno, wish: nat)
  datatype Event = Event(appended: seq<Byte>, reply: Reply)

  /** What one call reports; `count` bytes have reached the target. */
  datatype Answer = Ok(count: nat) | Again(count: nat) | Err(errno: Errno, count: nat)

  /** An append lands, unless it would make the file longer than `off_t` can say. */
  function Grow(source: Source, more: seq<Byte>): (r: Source)
    ensures source.bytes <= r.bytes && r.readable == source.readable
  {
    if |source.bytes| + |more| <= OFF_MAX then source.(bytes := source.bytes + more) else source
  }

  function GrowAll(source: Source, schedule: seq<Event>): (r: Source)
    ensures source.bytes <= r.bytes && r.readable == source.readable
    decreases |schedule|
  {
    if schedule == [] then source else GrowAll(Grow(source, schedule[0].appended), schedule[1..])
  }

  /** Everything a schedule appends, in order. */
  function Appended(schedule: seq<Event>): seq<Byte>
    decreases |schedule|
  {
    if schedule == [] then [] else schedule[0].appended + Appended(schedule[1..])
  }

  /** As long as it all fits, the file ends up with every append, in order. */
  lemma {:induction false} AppendsLand(source: Source, schedule: seq<Event>)
    requires |source.bytes| + |Appended(schedule)| <= OFF_MAX
    ensures GrowAll(source, schedule).bytes == source.bytes + Appended(schedule)
    decreases |schedule|
  {
    if schedule != [] {
      AppendsLand(Grow(source, schedule[0].appended), schedule[1..]);
      assert (source.bytes + schedule[0].appended) + Appended(schedule[1..]) == source.bytes + Appended(schedule);
    }
  }

  function Available(bytes: FileBytes, position: nat): nat {
    if position <= |bytes| then |bytes| - position else 0
  }

  /** Nothing to move means zero bytes; otherwise at least one and at most `room`. */
  function Clamp(wish: nat, room: nat): nat {
    if room == 0 then 0 else if wish == 0 then 1 else Min(wish, room)
  }

  /** Linux refuses a range that `off_t` cannot say before it looks at the file. */
  function LinuxSendfile(source: Source, offset: int, count: nat, reply: Reply): Answer {
    if !source.readable then Err(BadDescriptor, 0)
    else if offset < 0 || OFF_MAX < offset + count then Err(InvalidArgument, 0)
    else match reply
      case Transfer(wish) => Ok(Clamp(wish, Min(count, Available(source.bytes, offset))))
      case TryAgain(_) => Again(0)
      case Fail(errno, _) => Err(errno, 0)
  }

  /** On macOS a zero length asks for everything up to the end of the file, and a
      call that would block or fails may have moved some bytes first; one that
      would block has moved fewer than it was asked for. */
  function MacSendfile(source: Source, offset: int, length: int, reply: Reply): Answer {
    if !source.readable then Err(BadDescriptor, 0)
    else if offset < 0 || length < 0 then Err(InvalidArgument, 0)
    else
      var available := Available(source.bytes, offset);
      var room := if length == 0 then available else Min(length, available);
      match reply
      case Transfer(wish) => Ok(Clamp(wish, room))
      case TryAgain(wish) => Again(Min(wish, if length == 0 then room else Min(room, length - 1)))
      case Fail(errno, wish) => Err(errno, Min(wish, room))
  }

  /** The amounts a successful Linux call may report are exactly those a schedule can ask for. */
  lemma EveryLegalTransferIsScheduled(source: Source, offset: nat, count: nat, moved: nat)
    requires source.readable && offset + count <= OFF_MAX
    ensures (moved <= count && moved <= Available(source.bytes, offset)
             && (moved == 0 ==> count == 0 || Available(source.bytes, offset) == 0))
       <==> exists wish :: LinuxSendfile(source, offset, count, Transfer(wish)) == Ok(moved)
  {
    assert LinuxSendfile(source, offset, count, Transfer(moved))
        == Ok(Clamp(moved, Min(count, Available(source.bytes, offset))));
  }

  /** So it is on macOS: what a call with a length may have moved, transferring or
      before it would block, is exactly what a schedule can ask for. */
  lemma EveryLegalMacTransferIsScheduled(source: Source, offset: nat, length: int, moved: nat)
    requires source.readable && 0 < length
    ensures (moved <= length && moved <= Available(source.bytes, offset)
             && (moved == 0 ==> Available(source.bytes, offset) == 0))
       <==> exists wish :: MacSendfile(source, offset, length, Transfer(wish)) == Ok(moved)
    ensures (moved < length && moved <= Available(source.bytes, offset))
       <==> exists wish :: MacSendfile(source, offset, length, TryAgain(wish)) == Again(moved)
  {
    var room := Min(length, Available(source.bytes, offset));
    assert MacSendfile(source, offset, length, Transfer(moved)) == Ok(Clamp(moved, room));
    assert MacSendfile(source, offset, length, TryAgain(moved)) == Again(Min(moved, Min(room, length - 1)));
  }
}
