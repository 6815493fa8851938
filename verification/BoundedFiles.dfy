/** `BoundedFileSink` as the object it is; each method's meaning is a function of
    module `BoundedSink`. */
module BoundedFiles {
  import opened Machine
  import opened BoundedSink

  class BoundedFileSink {
    var maxLen: Option<U64>
    var currentLen: U64
    var disk: FileBytes
    var buffered: seq<Byte>
    const readable: bool

    ghost function State(): Sink
      reads this
    {
      Sink(maxLen, currentLen, disk, buffered, readable)
    }

    constructor Create(maxLen: Option<U64>)
      ensures State() == BoundedSink.Create(maxLen)
    {
      this.maxLen, currentLen, disk, buffered, readable := maxLen, 0, [], [], false;
    }

    constructor OpenAppend(maxLen: Option<U64>, contents: FileBytes)
      ensures State() == BoundedSink.OpenAppend(maxLen, contents)
    {
      this.maxLen, currentLen, disk, buffered, readable := maxLen, |contents|, contents, [], true;
    }

    method PollWrite(buf: seq<Byte>, reply: WriterReply) returns (answer: WritePoll)
      modifies this
      ensures (State(), answer) == BoundedSink.PollWrite(old(State()), buf, reply)
    {
      match reply {
        case NotReady => answer := Pending;
        case Broken => answer := ReadyErr;
        case Accept(wish) =>
          var size := Min(wish, |buf|);
          buffered := buffered + buf[..size];
          currentLen := WrapAdd(currentLen, Low64(size));
          answer := ReadyOk(size);
      }
    }

    method Background(wish: nat)
      modifies this
      ensures State() == Drain(old(State()), wish)
    {
      var count := Min(wish, |buffered|);
      if |disk| + count <= OFF_MAX {
        disk, buffered := disk + buffered[..count], buffered[count..];
      }
    }

    /** A checked append of one whole buffer: refused unless the check passes, and
        otherwise polled until an error comes back or the replies run out. An error,
        and only an error, ends it early; what is accepted is the prefix that the
        replies up to there took. When the checked sum does not wrap, the buffer is
        begun exactly when it fits and nothing beyond the bound is accepted. */
    method Append(buf: seq<Byte>, replies: seq<WriterReply>)
      returns (begun: bool, failed: bool, polls: nat, accepted: nat)
      requires |buf| < TWO_64
      modifies this
      ensures begun <==> CanBeAppended(old(currentLen), maxLen, |buf|)
      ensures !begun ==> !failed && polls == 0
      ensures begun && !failed ==> polls == |replies| && forall i :: 0 <= i < polls ==> !replies[i].Broken?
      ensures failed ==>
        0 < polls <= |replies| && replies[polls - 1].Broken? && forall i :: 0 <= i < polls - 1 ==> !replies[i].Broken?
      ensures accepted == Taken(|buf|, replies[..polls])
      ensures currentLen == WrapAdd(old(currentLen), accepted)
      ensures disk == old(disk) && buffered == old(buffered) + buf[..accepted] && maxLen == old(maxLen)
      ensures old(currentLen) + |buf| < TWO_64 ==>
        && currentLen == old(currentLen) + accepted
        && (begun <==> (maxLen.Some? ==> old(currentLen) + |buf| <= maxLen.value))
        && (begun && maxLen.Some? ==> currentLen <= maxLen.value)
    {
      failed, polls, accepted := false, 0, 0;
      begun := CanBeAppended(currentLen, maxLen, |buf|);
      if !begun {
        return;
      }
      while polls < |replies|
        invariant 0 <= polls <= |replies| && accepted == Taken(|buf|, replies[..polls])
        invariant forall i :: 0 <= i < polls ==> !replies[i].Broken?
        invariant currentLen == WrapAdd(old(currentLen), accepted) && maxLen == old(maxLen)
        invariant disk == old(disk) && buffered == old(buffered) + buf[..accepted]
      {
        var rest := buf[accepted..];
        var answer := PollWrite(rest, replies[polls]);
        TakenSnoc(|buf|, replies, polls);
        polls := polls + 1;
        match answer {
          case Pending =>
          case ReadyErr =>
            failed := true;
            return;
          case ReadyOk(size) =>
            assert buf[..accepted] + rest[..size] == buf[..accepted + size];
            accepted := accepted + size;
        }
      }
    }
  }
}
