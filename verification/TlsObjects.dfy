/** The bridge as the objects it is made of. An assertion of the source is a
    precondition here, so that the callers are seen never to break one. */
module TlsObjects {
  import opened Machine
  import opened TlsBridge

  class AsyncToSyncWrapper {
    var context: nat
    var answers: seq<Answer>
    var log: seq<Polled>

    ghost function State(): Wrapper
      reads this
    {
      Wrapper(context, answers, log)
    }

    constructor (answers: seq<Answer>)
      ensures State() == NewWrapper(answers)
    {
      context, this.answers, log := 0, answers, [];
    }

    method Set(cx: Context)
      requires context == 0
      modifies this`context
      ensures SetContext(old(State()), cx) == Some(State())
    {
      context := cx;
    }

    method Unset()
      requires context != 0
      modifies this`context
      ensures UnsetContext(old(State())) == Some(State())
    {
      context := 0;
    }

    /** `with_context`: poll the transport with the context held. */
    method PollInner(op: Op) returns (answer: Answer)
      requires context != 0
      modifies this`answers, this`log
      ensures Transport(old(State()), op) == Some((State(), ToIo(answer)))
    {
      if answers == [] {
        answer := NotReady;
      } else {
        answer, answers := answers[0], answers[1..];
      }
      log := log + [Polled(op, context, answer)];
    }

    method Read() returns (io: Io)
      requires context != 0
      modifies this`answers, this`log
      ensures Transport(old(State()), ReadOp) == Some((State(), io))
    {
      var answer := PollInner(ReadOp);
      match answer {
        case Ready(result) => io := result;
        case NotReady => io := Err(WouldBlock);
      }
    }

    method Write() returns (io: Io)
      requires context != 0
      modifies this`answers, this`log
      ensures Transport(old(State()), WriteOp) == Some((State(), io))
    {
      var answer := PollInner(WriteOp);
      match answer {
        case Ready(result) => io := result;
        case NotReady => io := Err(WouldBlock);
      }
    }

    method Flush() returns (io: Io)
      requires context != 0
      modifies this`answers, this`log
      ensures Transport(old(State()), FlushOp) == Some((State(), io))
    {
      var answer := PollInner(FlushOp);
      match answer {
        case Ready(result) => io := result;
        case NotReady => io := Err(WouldBlock);
      }
    }
  }

  /** One invocation of the engine on a wrapper whose context is set. */
  method RunEngine(e: Engine, w: AsyncToSyncWrapper) returns (verdict: Io)
    requires w.context != 0
    modifies w`answers, w`log
    ensures Invoke(e, old(w.State()), [], e.patience) == Some((w.State(), verdict))
  {
    var seen := [];
    for i := 0 to e.patience
      invariant Invoke(e, w.State(), seen, e.patience - i) == Invoke(e, old(w.State()), [], e.patience)
    {
      match e.next(seen) {
        case Finish(answer) => return answer;
        case Call(op) =>
          var io;
          match op {
            case ReadOp => io := w.Read();
            case WriteOp => io := w.Write();
            case FlushOp => io := w.Flush();
          }
          seen := seen + [io];
      }
    }
    return Err(OtherError);
  }

  class TlsStream {
    const inner: AsyncToSyncWrapper

    constructor (inner: AsyncToSyncWrapper)
      ensures this.inner == inner
    {
      this.inner := inner;
    }

    /** Every poll of the stream: the context is clear again when it returns. */
    method WithContext(cx: Context, e: Engine) returns (poll: Poll)
      requires inner.context == 0
      modifies inner
      ensures StreamPoll(old(inner.State()), cx, e) == Some((inner.State(), poll))
      ensures inner.context == 0
    {
      inner.Set(cx);
      var r := RunEngine(e, inner);
      inner.Unset();
      poll := ResultToPoll(r);
    }
  }

  datatype FutureState = Fresh(inner: AsyncToSyncWrapper) | Midway(inner: AsyncToSyncWrapper) | Ended
  datatype HandshakeResult = StillWaiting | Open(stream: TlsStream) | Failed(inner: AsyncToSyncWrapper)

  ghost function FutureOf(s: FutureState): Future
    reads if s.Ended? then {} else {s.inner}
  {
    match s
    case Fresh(inner) => Initial(inner.State())
    case Midway(inner) => MidHandshake(inner.State())
    case Ended => Done
  }

  ghost function ResultOf(r: HandshakeResult): Handshake
    reads match r case StillWaiting => {} case Open(stream) => {stream.inner} case Failed(inner) => {inner}
  {
    match r
    case StillWaiting => Waiting
    case Open(stream) => Established(stream.inner.State())
    case Failed(inner) => Broken(inner.State())
  }

  class HandshakeFuture {
    var state: FutureState

    constructor (inner: AsyncToSyncWrapper)
      ensures state == Fresh(inner)
    {
      state := Fresh(inner);
    }

    /** One poll: the state is taken out, and put back only when the handshake would
        block. The wrapper leaves with its context clear, except inside an error. */
    method Poll(cx: Context, e: Engine) returns (r: HandshakeResult)
      requires !state.Ended? && state.inner.context == 0
      modifies this, state.inner
      ensures HandshakePoll(old(FutureOf(state)), cx, e) == Some((FutureOf(state), ResultOf(r)))
      ensures r.StillWaiting? ==> state == Midway(old(state.inner)) && state.inner.context == 0
      ensures r.Open? ==> state.Ended? && r.stream.inner == old(state.inner) && r.stream.inner.context == 0
      ensures r.Failed? ==> state.Ended? && r.inner == old(state.inner) && r.inner.context == cx
    {
      var inner := state.inner;
      state := Ended;
      inner.Set(cx);
      InvokeKeepsContext(e, inner.State(), [], e.patience);
      var verdict := RunEngine(e, inner);
      match verdict {
        case Ok(_) =>
          inner.Unset();
          var stream := new TlsStream(inner);
          r := Open(stream);
        case Err(WouldBlock) =>
          inner.Unset();
          state := Midway(inner);
          r := StillWaiting;
        case Err(OtherError) =>
          r := Failed(inner);
      }
    }
  }
}
