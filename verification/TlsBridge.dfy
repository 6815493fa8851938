/** The bridge from polling to the blocking calls of a TLS engine.

    An asynchronous transport is wrapped so that a synchronous engine can call
    `read`, `write` and `flush` on it. For the length of one poll the wrapper holds
    the poll's context; the assertions that guard it are modelled as `None`. */
module TlsBridge {
  import opened Machine

  datatype IoError = WouldBlock | OtherError
  datatype Io = Ok(count: nat) | Err(error: IoError)
  datatype Op = ReadOp | WriteOp | FlushOp

  /** How the transport answers a poll. */
  datatype Answer = NotReady | Ready(result: Io)

  /** The address of a `Context`, which is never null. */
  type Context = c: nat | c != 0 witness 1

  /** One poll of the transport, with the context it was given. */
  datatype Polled = Polled(op: Op, cx: nat, answer: Answer)

  /** `context` is zero when clear. The transport is the answers it has still to
      give (and not ready when they run out), and the polls it has seen. */
  datatype Wrapper = Wrapper(context: nat, answers: seq<Answer>, log: seq<Polled>)

  function NewWrapper(answers: seq<Answer>): Wrapper {
    Wrapper(0, answers, [])
  }

  function SetContext(w: Wrapper, cx: Context): Option<Wrapper> {
    if w.context == 0 then Some(w.(context := cx)) else None
  }

  function UnsetContext(w: Wrapper): Option<Wrapper> {
    if w.context != 0 then Some(w.(context := 0)) else None
  }

  /** The blocking view of a poll: not ready becomes an error the engine knows. */
  function ToIo(answer: Answer): Io {
    if answer.Ready? then answer.result else Err(WouldBlock)
  }

  function AnswerAt(answers: seq<Answer>, i: nat): Answer {
    if i < |answers| then answers[i] else NotReady
  }

  /** `read`, `write` and `flush` of the wrapper. */
  function Transport(w: Wrapper, op: Op): Option<(Wrapper, Io)> {
    if w.context == 0 then None
    else
      var answer := AnswerAt(w.answers, 0);
      Some((Wrapper(w.context, if w.answers == [] then [] else w.answers[1..], w.log + [Polled(op, w.context, answer)]),
            ToIo(answer)))
  }

  // ---------------------------------------------------------------- the engine

  /** An arbitrary caller of the transport: what it does next depends on everything
      the transport has told it in this invocation. Out of patience it reports an error. */
  datatype Move = Call(op: Op) | Finish(verdict: Io)
  datatype Engine = Engine(next: seq<Io> -> Move, patience: nat)

  /** The engine reports that it would block only after the transport did. */
  ghost predicate Honest(e: Engine) {
    forall seen :: e.next(seen) == Finish(Err(WouldBlock)) ==> Err(WouldBlock) in seen
  }

  function Invoke(e: Engine, w: Wrapper, seen: seq<Io>, patience: nat): Option<(Wrapper, Io)>
    decreases patience
  {
    if patience == 0 then Some((w, Err(OtherError)))
    else match e.next(seen)
      case Finish(verdict) => Some((w, verdict))
      case Call(op) =>
        match Transport(w, op)
        case None => None
        case Some((after, io)) => Invoke(e, after, seen + [io], patience - 1)
  }

  // ---------------------------------------------------------------- the stream

  datatype Poll = Pending | ReadyOk(count: nat) | ReadyErr

  function ResultToPoll(r: Io): Poll {
    match r
    case Ok(count) => ReadyOk(count)
    case Err(WouldBlock) => Pending
    case Err(OtherError) => ReadyErr
  }

  /** `TlsStream::with_context`: set, run, clear, translate. */
  function StreamPoll(w: Wrapper, cx: Context, e: Engine): Option<(Wrapper, Poll)> {
    match SetContext(w, cx)
    case None => None
    case Some(ready) =>
      match Invoke(e, ready, [], e.patience)
      case None => None
      case Some((used, verdict)) =>
        match UnsetContext(used)
        case None => None
        case Some(after) => Some((after, ResultToPoll(verdict)))
  }

  // ---------------------------------------------------------------- the handshake

  datatype Future = Initial(stream: Wrapper) | MidHandshake(stream: Wrapper) | Done

  /** What one poll of the future hands back: the stream, the failed handshake (with
      the wrapper still inside the error), or nothing yet. */
  datatype Handshake = Waiting | Established(stream: Wrapper) | Broken(stream: Wrapper)

  function HandshakePoll(f: Future, cx: Context, e: Engine): Option<(Future, Handshake)> {
    if f.Done? then None
    else
      match SetContext(f.stream, cx)
      case None => None
      case Some(ready) =>
        match Invoke(e, ready, [], e.patience)
        case None => None
        case Some((used, verdict)) =>
          match verdict
          case Err(OtherError) => Some((Done, Broken(used)))
          case Ok(_) =>
            (match UnsetContext(used)
             case None => None
             case Some(after) => Some((Done, Established(after))))
          case Err(WouldBlock) =>
            match UnsetContext(used)
            case None => None
            case Some(after) => Some((MidHandshake(after), Waiting))
  }

  // ---------------------------------------------------------------- one invocation

  /** `after` is `before` some transport calls later, all made with the context held. */
  ghost predicate CallsBetween(before: Wrapper, after: Wrapper) {
    var made := |after.log| - |before.log|;
    && before.log <= after.log && after.context == before.context
    && after.answers == (if made <= |before.answers| then before.answers[made..] else [])
    && forall i :: |before.log| <= i < |after.log| ==>
         after.log[i].cx == before.context && after.log[i].answer == AnswerAt(before.answers, i - |before.log|)
  }

  /** One of the calls in between blocked, as the engine sees it. */
  ghost predicate SomeBlocked(before: Wrapper, after: Wrapper) {
    exists i :: |before.log| <= i < |after.log| && ToIo(after.log[i].answer) == Err(WouldBlock)
  }

  lemma TransportKeepsContext(w: Wrapper, op: Op)
    requires w.context != 0
    ensures Transport(w, op).Some? && CallsBetween(w, Transport(w, op).value.0)
  {
  }

  lemma CallsCompose(a: Wrapper, b: Wrapper, c: Wrapper)
    requires CallsBetween(a, b) && CallsBetween(b, c)
    ensures CallsBetween(a, c)
  {
  }

  /** With the context set the engine never trips an assertion, and what it did is
      one contiguous stretch of calls under that context. */
  lemma {:induction false} InvokeKeepsContext(e: Engine, w: Wrapper, seen: seq<Io>, patience: nat)
    requires w.context != 0
    ensures var r := Invoke(e, w, seen, patience);
      r.Some? && CallsBetween(w, r.value.0)
    decreases patience
  {
    if patience != 0 && e.next(seen).Call? {
      var op := e.next(seen).op;
      TransportKeepsContext(w, op);
      var (next, io) := Transport(w, op).value;
      InvokeKeepsContext(e, next, seen + [io], patience - 1);
      CallsCompose(w, next, Invoke(e, next, seen + [io], patience - 1).value.0);
    }
  }

  /** An honest engine's verdict that it would block is backed by a call that did. */
  lemma {:induction false} HonestVerdictIsBacked(e: Engine, w: Wrapper, seen: seq<Io>, patience: nat)
    requires w.context != 0 && Honest(e) && Invoke(e, w, seen, patience).Some?
    requires Invoke(e, w, seen, patience).value.1 == Err(WouldBlock) && Err(WouldBlock) !in seen
    ensures SomeBlocked(w, Invoke(e, w, seen, patience).value.0)
    decreases patience
  {
    var after := Invoke(e, w, seen, patience).value.0;
    var (next, io) := Transport(w, e.next(seen).op).value;
    InvokeKeepsContext(e, next, seen + [io], patience - 1);
    if io == Err(WouldBlock) {
      assert after.log[|w.log|] == next.log[|w.log|];
    } else {
      HonestVerdictIsBacked(e, next, seen + [io], patience - 1);
      BlockedLater(w, next, after);
    }
  }

  lemma BlockedLater(a: Wrapper, b: Wrapper, c: Wrapper)
    requires |a.log| <= |b.log| && SomeBlocked(b, c)
    ensures SomeBlocked(a, c)
  {
    var i :| |b.log| <= i < |c.log| && ToIo(c.log[i].answer) == Err(WouldBlock);
  }

  // ---------------------------------------------------------------- the conversation

  /** What the engine hears of `count` polls the transport saw from `from` on: the
      result of a ready one, and otherwise that it would block. */
  function Heard(log: seq<Polled>, from: nat, count: nat): seq<Io>
    requires from + count <= |log|
  {
    seq(count, i requires 0 <= i < count =>
      match log[from + i].answer
      case Ready(result) => result
      case NotReady => Err(WouldBlock))
  }

  /** The polls of the transport are the operations the engine asked for, each on the
      strength of exactly what it had heard before, and its verdict is what it makes of
      all it heard, or an error when its patience ran out. */
  ghost predicate Conversation(e: Engine, from: nat, after: Wrapper, patience: nat, verdict: Io) {
    var made := |after.log| - from;
    && 0 <= made <= patience
    && (forall i :: 0 <= i < made ==> e.next(Heard(after.log, from, i)) == Call(after.log[from + i].op))
    && if made < patience then e.next(Heard(after.log, from, made)) == Finish(verdict) else verdict == Err(OtherError)
  }

  lemma InvokeIsAConversation(e: Engine, w: Wrapper, patience: nat)
    requires w.context != 0
    ensures var r := Invoke(e, w, [], patience);
      r.Some? && Conversation(e, |w.log|, r.value.0, patience, r.value.1)
  {
    InvokeConverses(e, w, |w.log|, [], patience, patience);
  }

  lemma {:induction false} InvokeConverses(e: Engine, w: Wrapper, from: nat, seen: seq<Io>, patience: nat, whole: nat)
    requires w.context != 0 && from <= |w.log| && whole == |w.log| - from + patience
    requires seen == Heard(w.log, from, |w.log| - from)
    requires forall i :: 0 <= i < |w.log| - from ==> e.next(Heard(w.log, from, i)) == Call(w.log[from + i].op)
    ensures var r := Invoke(e, w, seen, patience);
      r.Some? && Conversation(e, from, r.value.0, whole, r.value.1)
    decreases patience
  {
    if patience != 0 && e.next(seen).Call? {
      var op := e.next(seen).op;
      TransportKeepsContext(w, op);
      var (next, io) := Transport(w, op).value;
      var made := |w.log| - from;
      assert forall i :: 0 <= i <= made ==> Heard(next.log, from, i) == Heard(w.log, from, i);
      assert Heard(next.log, from, made + 1) == seen + [io];
      InvokeConverses(e, next, from, seen + [io], patience - 1, whole);
    }
  }
}
