/** Whole runs of the bridge: a handshake polled until it is ready, then any polls on
    the stream it yields, under any engine and any transport. */
module TlsTheorems {
  import opened Machine
  import opened TlsBridge

  /** The future, and what came out of it: the stream, or the wrapper inside the
      error of a failed handshake. */
  datatype Bridge = Bridge(future: Future, stream: Option<Wrapper>, dead: Option<Wrapper>, panicked: bool)

  /** One call of a client; each brings its own context and meets its own engine. */
  datatype Request = PollHandshake(cx: Context, engine: Engine) | PollStream(cx: Context, engine: Engine)

  function Start(answers: seq<Answer>): Bridge {
    Bridge(Initial(NewWrapper(answers)), None, None, false)
  }

  /** A poll and its result; there is none when the call panics or there is no stream to poll. */
  function Serve(b: Bridge, r: Request): (Bridge, Option<Poll>) {
    if b.panicked then (b, None)
    else match r
      case PollHandshake(cx, engine) =>
        (match HandshakePoll(b.future, cx, engine)
         case None => (b.(panicked := true), None)
         case Some((future, Waiting)) => (b.(future := future), Some(Pending))
         case Some((future, Established(stream))) => (b.(future := future, stream := Some(stream)), Some(ReadyOk(0)))
         case Some((future, Broken(stream))) => (b.(future := future, dead := Some(stream)), Some(ReadyErr)))
      case PollStream(cx, engine) =>
        if b.stream.None? then (b, None)
        else match StreamPoll(b.stream.value, cx, engine)
          case None => (b.(panicked := true), None)
          case Some((stream, poll)) => (b.(stream := Some(stream)), Some(poll))
  }

  function RunBridge(b: Bridge, requests: seq<Request>): Bridge
    decreases |requests|
  {
    if requests == [] then b else RunBridge(Serve(b, requests[0]).0, requests[1..])
  }

  // ---------------------------------------------------------------- context discipline

  /** Between polls the context of the live wrapper is clear, and only the wrapper of
      a failed handshake still holds one. */
  ghost predicate Disciplined(b: Bridge) {
    && !b.panicked
    && (!b.future.Done? ==> b.future.stream.context == 0 && b.stream.None? && b.dead.None?)
    && (b.future.Done? ==> b.stream.Some? != b.dead.Some?)
    && (b.stream.Some? ==> b.stream.value.context == 0)
    && (b.dead.Some? ==> b.dead.value.context != 0)
  }

  /** The wrapper in use, or the one the failed handshake left behind. */
  function Current(b: Bridge): Wrapper
    requires b.future.Done? ==> b.stream.Some? || b.dead.Some?
  {
    if !b.future.Done? then b.future.stream else if b.stream.Some? then b.stream.value else b.dead.value
  }

  /** What one request does to a disciplined bridge: it panics exactly when it polls a
      finished handshake; otherwise discipline holds again, and every transport call
      it made was made with its own context. */
  lemma ServeIsDisciplined(b: Bridge, r: Request)
    requires Disciplined(b)
    ensures var (after, poll) := Serve(b, r);
      if r.PollHandshake? && b.future.Done? then after.panicked
      else
        && Disciplined(after)
        && (b.future.Done? ==> after.future.Done?)
        && CallsBetween(Current(b).(context := r.cx), Current(after).(context := r.cx))
        && (poll == Some(Pending) && Honest(r.engine) ==> SomeBlocked(Current(b), Current(after)))
  {
    if (r.PollHandshake? && !b.future.Done?) || (r.PollStream? && b.stream.Some?) {
      var ready := Current(b).(context := r.cx);
      InvokeKeepsContext(r.engine, ready, [], r.engine.patience);
      if Honest(r.engine) && Invoke(r.engine, ready, [], r.engine.patience).value.1 == Err(WouldBlock) {
        HonestVerdictIsBacked(r.engine, ready, [], r.engine.patience);
      }
    }
  }

  /** No assertion fails in any run, unless the handshake is polled again after it was
      ready, and then it does; and at every other point the bridge is disciplined. */
  lemma ContextDiscipline(answers: seq<Answer>, requests: seq<Request>)
    ensures var b := RunBridge(Start(answers), requests);
      && (b.panicked <==>
            exists i :: 0 <= i < |requests| && requests[i].PollHandshake?
              && RunBridge(Start(answers), requests[..i]).future.Done?)
      && (!b.panicked ==> Disciplined(b))
  {
    RunIsDisciplined(Start(answers), requests);
  }

  lemma {:induction false} PanicStays(b: Bridge, requests: seq<Request>)
    requires b.panicked
    ensures RunBridge(b, requests) == b
    decreases |requests|
  {
    if requests != [] { PanicStays(b, requests[1..]); }
  }

  lemma {:induction false} RunIsDisciplined(b: Bridge, requests: seq<Request>)
    requires Disciplined(b)
    ensures var end := RunBridge(b, requests);
      && (end.panicked <==>
            exists i :: 0 <= i < |requests| && requests[i].PollHandshake? && RunBridge(b, requests[..i]).future.Done?)
      && (!end.panicked ==> Disciplined(end))
    decreases |requests|
  {
    if requests != [] {
      var r, rest := requests[0], requests[1..];
      var next := Serve(b, r).0;
      ServeIsDisciplined(b, r);
      if r.PollHandshake? && b.future.Done? {
        PanicStays(next, rest);
        assert requests[..0] == [] && RunBridge(b, requests[..0]).future.Done?;
      } else {
        RunIsDisciplined(next, rest);
        forall i | 0 <= i < |rest|
          ensures RunBridge(next, rest[..i]) == RunBridge(b, requests[..i + 1])
        {
          assert requests[..i + 1][1..] == rest[..i];
        }
        if i :| 0 <= i < |rest| && rest[i].PollHandshake? && RunBridge(next, rest[..i]).future.Done? {
          assert requests[i + 1].PollHandshake? && RunBridge(b, requests[..i + 1]).future.Done?;
        }
        if i :| 0 <= i < |requests| && requests[i].PollHandshake? && RunBridge(b, requests[..i]).future.Done? {
          assert requests[..0] == [];
          assert rest[i - 1].PollHandshake? && RunBridge(next, rest[..i - 1]).future.Done?;
        }
      }
    }
  }

  // ---------------------------------------------------------------- wakeups

  /** The transport never claims to be ready with an error that means it is not. */
  ghost predicate Clean(answers: seq<Answer>) {
    Ready(Err(WouldBlock)) !in answers
  }

  lemma {:induction false} RunStaysClean(b: Bridge, requests: seq<Request>)
    requires Disciplined(b) && Clean(Current(b).answers)
    ensures var end := RunBridge(b, requests);
      !end.panicked ==> Disciplined(end) && Clean(Current(end).answers)
    decreases |requests|
  {
    if requests != [] {
      ServeIsDisciplined(b, requests[0]);
      var next := Serve(b, requests[0]).0;
      if next.panicked {
        PanicStays(next, requests[1..]);
      } else {
        RunStaysClean(next, requests[1..]);
      }
    }
  }

  /** No wakeup is lost: at every point of every run, a poll that answers Pending has
      polled the transport with its own context and was told it was not ready. */
  lemma NoLostWakeup(answers: seq<Answer>, before: seq<Request>, r: Request)
    requires Clean(answers) && Honest(r.engine)
    requires Serve(RunBridge(Start(answers), before), r).1 == Some(Pending)
    ensures var b := RunBridge(Start(answers), before);
      var after := Serve(b, r).0;
      && Disciplined(b) && Disciplined(after)
      && Current(b).log <= Current(after).log
      && (forall i :: |Current(b).log| <= i < |Current(after).log| ==> Current(after).log[i].cx == r.cx)
      && exists i :: |Current(b).log| <= i < |Current(after).log|
           && Current(after).log[i].cx == r.cx && Current(after).log[i].answer == NotReady
  {
    var b := RunBridge(Start(answers), before);
    RunStaysClean(Start(answers), before);
    ServeIsDisciplined(b, r);
    var after := Serve(b, r).0;
    var i :| |Current(b).log| <= i < |Current(after).log| && ToIo(Current(after).log[i].answer) == Err(WouldBlock);
    assert Current(after).log[i].answer == AnswerAt(Current(b).answers, i - |Current(b).log|);
  }

  /** The request answers Pending, and no poll of the transport in it was told to wait. */
  ghost predicate LosesWakeup(b: Bridge, r: Request)
    requires Disciplined(b)
  {
    var (after, poll) := Serve(b, r);
    && Honest(r.engine) && poll == Some(Pending)
    && Disciplined(after)
    && forall i :: |Current(b).log| <= i < |Current(after).log| ==> Current(after).log[i].answer != NotReady
  }

  ghost predicate FirstBlockIsFalse(answers: seq<Answer>, i: nat) {
    i < |answers| && answers[i] == Ready(Err(WouldBlock)) && NotReady !in answers[..i]
  }

  /** The hypothesis on the transport is needed, and this much of it. At any point of
      any run, some request with an honest engine, on the handshake or on the stream,
      gets a Pending that registered no waker exactly when the transport in use claims
      ready-but-blocked before it next says it is not ready. */
  lemma LosesWakeupIff(b: Bridge)
    requires Disciplined(b)
    ensures (exists r :: LosesWakeup(b, r))
       <==> b.dead.None? && exists i :: FirstBlockIsFalse(Current(b).answers, i)
  {
    if r :| LosesWakeup(b, r) {
      LostMeansFalseBlock(b, r);
    }
    if b.dead.None? {
      if i: nat :| FirstBlockIsFalse(Current(b).answers, i) {
        FalseBlockLoses(b, i);
      }
    }
  }

  lemma LostMeansFalseBlock(b: Bridge, r: Request)
    requires Disciplined(b) && LosesWakeup(b, r)
    ensures b.dead.None? && exists i :: FirstBlockIsFalse(Current(b).answers, i)
  {
    ServeIsDisciplined(b, r);
    BlockedWithoutWaiting(Current(b).(context := r.cx), Current(Serve(b, r).0).(context := r.cx));
  }

  /** A stretch of calls that blocked without a not-ready blocked on a false one first. */
  lemma BlockedWithoutWaiting(w: Wrapper, used: Wrapper)
    requires CallsBetween(w, used) && SomeBlocked(w, used)
    requires forall i :: |w.log| <= i < |used.log| ==> used.log[i].answer != NotReady
    ensures exists i :: FirstBlockIsFalse(w.answers, i)
  {
    var i :| |w.log| <= i < |used.log| && ToIo(used.log[i].answer) == Err(WouldBlock);
    var k := i - |w.log|;
    forall j | 0 <= j < k
      ensures w.answers[..k][j] != NotReady
    {
      assert used.log[|w.log| + j].answer == AnswerAt(w.answers, j);
    }
    assert FirstBlockIsFalse(w.answers, k);
  }

  lemma FalseBlockLoses(b: Bridge, i: nat)
    requires Disciplined(b) && b.dead.None? && FirstBlockIsFalse(Current(b).answers, i)
    ensures exists r :: LosesWakeup(b, r)
  {
    var e := Engine(ReadUntilBlocked, i + 2);
    var r := if b.future.Done? then PollStream(1, e) else PollHandshake(1, e);
    var ready := Current(b).(context := 1);
    ReadUntilBlockedLoses(e, ready, [], i + 2, i);
    var used := Invoke(e, ready, [], i + 2).value.0;
    BlockedServes(b, r, used);
    assert LosesWakeup(b, r);
  }

  /** A poll whose engine says it would block leaves the wrapper it used, cleared. */
  lemma BlockedServes(b: Bridge, r: Request, used: Wrapper)
    requires Disciplined(b) && b.dead.None? && (r.PollStream? <==> b.future.Done?)
    requires Invoke(r.engine, Current(b).(context := r.cx), [], r.engine.patience) == Some((used, Err(WouldBlock)))
    ensures Serve(b, r).1 == Some(Pending) && Disciplined(Serve(b, r).0)
    ensures Current(Serve(b, r).0) == used.(context := 0)
  {
    InvokeKeepsContext(r.engine, Current(b).(context := r.cx), [], r.engine.patience);
  }

  /** An honest engine: read until the transport blocks, then say so. */
  function ReadUntilBlocked(seen: seq<Io>): Move {
    if seen != [] && seen[|seen| - 1] == Err(WouldBlock) then Finish(Err(WouldBlock)) else Call(ReadOp)
  }

  lemma {:induction false} ReadUntilBlockedLoses(e: Engine, w: Wrapper, seen: seq<Io>, patience: nat, i: nat)
    requires e.next == ReadUntilBlocked && w.context != 0 && FirstBlockIsFalse(w.answers, i) && i + 2 <= patience
    requires seen == [] || seen[|seen| - 1] != Err(WouldBlock)
    ensures var r := Invoke(e, w, seen, patience);
      && r.Some? && r.value.1 == Err(WouldBlock) && w.log <= r.value.0.log
      && forall j :: |w.log| <= j < |r.value.0.log| ==> r.value.0.log[j].answer != NotReady
    decreases patience
  {
    var (next, io) := Transport(w, ReadOp).value;
    if i == 0 {
      assert Invoke(e, next, seen + [io], patience - 1) == Some((next, Err(WouldBlock)));
    } else {
      assert w.answers[..i][0] == w.answers[0] != NotReady;
      if io == Err(WouldBlock) {
        assert Invoke(e, next, seen + [io], patience - 1) == Some((next, Err(WouldBlock)));
      } else {
        assert next.answers[..i - 1] == w.answers[..i][1..];
        ReadUntilBlockedLoses(e, next, seen + [io], patience - 1, i - 1);
      }
    }
  }

  // ---------------------------------------------------------------- verdicts

  /** A poll of an unfinished handshake ends as the engine's verdict on the
      conversation says: established with the stream, failed with the wrapper inside
      the error, or waiting for the next poll; and the future is done but for the last. */
  lemma HandshakeFollowsTheVerdict(b: Bridge, cx: Context, e: Engine)
    requires Disciplined(b) && !b.future.Done?
    ensures var (after, poll) := Serve(b, PollHandshake(cx, e));
      exists used, verdict ::
        && Conversation(e, |Current(b).log|, used, e.patience, verdict)
        && CallsBetween(Current(b).(context := cx), used)
        && match verdict
           case Ok(_) =>
             poll == Some(ReadyOk(0)) && after == Bridge(Done, Some(used.(context := 0)), None, false)
           case Err(WouldBlock) =>
             poll == Some(Pending) && after == Bridge(MidHandshake(used.(context := 0)), None, None, false)
           case Err(OtherError) =>
             poll == Some(ReadyErr) && after == Bridge(Done, None, Some(used), false)
  {
    var ready := Current(b).(context := cx);
    InvokeKeepsContext(e, ready, [], e.patience);
    InvokeIsAConversation(e, ready, e.patience);
    var (used, verdict) := Invoke(e, ready, [], e.patience).value;
    assert Conversation(e, |Current(b).log|, used, e.patience, verdict);
  }

  /** A poll of the stream answers with the engine's verdict: the count of a success,
      Pending for would-block, and an error for any other error. */
  lemma StreamFollowsTheVerdict(b: Bridge, cx: Context, e: Engine)
    requires Disciplined(b) && b.stream.Some?
    ensures var (after, poll) := Serve(b, PollStream(cx, e));
      exists used, verdict ::
        && Conversation(e, |Current(b).log|, used, e.patience, verdict)
        && CallsBetween(Current(b).(context := cx), used)
        && after == b.(stream := Some(used.(context := 0)))
        && poll == match verdict
           case Ok(count) => Some(ReadyOk(count))
           case Err(WouldBlock) => Some(Pending)
           case Err(OtherError) => Some(ReadyErr)
  {
    var ready := Current(b).(context := cx);
    InvokeKeepsContext(e, ready, [], e.patience);
    InvokeIsAConversation(e, ready, e.patience);
    var (used, verdict) := Invoke(e, ready, [], e.patience).value;
    assert Conversation(e, |Current(b).log|, used, e.patience, verdict);
  }

  /** The conversation is determined by the engine and the transport, so the verdict
      of either theorem is the only one there is. */
  lemma VerdictIsUnique(w: Wrapper, e: Engine, a: Wrapper, first: Io, b: Wrapper, second: Io)
    requires CallsBetween(w, a) && Conversation(e, |w.log|, a, e.patience, first)
    requires CallsBetween(w, b) && Conversation(e, |w.log|, b, e.patience, second)
    ensures a == b && first == second
  {
    var from := |w.log|;
    var n := Min(|a.log| - from, |b.log| - from);
    SameSoFar(w, e, a, first, b, second, n);
    assert Heard(a.log, from, n) == Heard(b.log, from, n);
    assert |a.log| == |b.log|;
    assert forall i :: 0 <= i < |a.log| ==> a.log[i] == b.log[i];
  }

  lemma {:induction false} SameSoFar(w: Wrapper, e: Engine, a: Wrapper, first: Io, b: Wrapper, second: Io, n: nat)
    requires CallsBetween(w, a) && Conversation(e, |w.log|, a, e.patience, first)
    requires CallsBetween(w, b) && Conversation(e, |w.log|, b, e.patience, second)
    requires |w.log| + n <= |a.log| && |w.log| + n <= |b.log|
    ensures forall i :: 0 <= i < |w.log| + n ==> a.log[i] == b.log[i]
    decreases n
  {
    var from := |w.log|;
    if n == 0 {
      assert forall i :: 0 <= i < from ==> a.log[i] == w.log[i] == b.log[i];
    } else {
      SameSoFar(w, e, a, first, b, second, n - 1);
      assert Heard(a.log, from, n - 1) == Heard(b.log, from, n - 1);
      var last := from + n - 1;
      assert e.next(Heard(a.log, from, n - 1)) == Call(a.log[from + (n - 1)].op);
      assert e.next(Heard(b.log, from, n - 1)) == Call(b.log[from + (n - 1)].op);
      assert a.log[last] == b.log[last];
    }
  }
}
