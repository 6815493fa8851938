/** The doomsday watchdog as an interleaved step machine.

    The timer loop and any number of clones share the deadline and the defused
    flag. A `reset` is two steps, sampling the clock and storing the new deadline
    under the lock, so the stores of overlapping calls can land in any order; the
    loop in turn samples the clock before it reads the deadline. Every sequence of
    events is a run: an event that is not enabled changes nothing. */
module Doomsday {
  /** Where the loop is: before its defused check, past it, holding the sampled
      time, asleep until `wakeAt` for the deadline it read, returned, or exploded. */
  datatype Loop = Top | Checked | Sampled(now: nat) | Sleeping(deadline: nat, wakeAt: nat) | Finished | Exploded

  /** `inflight` holds the clock sample of every reset that has not stored yet;
      `stores` the samples of the spawn and of every reset stored so far, in the
      order of the stores; `sleeps` counts the sleeps completed. */
  datatype Timer = Timer(duration: nat, aggressive: bool,
                         clock: nat, deadline: nat, defused: bool, exited: bool,
                         inflight: map<nat, nat>, loop: Loop, stores: seq<nat>, sleeps: nat)

  datatype Event =
    | Tick(dt: nat) | Sample(id: nat) | Store(id: nat) | Defuse | Explode
    | Check | Now | Read | Wake

  function Spawn(clock: nat, duration: nat, aggressive: bool): Timer {
    Timer(duration, aggressive, clock, clock + duration, false, false, map[], Top, [clock], 0)
  }

  function Step(t: Timer, e: Event): Timer {
    if t.exited then t
    else match e
      case Tick(dt) => t.(clock := t.clock + dt)
      case Sample(id) => if id in t.inflight then t else t.(inflight := t.inflight[id := t.clock])
      case Store(id) =>
        if id in t.inflight
        then t.(deadline := t.inflight[id] + t.duration, inflight := t.inflight - {id},
                stores := t.stores + [t.inflight[id]])
        else t
      case Defuse => t.(defused := true)
      case Explode => t.(exited := t.aggressive)
      case Check => if t.loop.Top? then t.(loop := if t.defused then Finished else Checked) else t
      case Now => if t.loop.Checked? then t.(loop := Sampled(t.clock)) else t
      case Read =>
        if !t.loop.Sampled? then t
        else if t.loop.now > t.deadline then t.(loop := Exploded, exited := t.aggressive)
        else t.(loop := Sleeping(t.deadline, t.clock + (t.deadline - t.loop.now)))
      case Wake =>
        if t.loop.Sleeping? && t.loop.wakeAt <= t.clock then t.(loop := Top, sleeps := t.sleeps + 1) else t
  }

  function Run(t: Timer, events: seq<Event>): Timer
    decreases |events|
  {
    if events == [] then t else Run(Step(t, events[0]), events[1..])
  }

  lemma {:induction false} RunConcat(t: Timer, first: seq<Event>, second: seq<Event>)
    ensures Run(t, first + second) == Run(Run(t, first), second)
    decreases |first|
  {
    if first == [] {
      assert first + second == second;
    } else {
      assert (first + second)[1..] == first[1..] + second;
      RunConcat(Step(t, first[0]), first[1..], second);
    }
  }

  // ---------------------------------------------------------------- safety

  /** Some stored reset, or the spawn, sampled the clock within the last `window`. */
  ghost predicate Fresh(t: Timer, window: nat) {
    exists i :: 0 <= i < |t.stores| && t.clock <= t.stores[i] + window
  }

  /** A reset that stores now sampled the clock at most `lag` ago. */
  ghost predicate Punctual(t: Timer, e: Event, lag: nat) {
    e.Store? && e.id in t.inflight ==> t.clock <= t.inflight[e.id] + lag
  }

  /** Every reset stores within `lag` of its sample, and at every instant some
      stored reset started within the last `window`. */
  ghost predicate Attended(t: Timer, events: seq<Event>, lag: nat, window: nat)
    decreases |events|
  {
    && Fresh(t, window)
    && (events != [] ==> Punctual(t, events[0], lag) && Attended(Step(t, events[0]), events[1..], lag, window))
  }

  /** However the stores are ordered, the deadline is at most `lag` short of what
      any stored reset asked for. */
  ghost predicate Guarded(t: Timer, lag: nat, window: nat) {
    && !t.loop.Exploded?
    && (forall i :: 0 <= i < |t.stores| ==> t.stores[i] <= t.clock && t.stores[i] + t.duration <= t.deadline + lag)
    && (forall id :: id in t.inflight ==> t.inflight[id] <= t.clock)
    && (t.loop.Sampled? ==> exists i :: 0 <= i < |t.stores| && t.loop.now <= t.stores[i] + window)
  }

  lemma StepStaysGuarded(t: Timer, e: Event, lag: nat, window: nat)
    requires Guarded(t, lag, window) && window + lag <= t.duration
    requires Fresh(t, window) && Punctual(t, e, lag)
    ensures Guarded(Step(t, e), lag, window)
  {
    var u := Step(t, e);
    assert forall i :: 0 <= i < |t.stores| ==> u.stores[i] == t.stores[i];
    if e.Read? && t.loop.Sampled? {
      var i :| 0 <= i < |t.stores| && t.loop.now <= t.stores[i] + window;
      assert t.loop.now <= t.deadline;
    }
  }

  lemma {:induction false} AttendedRunStaysGuarded(t: Timer, events: seq<Event>, lag: nat, window: nat)
    requires Guarded(t, lag, window) && window + lag <= t.duration && Attended(t, events, lag, window)
    ensures Guarded(Run(t, events), lag, window)
    decreases |events|
  {
    if events != [] {
      StepStaysGuarded(t, events[0], lag, window);
      AttendedRunStaysGuarded(Step(t, events[0]), events[1..], lag, window);
    }
  }

  /** No interleaving explodes a timer whose attention gap and store lag together
      fit in its duration. */
  lemma WatchdogIsSafe(clock: nat, duration: nat, aggressive: bool, events: seq<Event>, lag: nat, window: nat)
    requires window + lag <= duration
    requires Attended(Spawn(clock, duration, aggressive), events, lag, window)
    ensures !Run(Spawn(clock, duration, aggressive), events).loop.Exploded?
  {
    AttendedRunStaysGuarded(Spawn(clock, duration, aggressive), events, lag, window);
  }

  // ---------------------------------------------------------------- the bound is exact

  /** With a window of zero the clock cannot move at all. */
  ghost predicate Frozen(t: Timer, clock: nat) {
    && t.clock == clock && !t.loop.Exploded? && clock <= t.deadline
    && (forall i :: 0 <= i < |t.stores| ==> t.stores[i] <= clock)
    && (forall id :: id in t.inflight ==> t.inflight[id] == clock)
    && (t.loop.Sampled? ==> t.loop.now <= clock)
  }

  lemma StepStaysFrozen(t: Timer, clock: nat, e: Event)
    requires Frozen(t, clock) && Fresh(Step(t, e), 0)
    ensures Frozen(Step(t, e), clock)
  {
  }

  lemma {:induction false} ZeroWindowFreezes(t: Timer, clock: nat, events: seq<Event>, lag: nat)
    requires Frozen(t, clock) && Attended(t, events, lag, 0)
    ensures Frozen(Run(t, events), clock)
    decreases |events|
  {
    if events != [] {
      StepStaysFrozen(t, clock, events[0]);
      ZeroWindowFreezes(Step(t, events[0]), clock, events[1..], lag);
    }
  }

  /** `beats` times: a unit of time passes and a reset samples and stores at once. */
  function Heartbeats(beats: nat): seq<Event> {
    if beats == 0 then [] else [Tick(1), Sample(1), Store(1)] + Heartbeats(beats - 1)
  }

  /** A timer attended up to now, with reset 0 still to store what it sampled at time 0. */
  ghost predicate Hostage(t: Timer, clock: nat, duration: nat) {
    && t.clock == clock && t.duration == duration && !t.exited && !t.defused && t.loop.Top?
    && t.inflight == map[0 := 0] && 0 < |t.stores| && t.stores[|t.stores| - 1] == clock
  }

  lemma ThreeSteps(t: Timer, a: Event, b: Event, c: Event)
    ensures Run(t, [a, b, c]) == Step(Step(Step(t, a), b), c)
  {
    assert [a, b, c][1..] == [b, c] && [b, c][1..] == [c];
    assert Run(Step(Step(t, a), b), [c]) == Step(Step(Step(t, a), b), c);
  }

  lemma AttendedCons(t: Timer, e: Event, rest: seq<Event>, lag: nat, window: nat)
    requires Fresh(t, window) && Punctual(t, e, lag) && Attended(Step(t, e), rest, lag, window)
    ensures Attended(t, [e] + rest, lag, window)
  {
  }

  lemma OneBeatAttends(t: Timer, clock: nat, rest: seq<Event>, lag: nat, window: nat)
    requires Hostage(t, clock, t.duration) && 0 < window
    ensures var u := Run(t, [Tick(1), Sample(1), Store(1)]);
      && Hostage(u, clock + 1, t.duration)
      && (Attended(u, rest, lag, window) ==> Attended(t, [Tick(1), Sample(1), Store(1)] + rest, lag, window))
  {
  }

  lemma {:induction false} HeartbeatsAttend(t: Timer, clock: nat, beats: nat, rest: seq<Event>, lag: nat, window: nat)
    requires Hostage(t, clock, t.duration) && 0 < window
    ensures Hostage(Run(t, Heartbeats(beats)), clock + beats, t.duration)
    ensures Attended(Run(t, Heartbeats(beats)), rest, lag, window) ==> Attended(t, Heartbeats(beats) + rest, lag, window)
    decreases beats
  {
    if beats == 0 {
      assert Heartbeats(beats) + rest == rest;
    } else {
      var beat, tail := [Tick(1), Sample(1), Store(1)], Heartbeats(beats - 1);
      OneBeatAttends(t, clock, tail + rest, lag, window);
      RunConcat(t, beat, tail);
      HeartbeatsAttend(Run(t, beat), clock + 1, beats - 1, rest, lag, window);
      assert (beat + tail) + rest == beat + (tail + rest);
    }
  }

  /** One clone samples at time 0 and stores late, after a fresher reset, taking the
      deadline back; the loop then finds it passed. */
  function LateStore(duration: nat, window: nat): seq<Event> {
    var beats := if window <= duration then duration + 1 - window else 0;
    [Sample(0)] + (Heartbeats(beats) + [Store(0), Tick(duration + 1 - beats), Check, Now, Read])
  }

  lemma LateStoreExplodes(duration: nat, lag: nat, window: nat)
    requires 0 < window && duration < window + lag
    ensures Attended(Spawn(0, duration, false), LateStore(duration, window), lag, window)
    ensures Run(Spawn(0, duration, false), LateStore(duration, window)).loop.Exploded?
  {
    var beats := if window <= duration then duration + 1 - window else 0;
    var gap := duration + 1 - beats;
    var ending := [Store(0), Tick(gap), Check, Now, Read];
    var spawn := Spawn(0, duration, false);
    assert Fresh(spawn, window) by { assert spawn.clock <= spawn.stores[0] + window; }
    var t := Step(spawn, Sample(0));
    HeartbeatsAttend(t, 0, beats, ending, lag, window);
    RunConcat(t, Heartbeats(beats), ending);
    EndingExplodes(Run(t, Heartbeats(beats)), beats, gap, lag, window);
    AttendedCons(spawn, Sample(0), Heartbeats(beats) + ending, lag, window);
    assert ([Sample(0)] + (Heartbeats(beats) + ending))[1..] == Heartbeats(beats) + ending;
  }

  lemma EndingExplodes(t: Timer, beats: nat, gap: nat, lag: nat, window: nat)
    requires Hostage(t, beats, t.duration) && beats + gap == t.duration + 1 && beats <= lag && gap <= window
    ensures var ending := [Store(0), Tick(gap), Check, Now, Read];
      Attended(t, ending, lag, window) && Run(t, ending).loop.Exploded?
  {
    var last := |t.stores| - 1;
    var a := Step(t, Store(0));
    var b := Step(a, Tick(gap));
    var c := Step(b, Check);
    var d := Step(c, Now);
    var e := Step(d, Read);
    assert a.stores[last] == b.stores[last] == c.stores[last] == d.stores[last] == e.stores[last] == beats;
    assert Fresh(t, window) && Fresh(a, window) && Fresh(b, window) && Fresh(c, window) && Fresh(d, window)
        && Fresh(e, window);
    assert Attended(e, [], lag, window);
    AttendedCons(d, Read, [], lag, window);
    AttendedCons(c, Now, [Read], lag, window);
    AttendedCons(b, Check, [Now, Read], lag, window);
    AttendedCons(a, Tick(gap), [Check, Now, Read], lag, window);
    AttendedCons(t, Store(0), [Tick(gap), Check, Now, Read], lag, window);
    assert [Store(0)] + [Tick(gap), Check, Now, Read] == [Store(0), Tick(gap), Check, Now, Read];
    ThreeSteps(b, Check, Now, Read);
    assert [Store(0), Tick(gap), Check, Now, Read][1..] == [Tick(gap), Check, Now, Read];
    assert [Tick(gap), Check, Now, Read][1..] == [Check, Now, Read];
  }

  /** The hypothesis of `WatchdogIsSafe` is the weakest possible one: attention with
      this lag and window keeps every run from exploding exactly when the two fit in
      the duration, or the window is zero and time stands still. */
  lemma WatchdogIsSafeIff(duration: nat, lag: nat, window: nat)
    ensures (forall clock: nat, aggressive, events ::
               Attended(Spawn(clock, duration, aggressive), events, lag, window) ==>
               !Run(Spawn(clock, duration, aggressive), events).loop.Exploded?)
       <==> window == 0 || window + lag <= duration
  {
    if window == 0 || window + lag <= duration {
      forall clock: nat, aggressive, events | Attended(Spawn(clock, duration, aggressive), events, lag, window)
        ensures !Run(Spawn(clock, duration, aggressive), events).loop.Exploded?
      {
        if window == 0 {
          ZeroWindowFreezes(Spawn(clock, duration, aggressive), clock, events, lag);
        } else {
          WatchdogIsSafe(clock, duration, aggressive, events, lag, window);
        }
      }
    } else {
      LateStoreExplodes(duration, lag, window);
    }
  }

  // ---------------------------------------------------------------- progress

  /** A sleep ends now, at the very deadline it was computed from. */
  predicate ExactWake(t: Timer, e: Event) {
    !t.exited && e.Wake? && t.loop.Sleeping? && t.loop.wakeAt <= t.clock && t.clock == t.loop.deadline
  }

  function ExactWakes(t: Timer, events: seq<Event>): nat
    decreases |events|
  {
    if events == [] then 0
    else (if ExactWake(t, events[0]) then 1 else 0) + ExactWakes(Step(t, events[0]), events[1..])
  }

  /** Each completed sleep is paid for by the spawn, a store, or having ended exactly
      at its deadline; once all are spent the deadline has passed, and the loop has no
      way to sleep again. */
  ghost predicate SleepsPaid(t: Timer, exact: nat) {
    var paid := |t.stores| + exact;
    match t.loop
    case Top => t.sleeps < paid || (t.sleeps == paid && t.deadline < t.clock)
    case Checked => t.sleeps < paid || (t.sleeps == paid && t.deadline < t.clock)
    case Sampled(now) => now <= t.clock && (t.sleeps < paid || (t.sleeps == paid && t.deadline < now))
    case Sleeping(deadline, wakeAt) =>
      deadline <= wakeAt && t.sleeps < paid && (t.sleeps == paid - 1 ==> t.deadline == deadline)
    case Finished => t.sleeps <= paid
    case Exploded => t.sleeps <= paid
  }

  lemma StepStaysPaid(t: Timer, e: Event, exact: nat)
    requires SleepsPaid(t, exact)
    ensures SleepsPaid(Step(t, e), if ExactWake(t, e) then exact + 1 else exact)
  {
  }

  lemma {:induction false} RunStaysPaid(t: Timer, events: seq<Event>, exact: nat)
    requires SleepsPaid(t, exact)
    ensures SleepsPaid(Run(t, events), exact + ExactWakes(t, events))
    decreases |events|
  {
    if events != [] {
      StepStaysPaid(t, events[0], exact);
      RunStaysPaid(Step(t, events[0]), events[1..], if ExactWake(t, events[0]) then exact + 1 else exact);
    }
  }

  /** Every run completes at most one sleep for the spawn, one for each store and one
      for each that ended exactly at its deadline; a sleep never reaches back before
      its deadline; and a loop that comes back to its check with none left explodes in
      its next three steps. */
  lemma WatchdogProgress(clock: nat, duration: nat, aggressive: bool, events: seq<Event>)
    ensures var spawn := Spawn(clock, duration, aggressive);
      var t, paid := Run(spawn, events), |Run(spawn, events).stores| + ExactWakes(spawn, events);
      && t.sleeps <= paid
      && (t.loop.Sleeping? ==> t.sleeps < paid && t.loop.deadline <= t.loop.wakeAt)
      && (t.sleeps == paid && t.loop.Top? && !t.defused && !t.exited ==> Run(t, [Check, Now, Read]).loop.Exploded?)
  {
    RunStaysPaid(Spawn(clock, duration, aggressive), events, 0);
    ThreeSteps(Run(Spawn(clock, duration, aggressive), events), Check, Now, Read);
  }

  /** A sleep that ends now ends strictly after the deadline it was computed from. */
  ghost predicate PromptWake(t: Timer, e: Event) {
    !t.exited && e.Wake? && t.loop.Sleeping? && t.loop.wakeAt <= t.clock ==> t.loop.deadline < t.clock
  }

  ghost predicate PromptWakes(t: Timer, events: seq<Event>)
    decreases |events|
  {
    events != [] ==> PromptWake(t, events[0]) && PromptWakes(Step(t, events[0]), events[1..])
  }

  lemma {:induction false} PromptIsNeverExact(t: Timer, events: seq<Event>)
    requires PromptWakes(t, events)
    ensures ExactWakes(t, events) == 0
    decreases |events|
  {
    if events != [] { PromptIsNeverExact(Step(t, events[0]), events[1..]); }
  }

  /** So when every sleep ends strictly after its deadline, at most one more sleep
      completes than there were stores. */
  lemma PromptWatchdogProgress(clock: nat, duration: nat, aggressive: bool, events: seq<Event>)
    requires PromptWakes(Spawn(clock, duration, aggressive), events)
    ensures var t := Run(Spawn(clock, duration, aggressive), events);
      t.sleeps <= 1 + (|t.stores| - 1)
  {
    WatchdogProgress(clock, duration, aggressive, events);
    PromptIsNeverExact(Spawn(clock, duration, aggressive), events);
  }

  /** `rounds` trips round the loop in one instant. */
  function Spin(rounds: nat): seq<Event> {
    if rounds == 0 then [] else [Check, Now, Read] + ([Wake] + Spin(rounds - 1))
  }

  /** Exact wakes do cost: a loop that wakes at the deadline is neither past it nor
      able to sleep, and goes round without bound and without a store. */
  lemma {:induction false} WakingAtTheDeadlineSpins(t: Timer, rounds: nat)
    requires t.loop.Top? && t.clock == t.deadline && !t.defused && !t.exited
    ensures Run(t, Spin(rounds)) == t.(sleeps := t.sleeps + rounds)
    decreases rounds
  {
    if 0 < rounds {
      ThreeSteps(t, Check, Now, Read);
      var u := Step(Run(t, [Check, Now, Read]), Wake);
      assert ([Wake] + Spin(rounds - 1))[1..] == Spin(rounds - 1);
      RunConcat(t, [Check, Now, Read], [Wake] + Spin(rounds - 1));
      WakingAtTheDeadlineSpins(u, rounds - 1);
    }
  }

  // ---------------------------------------------------------------- defuse

  /** An iteration already past its check that can still find the deadline passed:
      it has not sampled the clock yet, or its sample is late for the deadline, or
      for one that a reset in flight can still store. */
  ghost predicate PastItsCheck(t: Timer) {
    && !t.exited
    && (|| t.loop.Checked?
        || (t.loop.Sampled? && t.deadline < t.loop.now)
        || (t.loop.Sampled? && exists id :: id in t.inflight && t.inflight[id] + t.duration < t.loop.now))
  }

  ghost predicate WellFormed(t: Timer) {
    t.loop.Sampled? ==> t.loop.now <= t.clock
  }

  lemma {:induction false} RunStaysWellFormed(t: Timer, events: seq<Event>)
    requires WellFormed(t)
    ensures WellFormed(Run(t, events))
    decreases |events|
  {
    if events != [] {
      RunStaysWellFormed(Step(t, events[0]), events[1..]);
    }
  }

  lemma {:induction false} DefusedNeverExplodes(t: Timer, events: seq<Event>)
    requires t.defused && WellFormed(t) && !PastItsCheck(t) && !t.loop.Exploded?
    ensures var u := Run(t, events);
      u.defused && WellFormed(u) && !PastItsCheck(u) && !u.loop.Exploded?
    decreases |events|
  {
    if events != [] {
      var u := Step(t, events[0]);
      assert u.defused && !PastItsCheck(u) && !u.loop.Exploded?;
      DefusedNeverExplodes(u, events[1..]);
    }
  }

  /** While the process lives the timer is defused exactly when some clone defused it. */
  lemma DefusedIff(clock: nat, duration: nat, aggressive: bool, events: seq<Event>)
    ensures var t := Run(Spawn(clock, duration, aggressive), events);
      !t.exited ==> (t.defused <==> Defuse in events)
  {
    DefusedFromIff(Spawn(clock, duration, aggressive), events);
  }

  lemma {:induction false} DefusedFromIff(t: Timer, events: seq<Event>)
    ensures !Run(t, events).exited ==> (Run(t, events).defused <==> t.defused || Defuse in events)
    decreases |events|
  {
    if events != [] {
      if t.exited {
        ExitedStays(t, events);
      } else {
        DefusedFromIff(Step(t, events[0]), events[1..]);
      }
    }
  }

  /** Defusing is permanent: from a defused state of any run the loop can still
      explode exactly when it has exploded already or is past its check. */
  lemma DefuseIsPermanentIff(clock: nat, duration: nat, aggressive: bool, before: seq<Event>)
    ensures var t := Run(Spawn(clock, duration, aggressive), before);
      t.defused ==>
        ((exists after :: Run(t, after).loop.Exploded?) <==> t.loop.Exploded? || PastItsCheck(t))
  {
    var t := Run(Spawn(clock, duration, aggressive), before);
    RunStaysWellFormed(Spawn(clock, duration, aggressive), before);
    if t.defused {
      if t.loop.Exploded? {
        ThreeSteps(t, Read, Read, Read);
        assert Run(t, [Read, Read, Read]).loop.Exploded?;
      } else if PastItsCheck(t) {
        PastCheckExplodes(t);
      } else {
        forall after
          ensures !Run(t, after).loop.Exploded?
        {
          DefusedNeverExplodes(t, after);
        }
      }
    }
  }

  lemma PastCheckExplodes(t: Timer)
    requires PastItsCheck(t)
    ensures exists after :: Run(t, after).loop.Exploded?
  {
    if t.loop.Checked? {
      ThreeSteps(t, Tick(t.deadline + 1), Now, Read);
      assert Run(t, [Tick(t.deadline + 1), Now, Read]).loop.Exploded?;
    } else if t.deadline < t.loop.now {
      assert Run(Step(t, Read), []) == Step(t, Read);
      assert Run(t, [Read]).loop.Exploded?;
    } else {
      var id :| id in t.inflight && t.inflight[id] + t.duration < t.loop.now;
      ThreeSteps(t, Store(id), Read, Read);
      assert Run(t, [Store(id), Read, Read]).loop.Exploded?;
    }
  }

  /** Whatever happens after a defuse that finds the loop before its check or asleep,
      the loop starts no other sleep, and the first check it comes to returns. */
  lemma CheckAfterDefuseReturns(t: Timer, before: seq<Event>, after: seq<Event>)
    requires t.defused && (t.loop.Top? || t.loop.Sleeping?)
    ensures var u := Run(t, before);
      && (u.loop == t.loop || u.loop.Top? || u.loop.Finished?)
      && Run(t, before + after) == Run(u, after)
      && (u.loop.Top? && Check in after && !Run(u, after).exited ==> Run(u, after).loop.Finished?)
  {
    DefusedSettles(t, before);
    RunConcat(t, before, after);
    var u := Run(t, before);
    if u.loop.Top? && !u.exited {
      CheckAtTopReturns(u, after);
    } else if u.exited {
      ExitedStays(u, after);
    }
  }

  lemma {:induction false} DefusedSettles(t: Timer, events: seq<Event>)
    requires t.defused && (t.loop.Top? || t.loop.Sleeping? || t.loop.Finished?)
    ensures var u := Run(t, events);
      u.defused && (u.loop == t.loop || u.loop.Top? || u.loop.Finished?)
    decreases |events|
  {
    if events != [] { DefusedSettles(Step(t, events[0]), events[1..]); }
  }

  lemma {:induction false} CheckAtTopReturns(t: Timer, events: seq<Event>)
    requires t.defused && !t.exited && t.loop.Top?
    ensures !Run(t, events).exited && Check in events ==> Run(t, events).loop.Finished?
    decreases |events|
  {
    if events != [] {
      var u := Step(t, events[0]);
      if u.exited {
        ExitedStays(u, events[1..]);
      } else if u.loop.Finished? {
        FinishedStays(u, events[1..]);
      } else {
        CheckAtTopReturns(u, events[1..]);
      }
    }
  }

  lemma {:induction false} FinishedStays(t: Timer, events: seq<Event>)
    requires t.loop.Finished?
    ensures Run(t, events).loop.Finished?
    decreases |events|
  {
    if events != [] { FinishedStays(Step(t, events[0]), events[1..]); }
  }

  lemma {:induction false} ExitedStays(t: Timer, events: seq<Event>)
    requires t.exited
    ensures Run(t, events) == t
    decreases |events|
  {
    if events != [] { ExitedStays(Step(t, events[0]), events[1..]); }
  }

  // ---------------------------------------------------------------- exit or panic

  /** The process ends exactly when the timer is aggressive and it exploded, by
      timeout or by hand; otherwise an explosion only panics whoever ran into it. */
  lemma ExitsIff(clock: nat, duration: nat, aggressive: bool, events: seq<Event>)
    ensures var t := Run(Spawn(clock, duration, aggressive), events);
      t.exited <==> aggressive && (t.loop.Exploded? || Explode in events)
  {
    ExitsFrom(Spawn(clock, duration, aggressive), events);
  }

  lemma {:induction false} ExitsFrom(t: Timer, events: seq<Event>)
    requires !t.exited && (t.aggressive ==> !t.loop.Exploded?)
    ensures var u := Run(t, events);
      u.exited <==> t.aggressive && (u.loop.Exploded? || Explode in events)
    decreases |events|
  {
    if events != [] {
      var u := Step(t, events[0]);
      if u.exited {
        ExitedStays(u, events[1..]);
      } else {
        ExitsFrom(u, events[1..]);
      }
    }
  }

  // ---------------------------------------------------------------- when it explodes

  /** The sample the deadline stands for: the last one stored, or the spawn's. */
  function LastStored(t: Timer): nat
    requires t.stores != []
  {
    t.stores[|t.stores| - 1]
  }

  lemma {:induction false} DeadlineIsLastStored(t: Timer, events: seq<Event>)
    requires t.stores != [] && t.deadline == LastStored(t) + t.duration
    ensures var u := Run(t, events);
      u.stores != [] && u.duration == t.duration && u.deadline == LastStored(u) + t.duration
    decreases |events|
  {
    if events != [] { DeadlineIsLastStored(Step(t, events[0]), events[1..]); }
  }

  /** The loop reads the deadline now, with a sample later than the last stored sample
      plus the duration. */
  ghost predicate ReadsLate(t: Timer, e: Event) {
    !t.exited && e.Read? && t.loop.Sampled? && t.stores != [] && LastStored(t) + t.duration < t.loop.now
  }

  /** A run explodes exactly when, at some point of it, the loop reads late; in
      particular one that is never reset does so once it samples after the duration. */
  lemma ExplodesIff(clock: nat, duration: nat, aggressive: bool, events: seq<Event>)
    ensures var spawn := Spawn(clock, duration, aggressive);
      Run(spawn, events).loop.Exploded?
      <==> exists i :: 0 <= i < |events| && ReadsLate(Run(spawn, events[..i]), events[i])
  {
    ExplodesFromIff(Spawn(clock, duration, aggressive), events);
    SometimeLateAtIndex(Spawn(clock, duration, aggressive), events);
  }

  /** Somewhere in the run the loop reads late. */
  ghost predicate SometimeLate(t: Timer, events: seq<Event>)
    decreases |events|
  {
    events != [] && (ReadsLate(t, events[0]) || SometimeLate(Step(t, events[0]), events[1..]))
  }

  lemma {:induction false} ExplodesFromIff(t: Timer, events: seq<Event>)
    requires t.stores != [] && t.deadline == LastStored(t) + t.duration && !t.loop.Exploded?
    ensures Run(t, events).loop.Exploded? <==> SometimeLate(t, events)
    decreases |events|
  {
    if events != [] {
      var u := Step(t, events[0]);
      assert u.loop.Exploded? <==> ReadsLate(t, events[0]);
      if u.loop.Exploded? {
        ExplodedStays(u, events[1..]);
      } else {
        ExplodesFromIff(u, events[1..]);
      }
    }
  }

  lemma {:induction false} SometimeLateAtIndex(t: Timer, events: seq<Event>)
    ensures SometimeLate(t, events) <==> exists i :: 0 <= i < |events| && ReadsLate(Run(t, events[..i]), events[i])
    decreases |events|
  {
    if events != [] {
      var u, rest := Step(t, events[0]), events[1..];
      SometimeLateAtIndex(u, rest);
      assert Run(t, events[..0]) == t;
      forall i | 0 <= i < |rest|
        ensures Run(t, events[..i + 1]) == Run(u, rest[..i]) && events[i + 1] == rest[i]
      {
        assert events[..i + 1][1..] == rest[..i];
      }
      if i :| 0 <= i < |rest| && ReadsLate(Run(u, rest[..i]), rest[i]) {
        assert ReadsLate(Run(t, events[..i + 1]), events[i + 1]);
      }
      if i :| 0 <= i < |events| && ReadsLate(Run(t, events[..i]), events[i]) && 0 < i {
        assert ReadsLate(Run(u, rest[..i - 1]), rest[i - 1]);
      }
    }
  }

  lemma {:induction false} ExplodedStays(t: Timer, events: seq<Event>)
    requires t.loop.Exploded?
    ensures Run(t, events).loop.Exploded?
    decreases |events|
  {
    if events != [] { ExplodedStays(Step(t, events[0]), events[1..]); }
  }

  /** A turn to the instant. `before` passes between the sample and the read and `after`
      between the read and the wake: the loop explodes when the deadline had passed at
      the sample, is back at its check when the sleep had that long to run from the read,
      and otherwise is still asleep, for exactly what is left. */
  lemma TurnToTheInstant(t: Timer, before: nat, after: nat)
    requires t.loop.Top? && !t.defused && !t.exited
    ensures var u := Run(t, [Check, Now, Tick(before)] + [Read, Tick(after), Wake]);
      if t.deadline < t.clock then u.loop.Exploded?
      else if t.deadline - t.clock <= after then u.loop.Top? && u.sleeps == t.sleeps + 1
      else u.loop == Sleeping(t.deadline, t.clock + before + (t.deadline - t.clock)) && u.sleeps == t.sleeps
  {
    RunConcat(t, [Check, Now, Tick(before)], [Read, Tick(after), Wake]);
    ThreeSteps(t, Check, Now, Tick(before));
    ThreeSteps(Run(t, [Check, Now, Tick(before)]), Read, Tick(after), Wake);
  }
}
