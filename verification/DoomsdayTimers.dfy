/** `DoomsdayTimer` as the object it is: the shared fields, the methods of its
    clones, and the loop with everything that may happen between its steps. */
module DoomsdayTimers {
  import opened Doomsday

  /** What the clones and the clock do before each of the four steps of a turn of the loop. */
  datatype Turn = Turn(beforeCheck: seq<Event>, beforeNow: seq<Event>, beforeRead: seq<Event>,
                       beforeWake: seq<Event>)

  lemma RunSnoc(t: Timer, events: seq<Event>, e: Event)
    ensures Run(t, events + [e]) == Step(Run(t, events), e)
  {
    RunConcat(t, events, [e]);
    assert Run(Run(t, events), [e]) == Run(Step(Run(t, events), e), []);
  }

  predicate LoopsOwn(e: Event) {
    e.Check? || e.Now? || e.Read? || e.Wake?
  }

  /** The events that are not the loop's own. */
  function Outside(events: seq<Event>): seq<Event> {
    if events == [] then []
    else
      var e := events[|events| - 1];
      Outside(events[..|events| - 1]) + if LoopsOwn(e) then [] else [e]
  }

  lemma OutsideSnoc(t: Timer, events: seq<Event>, i: nat)
    requires i < |events|
    ensures var e := events[i];
      && Outside(events[..i + 1]) == Outside(events[..i]) + (if LoopsOwn(e) then [] else [e])
      && Run(t, Outside(events[..i + 1]))
         == if LoopsOwn(e) then Run(t, Outside(events[..i])) else Step(Run(t, Outside(events[..i])), e)
  {
    assert events[..i + 1][..i] == events[..i];
    assert Outside(events[..i]) + [] == Outside(events[..i]);
    RunSnoc(t, Outside(events[..i]), events[i]);
  }

  // The events of one turn of the loop, up to each of its steps and up to its waking.
  function ToCheck(turn: Turn): seq<Event> {
    Outside(turn.beforeCheck) + [Check]
  }

  function ToNow(turn: Turn): seq<Event> {
    ToCheck(turn) + Outside(turn.beforeNow) + [Now]
  }

  function ToRead(turn: Turn): seq<Event> {
    ToNow(turn) + Outside(turn.beforeRead) + [Read]
  }

  function ToSleep(turn: Turn): seq<Event> {
    ToRead(turn) + Outside(turn.beforeWake)
  }

  /** How much of a sleep is still to come. */
  function Rest(t: Timer): nat {
    if t.loop.Sleeping? && t.clock < t.loop.wakeAt then t.loop.wakeAt - t.clock else 0
  }

  /** A whole turn: a sleep lasts at least its duration, so time passes if it must. */
  function Woven(t: Timer, turn: Turn): seq<Event> {
    ToSleep(turn) + [Tick(Rest(Run(t, ToSleep(turn)))), Wake]
  }

  /** Wherever a turn stops, what happened in it is a prefix of the whole turn. */
  lemma TurnPrefixes(begun: seq<Event>, t: Timer, turn: Turn)
    ensures var whole := begun + Woven(t, turn);
      && begun + Outside(turn.beforeCheck) <= whole
      && begun + ToCheck(turn) <= whole
      && begun + (ToCheck(turn) + Outside(turn.beforeNow)) <= whole
      && begun + (ToNow(turn) + Outside(turn.beforeRead)) <= whole
      && begun + ToRead(turn) <= whole
      && begun + ToSleep(turn) <= whole
  {
    var c, n, r, s, w := ToCheck(turn), ToNow(turn), ToRead(turn), ToSleep(turn), Woven(t, turn);
    Prefixes(begun, Outside(turn.beforeCheck), c);
    Prefixes(begun, c, c + Outside(turn.beforeNow));
    Prefixes(begun, c + Outside(turn.beforeNow), n);
    Prefixes(begun, n, n + Outside(turn.beforeRead));
    Prefixes(begun, n + Outside(turn.beforeRead), r);
    Prefixes(begun, r, s);
    Prefixes(begun, s, w);
  }

  lemma Prefixes(begun: seq<Event>, a: seq<Event>, b: seq<Event>)
    requires a <= b
    ensures begun + a <= begun + b
  {
  }

  function Weave(t: Timer, turns: seq<Turn>): seq<Event>
    decreases |turns|
  {
    if turns == [] then [] else Woven(t, turns[0]) + Weave(Run(t, Woven(t, turns[0])), turns[1..])
  }

  lemma WeaveUnfolds(begun: seq<Event>, t: Timer, turns: seq<Turn>, i: nat)
    requires i < |turns|
    ensures begun + Weave(t, turns[i..])
         == (begun + Woven(t, turns[i])) + Weave(Run(t, Woven(t, turns[i])), turns[i + 1..])
  {
    assert turns[i..][1..] == turns[i + 1..];
  }

  class DoomsdayTimer {
    const duration: nat
    const aggressive: bool
    var timeToExplode: nat
    var defused: bool

    // The world around it.
    var clock: nat
    var exited: bool
    var inflight: map<nat, nat>

    // The run of the step machine made so far, and the state it is in.
    ghost const spawned: nat
    ghost var history: seq<Event>
    ghost var loop: Loop
    ghost var stores: seq<nat>
    ghost var sleeps: nat

    ghost function State(): Timer
      reads this
    {
      Timer(duration, aggressive, clock, timeToExplode, defused, exited, inflight, loop, stores, sleeps)
    }

    ghost predicate Valid()
      reads this
    {
      State() == Run(Spawn(spawned, duration, aggressive), history)
    }

    /** The object took one step of the machine. */
    twostate predicate Stepped(e: Event)
      reads this
    {
      State() == Step(old(State()), e) && history == old(history) + [e]
    }

    constructor (clock: nat, duration: nat, aggressive: bool)
      ensures Valid() && history == [] && spawned == clock
      ensures State() == Spawn(clock, duration, aggressive)
    {
      this.duration, this.aggressive, this.clock, spawned := duration, aggressive, clock, clock;
      timeToExplode, defused, exited, inflight := clock + duration, false, false, map[];
      history, loop, stores, sleeps := [], Top, [clock], 0;
    }

    ghost method Record(e: Event, before: Timer)
      requires before == Run(Spawn(spawned, duration, aggressive), history) && State() == Step(before, e)
      modifies this`history
      ensures Valid() && history == old(history) + [e]
    {
      RunSnoc(Spawn(spawned, duration, aggressive), history, e);
      history := history + [e];
    }

    // -------------------------------------------------------------- clones and clock

    /** The first half of `reset`: sample the clock. */
    method BeginReset(id: nat)
      requires Valid() && !exited && id !in inflight
      modifies this
      ensures Valid() && Stepped(Sample(id))
    {
      ghost var before := State();
      inflight := inflight[id := clock];
      Record(Sample(id), before);
    }

    /** The second half of `reset`: store the deadline under the lock. */
    method FinishReset(id: nat)
      requires Valid() && !exited && id in inflight
      modifies this
      ensures Valid() && Stepped(Store(id))
    {
      ghost var before := State();
      timeToExplode := inflight[id] + duration;
      stores, inflight := stores + [inflight[id]], inflight - {id};
      Record(Store(id), before);
    }

    method SetDefused()
      requires Valid() && !exited
      modifies this
      ensures Valid() && Stepped(Defuse)
    {
      ghost var before := State();
      defused := true;
      Record(Defuse, before);
    }

    /** `explode` by a clone: the process exits, or that caller panics. */
    method ExplodeNow()
      requires Valid() && !exited
      modifies this
      ensures Valid() && Stepped(Explode)
    {
      ghost var before := State();
      exited := aggressive;
      Record(Explode, before);
    }

    method Elapse(dt: nat)
      requires Valid() && !exited
      modifies this
      ensures Valid() && Stepped(Tick(dt))
    {
      ghost var before := State();
      clock := clock + dt;
      Record(Tick(dt), before);
    }

    /** Everyone but the loop, for a while; the loop's own events are left to the loop. */
    method Others(events: seq<Event>)
      requires Valid()
      modifies this
      ensures Valid() && State() == Run(old(State()), Outside(events))
      ensures history == old(history) + Outside(events)
      ensures loop == old(loop) && sleeps == old(sleeps) && (old(defused) ==> defused)
    {
      for i := 0 to |events|
        invariant Valid() && State() == Run(old(State()), Outside(events[..i]))
        invariant history == old(history) + Outside(events[..i])
        invariant loop == old(loop) && sleeps == old(sleeps) && (old(defused) ==> defused)
      {
        OutsideSnoc(old(State()), events, i);
        if !LoopsOwn(events[i]) {
          One(events[i]);
        }
      }
      assert events[..|events|] == events;
    }

    /** One event of a clone or of the clock; one that is not enabled changes nothing. */
    method One(e: Event)
      requires Valid() && !LoopsOwn(e)
      modifies this
      ensures Valid() && Stepped(e)
      ensures loop == old(loop) && sleeps == old(sleeps) && (old(defused) ==> defused)
    {
      if exited || (e.Sample? && e.id in inflight) || (e.Store? && e.id !in inflight) {
        Record(e, State());
        return;
      }
      match e {
        case Tick(dt) => Elapse(dt);
        case Sample(id) => BeginReset(id);
        case Store(id) => FinishReset(id);
        case Defuse => SetDefused();
        case Explode => ExplodeNow();
      }
    }

    // -------------------------------------------------------------- the loop's steps

    method CheckDefused() returns (stop: bool)
      requires Valid() && !exited && loop.Top?
      modifies this`history, this`loop
      ensures Valid() && Stepped(Check) && stop == defused
    {
      ghost var before := State();
      stop := defused;
      loop := if stop then Finished else Checked;
      Record(Check, before);
    }

    method SampleClock() returns (now: nat)
      requires Valid() && !exited && loop.Checked?
      modifies this`history, this`loop
      ensures Valid() && Stepped(Now) && loop == Sampled(now)
    {
      ghost var before := State();
      now := clock;
      loop := Sampled(now);
      Record(Now, before);
    }

    /** Read the deadline; explode when the sample is past it, and otherwise start a sleep. */
    method ReadDeadline(now: nat) returns (exploded: bool, wakeAt: nat)
      requires Valid() && !exited && loop == Sampled(now)
      modifies this`history, this`loop, this`exited
      ensures Valid() && Stepped(Read)
      ensures exploded <==> timeToExplode < now
      ensures exploded ==> loop.Exploded?
      ensures !exploded ==> !exited && loop == Sleeping(timeToExplode, wakeAt)
    {
      ghost var before := State();
      exploded, wakeAt := now > timeToExplode, 0;
      if exploded {
        loop, exited := Exploded, aggressive;
      } else {
        wakeAt := clock + (timeToExplode - now);
        loop := Sleeping(timeToExplode, wakeAt);
      }
      Record(Read, before);
    }

    /** A sleep lasts at least its duration: time passes for what is left of it. */
    method WakeUp(wakeAt: nat)
      requires Valid() && !exited && loop.Sleeping? && loop.wakeAt == wakeAt
      modifies this
      ensures Valid() && !exited && loop.Top? && wakeAt <= clock
      ensures history == old(history) + [Tick(Rest(old(State()))), Wake]
      ensures sleeps == old(sleeps) + 1 && defused == old(defused)
    {
      Elapse(if clock < wakeAt then wakeAt - clock else 0);
      ghost var before := State();
      loop, sleeps := Top, sleeps + 1;
      Record(Wake, before);
    }

    /** `Others`, told what this turn has done so far. */
    method Meanwhile(events: seq<Event>, ghost begun: seq<Event>, ghost done: seq<Event>)
      requires Valid() && history == begun + done
      modifies this
      ensures Valid() && history == begun + (done + Outside(events))
      ensures loop == old(loop) && sleeps == old(sleeps) && (old(defused) ==> defused)
    {
      Others(events);
      assert (begun + done) + Outside(events) == begun + (done + Outside(events));
    }

    /** The first part of a turn: the check. */
    method ReachCheck(turn: Turn) returns (on: bool)
      requires Valid() && !exited && loop.Top?
      modifies this
      ensures Valid() && sleeps == old(sleeps)
      ensures on ==> !exited && loop.Checked? && history == old(history) + ToCheck(turn) && !old(defused)
      ensures !on ==>
        || (history == old(history) + Outside(turn.beforeCheck) && exited && loop.Top?)
        || (history == old(history) + ToCheck(turn) && loop.Finished? && defused)
    {
      ghost var begun := history;
      Others(turn.beforeCheck);
      if exited {
        return false;
      }
      assert (begun + Outside(turn.beforeCheck)) + [Check] == begun + ToCheck(turn);
      var stop := CheckDefused();
      on := !stop;
    }

    /** The second part: the sample. */
    method ReachSample(turn: Turn, ghost begun: seq<Event>) returns (on: bool, now: nat)
      requires Valid() && !exited && loop.Checked? && history == begun + ToCheck(turn)
      modifies this
      ensures Valid() && sleeps == old(sleeps)
      ensures on ==> !exited && loop == Sampled(now) && history == begun + ToNow(turn)
      ensures !on ==> exited && loop.Checked? && history == begun + (ToCheck(turn) + Outside(turn.beforeNow))
    {
      on, now := false, 0;
      Meanwhile(turn.beforeNow, begun, ToCheck(turn));
      if exited {
        return;
      }
      assert (begun + (ToCheck(turn) + Outside(turn.beforeNow))) + [Now] == begun + ToNow(turn);
      now := SampleClock();
      on := true;
    }

    /** The rest: the deadline, and then the sleep. */
    method ReadAndSleep(turn: Turn, now: nat, ghost begun: seq<Event>, ghost start: Timer) returns (again: bool)
      requires Valid() && !exited && loop == Sampled(now) && history == begun + ToNow(turn)
      requires start == Run(Spawn(spawned, duration, aggressive), begun)
      modifies this
      ensures Valid()
      ensures again ==> !exited && loop.Top? && history == begun + Woven(start, turn) && sleeps == old(sleeps) + 1
      ensures !again ==> (exited || loop.Exploded?) && !loop.Finished?
      ensures !again ==>
        || history == begun + (ToNow(turn) + Outside(turn.beforeRead))
        || history == begun + ToRead(turn)
        || history == begun + ToSleep(turn)
    {
      again := false;
      Meanwhile(turn.beforeRead, begun, ToNow(turn));
      if exited { return; }
      var exploded, wakeAt := ReadDeadline(now);
      assert (begun + (ToNow(turn) + Outside(turn.beforeRead))) + [Read] == begun + ToRead(turn);
      if exploded { return; }
      Meanwhile(turn.beforeWake, begun, ToRead(turn));
      if exited { return; }
      RunConcat(Spawn(spawned, duration, aggressive), begun, ToSleep(turn));
      ghost var rest := Rest(State());
      WakeUp(wakeAt);
      assert (begun + ToSleep(turn)) + [Tick(rest), Wake] == begun + (ToSleep(turn) + [Tick(rest), Wake]);
      again := true;
    }

    /** One turn of the loop, with what the others do before each of its steps: the
        events of the turn in order, all of them unless the turn was the last. */
    method TakeTurn(turn: Turn) returns (again: bool)
      requires Valid() && !exited && loop.Top?
      modifies this
      ensures Valid() && old(history) <= history <= old(history) + Woven(old(State()), turn)
      ensures again ==> !exited && loop.Top? && history == old(history) + Woven(old(State()), turn)
      ensures again ==> sleeps == old(sleeps) + 1 && !old(defused)
      ensures !again ==> exited || loop.Finished? || loop.Exploded?
      ensures loop.Finished? ==> defused
      ensures old(defused) ==> loop.Top? || loop.Finished?
    {
      ghost var begun, start := history, State();
      TurnPrefixes(begun, start, turn);
      again := false;
      var on := ReachCheck(turn);
      if !on { return; }
      var now;
      on, now := ReachSample(turn, begun);
      if !on { return; }
      again := ReadAndSleep(turn, now, begun, start);
    }

    /** The loop, woven with an arbitrary finite stretch of what the others do: the
        history gains the weave of the turns, or a prefix of it when the loop ended or
        the process exited on the way. A loop that starts defused returns at its first
        check; one that did not end has slept once in every turn. */
    method MainLoop(turns: seq<Turn>)
      requires Valid() && !exited && loop.Top?
      modifies this
      ensures Valid() && old(history) <= history <= old(history) + Weave(old(State()), turns)
      ensures old(defused) ==> loop.Top? || loop.Finished?
      ensures loop.Finished? ==> defused
      ensures !exited && !loop.Finished? && !loop.Exploded? ==>
        && loop.Top? && sleeps == old(sleeps) + |turns|
        && history == old(history) + Weave(old(State()), turns)
    {
      ghost var whole := history + Weave(State(), turns);
      for i := 0 to |turns|
        invariant Valid() && !exited && loop.Top?
        invariant old(history) <= history && history + Weave(State(), turns[i..]) == whole
        invariant old(defused) ==> defused && i == 0
        invariant sleeps == old(sleeps) + i
      {
        ghost var t, begun, woven := State(), history, Woven(State(), turns[i]);
        WeaveUnfolds(begun, t, turns, i);
        var again := TakeTurn(turns[i]);
        if !again { return; }
        RunConcat(Spawn(spawned, duration, aggressive), begun, woven);
      }
    }
  }
}
