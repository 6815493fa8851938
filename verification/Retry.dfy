/** The strategies as the mutable iterators they are, and the retry loop they feed. */
module Retry {
  import opened Machine
  import opened Backoff

  class FixedDelay {
    const delay: Duration

    constructor (delay: Duration)
      ensures this.delay == delay
    {
      this.delay := delay;
    }

    /** Never ends, never changes. */
    method Take(n: nat) returns (delays: seq<Duration>)
      ensures |delays| == n && forall i :: 0 <= i < n ==> delays[i] == delay
    {
      delays := [];
      for i := 0 to n
        invariant |delays| == i && forall j :: 0 <= j < i ==> delays[j] == delay
      {
        delays := delays + [delay];
      }
    }
  }

  class FibonacciBackoff {
    var current: Duration
    var next: Duration
    var maxDelay: Option<Duration>

    ghost function State(): Fibonacci
      reads this
    {
      Fibonacci(current, next, maxDelay)
    }

    constructor (initial: Duration, maxDelay: Option<Duration>)
      ensures State() == NewFibonacci(initial, maxDelay)
    {
      current, next, this.maxDelay := initial, initial, maxDelay;
    }

    method Next() returns (delay: Duration)
      modifies this
      ensures (State(), delay) == FibonacciNext(old(State()))
    {
      delay := current;
      if maxDelay.Some? && delay > maxDelay.value {
        return maxDelay.value;
      }
      if current + next <= DURATION_MAX {
        current, next := next, current + next;
      } else {
        current, next := next, DURATION_MAX;
      }
    }

    method Take(n: nat) returns (delays: seq<Duration>)
      modifies this
      ensures delays == FibonacciTake(old(State()), n)
    {
      delays := [];
      for i := 0 to n
        invariant |delays| == i && delays + FibonacciTake(State(), n - i) == FibonacciTake(old(State()), n)
      {
        ghost var rest := FibonacciTake(State(), n - i);
        var delay := Next();
        assert rest == [delay] + FibonacciTake(State(), n - i - 1);
        assert delays + rest == (delays + [delay]) + FibonacciTake(State(), n - i - 1);
        delays := delays + [delay];
      }
    }
  }

  class ExponentialBackoff {
    var baseMillis: U64
    var currentMillis: U64
    var maxDelay: Option<Duration>

    ghost function State(): Exponential
      reads this
    {
      Exponential(baseMillis, currentMillis, maxDelay)
    }

    constructor (millis: U64, maxDelay: Option<Duration>)
      ensures State() == NewExponential(millis, maxDelay)
    {
      baseMillis, currentMillis, this.maxDelay := millis, millis, maxDelay;
    }

    method Next() returns (delay: Duration)
      modifies this
      ensures (State(), delay) == ExponentialNext(old(State()))
    {
      delay := FromMillis(currentMillis);
      if maxDelay.Some? && delay > maxDelay.value {
        return maxDelay.value;
      }
      MulNonNegative(currentMillis, baseMillis);
      if currentMillis * baseMillis < TWO_64 {
        currentMillis := currentMillis * baseMillis;
      } else {
        currentMillis := TWO_64 - 1;
      }
    }

    method Take(n: nat) returns (delays: seq<Duration>)
      modifies this
      ensures delays == ExponentialTake(old(State()), n)
    {
      delays := [];
      for i := 0 to n
        invariant |delays| == i && delays + ExponentialTake(State(), n - i) == ExponentialTake(old(State()), n)
      {
        ghost var rest := ExponentialTake(State(), n - i);
        var delay := Next();
        assert rest == [delay] + ExponentialTake(State(), n - i - 1);
        assert delays + rest == (delays + [delay]) + ExponentialTake(State(), n - i - 1);
        delays := delays + [delay];
      }
    }
  }

  // ---------------------------------------------------------------- the loop

  datatype Attempt<O, E> = Success(output: O) | Failure(error: E)

  /** The outcomes that end the loop: a success, or an error that is not retryable. */
  predicate Stops<O, E>(outcome: Attempt<O, E>, condition: E -> bool) {
    outcome.Success? || !condition(outcome.error)
  }

  /** `k` is the least index up to `n` whose outcome is a success or an error that is
      not retryable, and `n` if there is none. */
  ghost predicate IsStopIndex<O, E>(outcomes: nat -> Attempt<O, E>, condition: E -> bool, n: nat, k: nat) {
    && k <= n
    && (forall j: nat :: j < k ==> outcomes(j).Failure? && condition(outcomes(j).error))
    && (k < n ==> outcomes(k).Success? || !condition(outcomes(k).error))
  }

  /** Time and outcome of the caller's future are oracles: attempt `j` takes
      `attemptTime(j)` and yields `outcomes(j)`; a sleep lasts its delay and
      `oversleep` more. */
  datatype World<!O, !E> = World(outcomes: nat -> Attempt<O, E>, attemptTime: nat -> nat, oversleep: nat -> nat)

  /** No attempt starts before the delays that precede it have passed. */
  ghost predicate OnTime(begin: nat, slept: seq<Duration>, starts: seq<nat>) {
    && 1 <= |starts| <= |slept| + 1 && starts[0] == begin
    && forall j :: 0 <= j < |starts| ==> begin + Sum(slept[..j]) <= starts[j]
  }

  /** Attempts and sleeps follow one another without a gap or an overlap: an attempt
      starts when the one before it and the sleep between them are over. */
  ghost predicate Paced<O, E>(world: World<O, E>, begin: nat, slept: seq<Duration>, starts: seq<nat>) {
    && |starts| == |slept| + 1 && starts[0] == begin
    && forall j :: 0 <= j < |slept| ==> starts[j + 1] == starts[j] + world.attemptTime(j) + slept[j] + world.oversleep(j)
  }

  lemma {:induction false} PacedIsOnTime<O, E>(world: World<O, E>, begin: nat, slept: seq<Duration>, starts: seq<nat>)
    requires Paced(world, begin, slept, starts)
    ensures OnTime(begin, slept, starts)
    decreases |slept|
  {
    assert slept[..|slept|] == slept;
    if slept != [] {
      var n := |slept| - 1;
      PacedIsOnTime(world, begin, slept[..n], starts[..n + 1]);
      assert slept[..n][..n] == slept[..n];
      assert starts[n + 1] == starts[n] + world.attemptTime(n) + slept[n] + world.oversleep(n);
      assert forall j :: 0 <= j <= n ==> slept[..n][..j] == slept[..j] && starts[..n + 1][j] == starts[j];
    }
  }

  // ---------------------------------------------------------------- any strategy

  /** Attempt `k` is the last: it stops the loop, or the strategy has no delay after it. */
  predicate Ends<O, E>(strategy: nat -> Option<Duration>, outcomes: nat -> Attempt<O, E>, condition: E -> bool, k: nat) {
    Stops(outcomes(k), condition) || strategy(k).None?
  }

  /** Where the loop stands after `fuel` attempts from attempt `i` on, under a strategy
      that may never end: the attempt it returned at, if it did. */
  function Watch<O, E>(strategy: nat -> Option<Duration>, outcomes: nat -> Attempt<O, E>, condition: E -> bool,
                       i: nat, fuel: nat): Option<nat>
    decreases fuel
  {
    if fuel == 0 then None
    else if Ends(strategy, outcomes, condition, i) then Some(i)
    else Watch(strategy, outcomes, condition, i + 1, fuel - 1)
  }

  lemma {:induction false} WatchFindsTheFirst<O, E>(
    strategy: nat -> Option<Duration>, outcomes: nat -> Attempt<O, E>, condition: E -> bool, i: nat, fuel: nat)
    ensures match Watch(strategy, outcomes, condition, i, fuel)
      case Some(k) =>
        && i <= k < i + fuel && Ends(strategy, outcomes, condition, k)
        && forall j: nat :: i <= j < k ==> !Ends(strategy, outcomes, condition, j)
      case None => forall j: nat :: i <= j < i + fuel ==> !Ends(strategy, outcomes, condition, j)
    decreases fuel
  {
    if fuel != 0 && !Ends(strategy, outcomes, condition, i) {
      WatchFindsTheFirst(strategy, outcomes, condition, i + 1, fuel - 1);
    }
  }

  /** `r` is the first of `fuel` attempts that succeeds, fails with an error that is not
      retryable, or has no delay after it, if there is one. */
  ghost predicate FirstEnd<O, E>(strategy: nat -> Option<Duration>, outcomes: nat -> Attempt<O, E>,
                                 condition: E -> bool, fuel: nat, r: Option<nat>) {
    && (forall j: nat :: j < (if r.Some? then r.value else fuel) ==>
          outcomes(j).Failure? && condition(outcomes(j).error) && strategy(j).Some?)
    && (r.Some? ==>
          && r.value < fuel
          && (outcomes(r.value).Success? || !condition(outcomes(r.value).error) || strategy(r.value).None?))
  }

  lemma WatchIsFirstEnd<O, E>(strategy: nat -> Option<Duration>, outcomes: nat -> Attempt<O, E>,
                              condition: E -> bool, fuel: nat, r: Option<nat>)
    ensures FirstEnd(strategy, outcomes, condition, fuel, r) <==> r == Watch(strategy, outcomes, condition, 0, fuel)
  {
    WatchFindsTheFirst(strategy, outcomes, condition, 0, fuel);
    assert forall j: nat :: Ends(strategy, outcomes, condition, j) <==>
      !(outcomes(j).Failure? && condition(outcomes(j).error) && strategy(j).Some?);
  }

  /** The loop ends exactly when some attempt ends it or the strategy runs out; under
      an infinite strategy, exactly when some outcome does. */
  lemma RetryEndsIff<O, E>(strategy: nat -> Option<Duration>, outcomes: nat -> Attempt<O, E>, condition: E -> bool)
    ensures (exists fuel :: Watch(strategy, outcomes, condition, 0, fuel).Some?)
       <==> exists k: nat :: outcomes(k).Success? || !condition(outcomes(k).error) || strategy(k).None?
    ensures (forall k :: strategy(k).Some?) ==>
      ((exists fuel :: Watch(strategy, outcomes, condition, 0, fuel).Some?)
        <==> exists k: nat :: outcomes(k).Success? || !condition(outcomes(k).error))
  {
    if fuel :| Watch(strategy, outcomes, condition, 0, fuel).Some? {
      WatchFindsTheFirst(strategy, outcomes, condition, 0, fuel);
    }
    if k: nat :| outcomes(k).Success? || !condition(outcomes(k).error) || strategy(k).None? {
      WatchFindsTheFirst(strategy, outcomes, condition, 0, k + 1);
      assert Ends(strategy, outcomes, condition, k);
      assert Watch(strategy, outcomes, condition, 0, k + 1).Some?;
    }
  }

  /** The strategy a finite sequence of delays is. */
  function Finite(retries: seq<Duration>): nat -> Option<Duration> {
    (i: nat) => if i < |retries| then Some(retries[i]) else None
  }

  /** Under a finite strategy the loop ends within one attempt more than there are
      delays, and it ends at the stop index. */
  lemma FiniteStrategyEnds<O, E>(retries: seq<Duration>, outcomes: nat -> Attempt<O, E>, condition: E -> bool, fuel: nat)
    requires |retries| < fuel
    ensures var r := Watch(Finite(retries), outcomes, condition, 0, fuel);
      r.Some? && IsStopIndex(outcomes, condition, |retries|, r.value)
  {
    var strategy := Finite(retries);
    assert Ends(strategy, outcomes, condition, |retries|);
    WatchFindsTheFirst(strategy, outcomes, condition, 0, fuel);
    var k := Watch(strategy, outcomes, condition, 0, fuel).value;
    forall j: nat | j < k
      ensures outcomes(j).Failure? && condition(outcomes(j).error)
    {
      assert !Ends(strategy, outcomes, condition, j);
    }
  }

  /** The loop has made one attempt more than it slept delays, and only the latest can
      be the last; the delays are the strategy's, and the latest attempt is over at `clock`. */
  ghost predicate Going<O, E>(strategy: nat -> Option<Duration>, world: World<O, E>, condition: E -> bool,
                              begin: nat, slept: seq<Duration>, starts: seq<nat>, clock: nat) {
    && Paced(world, begin, slept, starts) && clock == starts[|slept|] + world.attemptTime(|slept|)
    && forall j :: 0 <= j < |slept| ==>
         && strategy(j) == Some(slept[j])
         && world.outcomes(j).Failure? && condition(world.outcomes(j).error)
  }

  lemma GoesOn<O, E>(strategy: nat -> Option<Duration>, world: World<O, E>, condition: E -> bool,
                     begin: nat, slept: seq<Duration>, starts: seq<nat>, clock: nat)
    requires Going(strategy, world, condition, begin, slept, starts, clock)
    requires strategy(|slept|).Some?
    requires world.outcomes(|slept|).Failure? && condition(world.outcomes(|slept|).error)
    ensures var delay := strategy(|slept|).value;
      var at := clock + delay + world.oversleep(|slept|);
      Going(strategy, world, condition, begin, slept + [delay], starts + [at], at + world.attemptTime(|slept| + 1))
  {
  }

  /** The loop itself, watched for up to `fuel` attempts. It returns outcome k when
      attempt k is the first that succeeds, fails for good or has no delay after it;
      either way the attempts made are one more than the delays slept, those are the
      strategy's first in order, each attempt starts when the sleep before it is over,
      and so attempt j never before the first j delays have passed. */
  method RetryWatched<O, E>(strategy: nat -> Option<Duration>, world: World<O, E>, condition: E -> bool,
                            begin: nat, fuel: nat)
    returns (ended: bool, result: Attempt<O, E>, starts: seq<nat>, slept: seq<Duration>)
    requires 0 < fuel
    ensures FirstEnd(strategy, world.outcomes, condition, fuel, if ended then Some(|slept|) else None)
    ensures ended <==> result.Success? || !condition(result.error) || strategy(|slept|).None?
    ensures !ended ==> |slept| == fuel - 1
    ensures result == world.outcomes(|slept|)
    ensures forall i :: 0 <= i < |slept| ==> strategy(i) == Some(slept[i])
    ensures Paced(world, begin, slept, starts) && OnTime(begin, slept, starts)
  {
    var clock: nat := begin + world.attemptTime(0);
    starts, slept, ended := [begin], [], false;
    result := world.outcomes(0);
    while |slept| < fuel - 1 && !Stops(result, condition) && strategy(|slept|).Some?
      invariant |slept| < fuel && result == world.outcomes(|slept|)
      invariant Going(strategy, world, condition, begin, slept, starts, clock)
      decreases fuel - |slept|
    {
      GoesOn(strategy, world, condition, begin, slept, starts, clock);
      var i, delay := |slept|, strategy(|slept|).value;
      var at := clock + delay + world.oversleep(i);
      slept, starts, clock := slept + [delay], starts + [at], at + world.attemptTime(i + 1);
      result := world.outcomes(i + 1);
    }
    ended := Stops(result, condition) || strategy(|slept|).None?;
    PacedIsOnTime(world, begin, slept, starts);
  }

  // ---------------------------------------------------------------- a finite strategy

  /** With `k` the stop index, the factory is called exactly k + 1 times, exactly the
      first k delays are slept in order, outcome k is returned, and attempt j never
      starts before the sum of the first j delays has passed. */
  method RetryIf<O, E>(retries: seq<Duration>, world: World<O, E>, condition: E -> bool, begin: nat)
    returns (result: Attempt<O, E>, starts: seq<nat>, slept: seq<Duration>)
    ensures IsStopIndex(world.outcomes, condition, |retries|, |slept|)
    ensures result == world.outcomes(|slept|)
    ensures slept == retries[..|slept|]
    ensures Paced(world, begin, slept, starts) && OnTime(begin, slept, starts)
  {
    var ended;
    FiniteStrategyEnds(retries, world.outcomes, condition, |retries| + 1);
    ended, result, starts, slept := RetryWatched(Finite(retries), world, condition, begin, |retries| + 1);
    WatchIsFirstEnd(Finite(retries), world.outcomes, condition, |retries| + 1, if ended then Some(|slept|) else None);
    assert forall i :: 0 <= i < |slept| ==> Finite(retries)(i) == Some(slept[i]);
  }

  /** `retry` retries every error: it stops at the first success, or at the last attempt. */
  method RetryAny<O, E>(retries: seq<Duration>, world: World<O, E>, begin: nat)
    returns (result: Attempt<O, E>, starts: seq<nat>, slept: seq<Duration>)
    ensures slept <= retries && |starts| == |slept| + 1 && result == world.outcomes(|slept|)
    ensures forall j: nat :: j < |slept| ==> world.outcomes(j).Failure?
    ensures |slept| < |retries| ==> result.Success?
  {
    result, starts, slept := RetryIf(retries, world, (_: E) => true, begin);
  }

  // ---------------------------------------------------------------- end to end

  /** `retry_if(FibonacciBackoff::new(initial).take(n), ..)`: the i-th sleep is the
      i-th member of the series, and giving up costs all of them. */
  method RetryWithFibonacci<O, E>(initial: Duration, n: nat, world: World<O, E>, condition: E -> bool, begin: nat)
    returns (result: Attempt<O, E>, starts: seq<nat>, slept: seq<Duration>)
    ensures IsStopIndex(world.outcomes, condition, n, |slept|) && result == world.outcomes(|slept|)
    ensures forall i :: 0 <= i < |slept| ==> slept[i] == FibonacciDelay(initial, None, i)
    ensures |starts| == |slept| + 1
    ensures |slept| == n && Fib(n) * initial <= DURATION_MAX ==>
      Sum(slept) == (Fib(n + 2) - 1) * initial && begin + (Fib(n + 2) - 1) * initial <= starts[n]
  {
    var backoff := new FibonacciBackoff(initial, None);
    var retries := backoff.Take(n);
    FibonacciClosedForm(initial, None, n);
    FibonacciTotal(initial, None, n);
    result, starts, slept := RetryIf(retries, world, condition, begin);
    if |slept| == n {
      assert slept == retries && slept[..n] == slept;
    }
  }

  /** The same for `ExponentialBackoff::from_millis(millis)`. */
  method RetryWithExponential<O, E>(millis: U64, n: nat, world: World<O, E>, condition: E -> bool, begin: nat)
    returns (result: Attempt<O, E>, starts: seq<nat>, slept: seq<Duration>)
    ensures IsStopIndex(world.outcomes, condition, n, |slept|) && result == world.outcomes(|slept|)
    ensures forall i :: 0 <= i < |slept| ==> slept[i] == ExponentialDelay(millis, None, i)
    ensures |starts| == |slept| + 1
    ensures |slept| == n && Pow(millis, n) < TWO_64 ==>
      && (millis - 1) * Sum(slept) == (Pow(millis, n + 1) - millis) * MILLI
      && begin + Sum(slept) <= starts[n]
  {
    var backoff := new ExponentialBackoff(millis, None);
    var retries := backoff.Take(n);
    ExponentialClosedForm(millis, None, n);
    ExponentialTotal(millis, None, n);
    result, starts, slept := RetryIf(retries, world, condition, begin);
    if |slept| == n {
      assert slept == retries && slept[..n] == slept;
    }
  }
}
