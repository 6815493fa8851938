/** The retry strategies: iterators over delays, each a state and a `next` step,
    their closed forms, and the sums of what they yield. Delays are nanoseconds. */
module Backoff {
  import opened Machine

  const DURATION_MAX: int := TWO_64 * 1_000_000_000 - 1
  const MILLI: int := 1_000_000

  type Duration = d: int | 0 <= d <= DURATION_MAX

  function FromMillis(millis: U64): Duration {
    millis * MILLI
  }

  /** The smaller of `delay` and the cap, if there is one. */
  function Capped(maxDelay: Option<Duration>, delay: Duration): Duration {
    if maxDelay.Some? && maxDelay.value < delay then maxDelay.value else delay
  }

  function Sum(delays: seq<Duration>): nat {
    if delays == [] then 0 else Sum(delays[..|delays| - 1]) + delays[|delays| - 1]
  }

  lemma {:induction false} SumIsMonotone(delays: seq<Duration>, each: nat)
    requires forall i :: 0 <= i < |delays| ==> delays[i] <= each
    ensures Sum(delays) <= |delays| * each
  {
    if delays != [] {
      SumIsMonotone(delays[..|delays| - 1], each);
      assert |delays| * each == (|delays| - 1) * each + each;
    }
  }

  // ---------------------------------------------------------------- Fibonacci

  datatype Fibonacci = Fibonacci(current: Duration, next: Duration, maxDelay: Option<Duration>)

  function NewFibonacci(initial: Duration, maxDelay: Option<Duration>): Fibonacci {
    Fibonacci(initial, initial, maxDelay)
  }

  /** The iterator's `next`: the new state and the delay it yields. */
  function FibonacciNext(s: Fibonacci): (Fibonacci, Duration) {
    if s.maxDelay.Some? && s.current > s.maxDelay.value then (s, s.maxDelay.value)
    else if s.current + s.next <= DURATION_MAX
    then (s.(current := s.next, next := s.current + s.next), s.current)
    else (s.(current := s.next, next := DURATION_MAX), s.current)
  }

  function FibonacciTake(s: Fibonacci, n: nat): (delays: seq<Duration>)
    ensures |delays| == n
    decreases n
  {
    if n == 0 then [] else [FibonacciNext(s).1] + FibonacciTake(FibonacciNext(s).0, n - 1)
  }

  /** The unbounded series. */
  function Fib(n: nat): nat {
    if n < 2 then n else Fib(n - 2) + Fib(n - 1)
  }

  /** What the k-th delay should be. */
  function FibonacciDelay(initial: Duration, maxDelay: Option<Duration>, k: nat): Duration {
    MulNonNegative(Fib(k + 1), initial);
    Capped(maxDelay, Min(DURATION_MAX, Fib(k + 1) * initial))
  }

  lemma MulNonNegative(a: nat, b: nat)
    ensures 0 <= a * b
  {
  }

  lemma MulMonotone(a: nat, b: nat, c: nat)
    requires a <= b
    ensures a * c <= b * c
  {
  }

  /** After `k` steps the iterator holds the next two members of the series, both
      saturated, or it has stopped at a cap that the series has passed as well. */
  ghost predicate FibonacciAt(initial: Duration, k: nat, s: Fibonacci) {
    || (s.current == Min(DURATION_MAX, Fib(k + 1) * initial) && s.next == Min(DURATION_MAX, Fib(k + 2) * initial))
    || (s.maxDelay.Some? && s.maxDelay.value < s.current && s.maxDelay.value < Min(DURATION_MAX, Fib(k + 1) * initial))
  }

  lemma FibonacciStep(initial: Duration, k: nat, s: Fibonacci)
    requires FibonacciAt(initial, k, s)
    ensures FibonacciAt(initial, k + 1, FibonacciNext(s).0) && FibonacciNext(s).0.maxDelay == s.maxDelay
    ensures FibonacciNext(s).1 == FibonacciDelay(initial, s.maxDelay, k)
  {
    var f, g := Fib(k + 1), Fib(k + 2);
    assert Fib(k + 3) == f + g && (f + g) * initial == f * initial + g * initial;
    FibPositive(k);
    MulMonotone(f, g, initial);
    MulNonNegative(f, initial);
    if 0 < initial { MulMonotone(1, f, initial); }
  }

  lemma {:induction false} FibPositive(k: nat)
    ensures 1 <= Fib(k + 1) <= Fib(k + 2)
  {
    if 0 < k {
      FibPositive(k - 1);
    }
  }

  lemma {:induction false} FibonacciTakeFrom(initial: Duration, k: nat, s: Fibonacci, n: nat, i: nat)
    requires FibonacciAt(initial, k, s) && i < n
    ensures FibonacciTake(s, n)[i] == FibonacciDelay(initial, s.maxDelay, k + i)
    decreases n
  {
    FibonacciStep(initial, k, s);
    if 0 < i {
      FibonacciTakeFrom(initial, k + 1, FibonacciNext(s).0, n - 1, i - 1);
    }
  }

  /** The k-th delay is F(k+1) times the first, saturated and capped, for every first
      delay, cap and k; so the delays never decrease. */
  lemma FibonacciClosedForm(initial: Duration, maxDelay: Option<Duration>, n: nat)
    ensures var delays := FibonacciTake(NewFibonacci(initial, maxDelay), n);
      && (forall k :: 0 <= k < n ==> delays[k] == FibonacciDelay(initial, maxDelay, k))
      && (forall j, k :: 0 <= j <= k < n ==> delays[j] <= delays[k])
  {
    var s := NewFibonacci(initial, maxDelay);
    assert FibonacciAt(initial, 0, s) by { assert Fib(1) == 1 && Fib(2) == 1; }
    forall k | 0 <= k < n
      ensures FibonacciTake(s, n)[k] == FibonacciDelay(initial, maxDelay, k)
    {
      FibonacciTakeFrom(initial, 0, s, n, k);
    }
    forall j, k | 0 <= j <= k < n
      ensures FibonacciDelay(initial, maxDelay, j) <= FibonacciDelay(initial, maxDelay, k)
    {
      FibMonotone(j + 1, k + 1);
      MulMonotone(Fib(j + 1), Fib(k + 1), initial);
    }
  }

  lemma {:induction false} FibMonotone(j: nat, k: nat)
    requires 1 <= j <= k
    ensures Fib(j) <= Fib(k)
    decreases k
  {
    if j < k {
      FibMonotone(j, k - 1);
      FibPositive(k - 2);
    }
  }

  /** Without a cap, `n` retries sleep (F(n+2) - 1) times the first delay in all,
      exactly when the last of them does not saturate; under a cap, at most `n` caps. */
  lemma FibonacciTotal(initial: Duration, maxDelay: Option<Duration>, n: nat)
    ensures var total := Sum(FibonacciTake(NewFibonacci(initial, maxDelay), n));
      && (maxDelay.None? ==> (total == (Fib(n + 2) - 1) * initial <==> n == 0 || Fib(n) * initial <= DURATION_MAX))
      && (maxDelay.Some? ==> total <= n * maxDelay.value)
  {
    var delays := FibonacciTake(NewFibonacci(initial, maxDelay), n);
    FibonacciClosedForm(initial, maxDelay, n);
    if maxDelay.Some? {
      SumIsMonotone(delays, maxDelay.value);
    } else {
      FibonacciPrefixTotal(initial, delays);
      assert (Fib(n + 2) - 1) * initial == Fib(n + 2) * initial - initial;
    }
  }

  lemma FibTerms(initial: Duration, n: nat)
    ensures Fib(n + 2) * initial == Fib(n) * initial + Fib(n + 1) * initial
  {
  }

  lemma {:induction false} FibonacciPrefixTotal(initial: Duration, delays: seq<Duration>)
    requires forall k :: 0 <= k < |delays| ==> delays[k] == FibonacciDelay(initial, None, k)
    ensures var n := |delays|;
      && Sum(delays) + initial <= Fib(n + 2) * initial
      && (Sum(delays) + initial == Fib(n + 2) * initial <==> n == 0 || Fib(n) * initial <= DURATION_MAX)
  {
    var n := |delays|;
    if n == 0 {
      assert Fib(2) == 1;
    } else {
      FibonacciPrefixTotal(initial, delays[..n - 1]);
      FibTerms(initial, n);
      assert delays[n - 1] == FibonacciDelay(initial, None, n - 1);
      if 1 < n {
        FibMonotone(n - 1, n);
        MulMonotone(Fib(n - 1), Fib(n), initial);
      }
    }
  }

  // ---------------------------------------------------------------- exponential

  datatype Exponential = Exponential(baseMillis: U64, currentMillis: U64, maxDelay: Option<Duration>)

  function NewExponential(millis: U64, maxDelay: Option<Duration>): Exponential {
    Exponential(millis, millis, maxDelay)
  }

  function ExponentialNext(s: Exponential): (Exponential, Duration) {
    var duration := FromMillis(s.currentMillis);
    if s.maxDelay.Some? && duration > s.maxDelay.value then (s, s.maxDelay.value)
    else
      MulNonNegative(s.currentMillis, s.baseMillis);
      var product := s.currentMillis * s.baseMillis;
      (s.(currentMillis := if product < TWO_64 then product else TWO_64 - 1), duration)
  }

  function ExponentialTake(s: Exponential, n: nat): (delays: seq<Duration>)
    ensures |delays| == n
    decreases n
  {
    if n == 0 then [] else [ExponentialNext(s).1] + ExponentialTake(ExponentialNext(s).0, n - 1)
  }

  function Pow(b: nat, n: nat): nat {
    if n == 0 then 1 else MulNonNegative(b, Pow(b, n - 1)); b * Pow(b, n - 1)
  }

  /** What the k-th delay should be. */
  function ExponentialDelay(base: U64, maxDelay: Option<Duration>, k: nat): Duration {
    Capped(maxDelay, FromMillis(Min(TWO_64 - 1, Pow(base, k + 1))))
  }

  ghost predicate ExponentialAt(k: nat, s: Exponential) {
    var power := Min(TWO_64 - 1, Pow(s.baseMillis, k + 1));
    || s.currentMillis == power
    || (s.maxDelay.Some? && s.maxDelay.value < FromMillis(s.currentMillis) && s.maxDelay.value < FromMillis(power))
  }

  lemma PowGrows(b: nat, n: nat)
    requires 0 < n
    ensures Pow(b, n) <= Pow(b, n + 1)
    ensures 2 <= b ==> 2 * Pow(b, n) <= Pow(b, n + 1) && 1 <= Pow(b, n)
  {
    assert Pow(b, n + 1) == b * Pow(b, n);
    if b == 0 {
      assert Pow(b, n) == 0 * Pow(b, n - 1) == 0;
    } else {
      MulMonotone(1, b, Pow(b, n));
      if 2 <= b {
        MulMonotone(2, b, Pow(b, n));
        PowPositive(b, n);
      }
    }
  }

  lemma {:induction false} PowPositive(b: nat, n: nat)
    requires 1 <= b
    ensures 1 <= Pow(b, n)
  {
    if 0 < n {
      PowPositive(b, n - 1);
      MulMonotone(1, b, Pow(b, n - 1));
    }
  }

  lemma ExponentialStep(k: nat, s: Exponential)
    requires ExponentialAt(k, s)
    ensures ExponentialAt(k + 1, ExponentialNext(s).0)
    ensures ExponentialNext(s).0.maxDelay == s.maxDelay && ExponentialNext(s).0.baseMillis == s.baseMillis
    ensures ExponentialNext(s).1 == ExponentialDelay(s.baseMillis, s.maxDelay, k)
  {
    var b, power := s.baseMillis, Pow(s.baseMillis, k + 1);
    PowGrows(b, k + 1);
    assert Pow(b, k + 2) == b * power;
    if s.currentMillis < power && s.currentMillis == TWO_64 - 1 {
      SaturatedMeansBase2(b, k + 1);
      MulMonotone(2, b, s.currentMillis);
      assert b * s.currentMillis == s.currentMillis * b;
    }
  }

  /** Only a base of two or more ever leaves the range of a single bit. */
  lemma {:induction false} SaturatedMeansBase2(b: nat, n: nat)
    ensures b < 2 ==> Pow(b, n) <= 1
  {
    if 0 < n && b < 2 {
      SaturatedMeansBase2(b, n - 1);
      assert b == 0 || b == 1;
    }
  }

  lemma {:induction false} ExponentialTakeFrom(k: nat, s: Exponential, n: nat, i: nat)
    requires ExponentialAt(k, s) && i < n
    ensures ExponentialTake(s, n)[i] == ExponentialDelay(s.baseMillis, s.maxDelay, k + i)
    decreases n
  {
    ExponentialStep(k, s);
    if 0 < i {
      ExponentialTakeFrom(k + 1, ExponentialNext(s).0, n - 1, i - 1);
    }
  }

  lemma {:induction false} PowMonotone(b: nat, j: nat, k: nat)
    requires 0 < j <= k
    ensures Pow(b, j) <= Pow(b, k)
    decreases k
  {
    if j < k {
      PowMonotone(b, j, k - 1);
      PowGrows(b, k - 1);
    }
  }

  /** The k-th delay is b^(k+1) milliseconds, saturated and capped, for every base,
      cap and k; so the delays never decrease. */
  lemma ExponentialClosedForm(base: U64, maxDelay: Option<Duration>, n: nat)
    ensures var delays := ExponentialTake(NewExponential(base, maxDelay), n);
      && (forall k :: 0 <= k < n ==> delays[k] == ExponentialDelay(base, maxDelay, k))
      && (forall j, k :: 0 <= j <= k < n ==> delays[j] <= delays[k])
  {
    var s := NewExponential(base, maxDelay);
    assert ExponentialAt(0, s) by { assert Pow(base, 1) == base * Pow(base, 0) == base; }
    forall k | 0 <= k < n
      ensures ExponentialTake(s, n)[k] == ExponentialDelay(base, maxDelay, k)
    {
      ExponentialTakeFrom(0, s, n, k);
    }
    forall j, k | 0 <= j <= k < n
      ensures ExponentialDelay(base, maxDelay, j) <= ExponentialDelay(base, maxDelay, k)
    {
      PowMonotone(base, j + 1, k + 1);
    }
  }

  /** Without a cap the total S of `n` retries, in milliseconds, satisfies
      (b - 1) S = b^(n+1) - b, exactly when the last of them does not saturate; under
      a cap it is at most `n` caps. */
  lemma ExponentialTotal(base: U64, maxDelay: Option<Duration>, n: nat)
    ensures var total := Sum(ExponentialTake(NewExponential(base, maxDelay), n));
      && (maxDelay.None? ==>
            ((base - 1) * total == (Pow(base, n + 1) - base) * MILLI <==> n == 0 || Pow(base, n) < TWO_64))
      && (maxDelay.Some? ==> total <= n * maxDelay.value)
  {
    var delays := ExponentialTake(NewExponential(base, maxDelay), n);
    ExponentialClosedForm(base, maxDelay, n);
    if maxDelay.Some? {
      SumIsMonotone(delays, maxDelay.value);
    } else {
      ExponentialPrefixTotal(base, delays);
    }
  }

  lemma {:induction false} ExponentialPrefixTotal(base: U64, delays: seq<Duration>)
    requires forall k :: 0 <= k < |delays| ==> delays[k] == ExponentialDelay(base, None, k)
    ensures var n := |delays|;
      && (base - 1) * Sum(delays) <= (Pow(base, n + 1) - base) * MILLI
      && ((base - 1) * Sum(delays) == (Pow(base, n + 1) - base) * MILLI <==> n == 0 || Pow(base, n) < TWO_64)
  {
    var n := |delays|;
    if n == 0 {
      assert Pow(base, 1) == base * Pow(base, 0) == base;
    } else {
      ExponentialPrefixTotal(base, delays[..n - 1]);
      var rest, last, power := Sum(delays[..n - 1]), delays[n - 1], Pow(base, n);
      assert last == ExponentialDelay(base, None, n - 1);
      ExponentialTerm(base, power, last, n);
      ExponentialSplit(base, rest, last, power);
      assert Sum(delays) == rest + last && Pow(base, n + 1) == base * power;
      if 1 < n { PowMonotone(base, n - 1, n); }
    }
  }

  lemma ExponentialSplit(base: U64, rest: nat, last: nat, power: nat)
    ensures (base - 1) * (rest + last) == (base - 1) * rest + (base - 1) * last
    ensures (base * power - base) * MILLI == (power - base) * MILLI + ((base - 1) * power) * MILLI
  {
  }

  /** The last term of the sum, saturated or not. */
  lemma ExponentialTerm(base: U64, power: nat, last: nat, n: nat)
    requires power == Pow(base, n) && last == Min(TWO_64 - 1, power) * MILLI
    ensures (base - 1) * last <= ((base - 1) * power) * MILLI
    ensures (base - 1) * last == ((base - 1) * power) * MILLI <==> power < TWO_64
  {
    SaturatedMeansBase2(base, n);
    if power < TWO_64 {
      assert (base - 1) * (power * MILLI) == ((base - 1) * power) * MILLI;
    } else {
      var lack := power * MILLI - last;
      assert 0 < lack && 1 <= base - 1;
      MulMonotone(1, base - 1, lack);
      assert (base - 1) * (last + lack) == (base - 1) * last + (base - 1) * lack;
      assert (base - 1) * (power * MILLI) == ((base - 1) * power) * MILLI;
    }
  }
}
