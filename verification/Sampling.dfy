/** The sampling of unified-memory-framework/benchmark/ubench.h:362-368, 640-701: a benchmark
    body is run between time stamps taken into a buffer, the stamps are turned into run times
    in place, and the run is repeated with more iterations until it is trusted. */
module Sampling {

  const MIN_ITERATIONS: int := 10
  const MAX_ITERATIONS: int := 500
  /** In nanoseconds. */
  const BUDGET: int := 100_000_000

  function Min(a: int, b: int): int { if a < b then a else b }

  /** C's division of integers, which rounds towards zero: the quotient misses by less than
      the divisor, and never overshoots. */
  function Quotient(a: int, b: int): (q: int)
    requires b > 0
    ensures a >= 0 ==> 0 <= q * b <= a < q * b + b
    ensures a <= 0 ==> q * b - b < a <= q * b <= 0
  {
    DivisionMeans(a, b);
    DivisionMeans(-a, b);
    if a >= 0 then a / b else -((-a) / b)
  }

  lemma DivisionMeans(a: int, b: int)
    requires b > 0
    ensures a / b * b <= a < a / b * b + b
    ensures -(a / b) * b == -(a / b * b)
    ensures a >= 0 ==> a / b * b >= 0
  {
    var q := a / b;
    assert a == q * b + a % b;
    if a >= 0 { NotNegative(q, b); }
  }

  lemma NotNegative(q: int, b: int)
    requires q >= 0 && b > 0
    ensures q * b >= 0
  {
  }

  ghost function Sum(s: seq<int>): int {
    if s == [] then 0 else Sum(s[..|s| - 1]) + s[|s| - 1]
  }

  ghost function Differences(s: seq<int>): (d: seq<int>)
    requires s != []
    ensures |d| == |s| - 1
  {
    seq(|s| - 1, k requires 0 <= k < |s| - 1 => s[k + 1] - s[k])
  }

  /** The run times add up to the time from the first stamp to the last. */
  lemma {:induction false} Telescope(s: seq<int>)
    requires s != []
    ensures Sum(Differences(s)) == s[|s| - 1] - s[0]
  {
    if |s| > 1 {
      Telescope(s[..|s| - 1]);
      assert Differences(s)[..|s| - 2] == Differences(s[..|s| - 1]);
    }
  }

  class RunState {
    const ns: array<int>
    var size: int
    var sample: int
    /** The clock's readings in order, and how many have been taken. */
    const clock: nat -> int
    var taken: nat

    constructor (clock: nat -> int)
      ensures ns.Length == MAX_ITERATIONS + 1 && fresh(ns)
      ensures this.clock == clock && taken == 0
    {
      this.clock := clock;
      taken := 0;
      ns := new int[MAX_ITERATIONS + 1];
    }

    method DoBenchmark() returns (more: bool)
      requires 0 <= sample < ns.Length
      modifies `sample, `taken, ns
      ensures taken == old(taken) + 1 && sample == old(sample) + 1
      ensures ns[..] == old(ns[..])[old(sample) := clock(old(taken))]
      ensures more <==> old(sample) < size
    {
      var currSample := sample;
      sample := sample + 1;
      ns[currSample] := clock(taken);
      taken := taken + 1;
      more := currSample < size;
    }

    /** A benchmark function whose body is the loop: the body runs exactly `size` times, each
        time between two consecutive stamps, and no stamp falls outside the buffer. */
    method RunBenchmark() returns (bodies: nat)
      requires sample == 0 <= size < ns.Length
      modifies `sample, `taken, ns
      ensures bodies == size
      ensures taken == old(taken) + size + 1
      ensures forall k :: 0 <= k <= size ==> ns[k] == clock(old(taken) + k)
      ensures forall k :: size < k < ns.Length ==> ns[k] == old(ns[k])
    {
      bodies := 0;
      var more := DoBenchmark();
      while more
        invariant sample == bodies + 1 && taken == old(taken) + sample
        invariant bodies <= size && (more <==> bodies < size)
        invariant forall k :: 0 <= k < sample ==> ns[k] == clock(old(taken) + k)
        invariant forall k :: sample <= k < ns.Length ==> ns[k] == old(ns[k])
        decreases size - bodies
      {
        bodies := bodies + 1;
        ghost var before := ns[..];
        more := DoBenchmark();
        assert forall k :: 0 <= k < ns.Length && k != bodies ==> ns[..][k] == before[k];
        assert ns[..][bodies] == clock(old(taken) + bodies);
      }
    }

    /** The run times replace the stamps, from the front. */
    method TakeDifferences(iterations: int)
      requires 0 <= iterations < ns.Length
      modifies ns
      ensures ns[..iterations] == Differences(old(ns[..iterations + 1]))
    {
      ghost var stamps := ns[..iterations + 1];
      var k := 0;
      while k < iterations
        invariant 0 <= k <= iterations
        invariant forall j :: 0 <= j < k ==> ns[j] == Differences(stamps)[j]
        invariant forall j :: k <= j <= iterations ==> ns[j] == stamps[j]
      {
        ns[k] := ns[k + 1] - ns[k];
        k := k + 1;
      }
    }

    method AddUp(iterations: int) returns (sum: int)
      requires 0 <= iterations < ns.Length
      ensures sum == Sum(ns[..iterations])
    {
      sum := 0;
      for k := 0 to iterations
        invariant sum == Sum(ns[..k])
      {
        sum := sum + ns[k];
        assert ns[..k + 1][..k] == ns[..k];
      }
    }

    /** The readings the clock gives from the `from`-th on. */
    ghost function Readings(from: nat, n: nat): (r: seq<int>)
      ensures |r| == n && forall k :: 0 <= k < n ==> r[k] == clock(from + k)
    {
      seq(n, k requires k >= 0 => clock(from + k))
    }

    /** A run of `iterations` bodies fills the buffer with the clock's next readings. */
    method TakeStamps(iterations: int) returns (bodies: nat)
      requires 0 < iterations < ns.Length
      modifies this, ns
      ensures bodies == iterations && taken == old(taken) + iterations + 1
      ensures ns[..iterations + 1] == Readings(old(taken), iterations + 1)
    {
      sample, size := 0, iterations;
      bodies := RunBenchmark();
    }

    /** The average run time between the stamps in the buffer. */
    method Average(iterations: int) returns (avgNs: int)
      requires 0 < iterations < ns.Length
      modifies ns
      ensures avgNs == Quotient(old(ns[iterations]) - old(ns[0]), iterations)
    {
      Telescope(ns[..iterations + 1]);
      TakeDifferences(iterations);
      avgNs := AddUp(iterations);
      avgNs := Quotient(avgNs, iterations);
    }

    /** One measured run of `iterations` bodies, and its average run time. */
    method Round(iterations: int) returns (bodies: nat, avgNs: int)
      requires ns.Length == MAX_ITERATIONS + 1 && 0 < iterations <= MAX_ITERATIONS
      modifies this, ns
      ensures bodies == iterations && taken == old(taken) + iterations + 1
      ensures avgNs == Quotient(clock(taken - 1) - clock(old(taken)), iterations)
    {
      bodies := TakeStamps(iterations);
      assert ns[0] == ns[..iterations + 1][0] && ns[iterations] == ns[..iterations + 1][iterations];
      avgNs := Average(iterations);
    }
  }

  ghost function Factorial(n: nat): nat {
    if n == 0 then 1 else n * Factorial(n - 1)
  }

  /** The number of bodies in round `r`: `base` scaled by the factorial, up to the buffer. */
  ghost function Scaled(base: int, r: nat): int {
    Min(MAX_ITERATIONS, base * Factorial(r + 1))
  }

  lemma ScaledStep(base: int, r: nat)
    requires MIN_ITERATIONS <= base
    ensures Scaled(base, r) >= Min(base, MAX_ITERATIONS)
    ensures Scaled(base, r + 1) == Min(Scaled(base, r) * (r + 2), MAX_ITERATIONS)
    decreases r
  {
    FactorialPositive(r + 1);
    var f := Factorial(r + 1);
    assert Factorial(r + 2) == (r + 2) * f;
    assert base * ((r + 2) * f) == (base * f) * (r + 2);
    assert base * f >= base by { assert base * (f - 1) >= 0; }
    if base * f > MAX_ITERATIONS {
      assert (base * f) * (r + 2) >= base * f;
    }
  }

  lemma {:induction false} FactorialPositive(n: nat)
    ensures Factorial(n) >= 1
  {
    if n > 0 { FactorialPositive(n - 1); }
  }

  /** `n` is the largest number of bodies, within the limits, that at `elapsed` nanoseconds
      each take no more than 100 ms. */
  ghost predicate BestCount(n: int, elapsed: int) {
    && MIN_ITERATIONS <= n <= MAX_ITERATIONS
    && (elapsed <= 0 ==> n == MAX_ITERATIONS)
    && (elapsed > 0 ==> n == MIN_ITERATIONS || n * elapsed <= BUDGET)
    && (elapsed > 0 ==> n == MAX_ITERATIONS || (n + 1) * elapsed > BUDGET)
  }

  /** The iteration count suggested by timing the body once. */
  method BaseIterations(elapsed: int) returns (iterations: int)
    ensures BestCount(iterations, elapsed)
  {
    iterations := BUDGET / (if elapsed <= 0 then 1 else elapsed);
    if elapsed > 0 {
      BudgetQuotient(elapsed, iterations);
      if iterations < MIN_ITERATIONS { Longer(iterations + 1, MIN_ITERATIONS + 1, elapsed); }
      if iterations > MAX_ITERATIONS { Longer(MAX_ITERATIONS, iterations, elapsed); }
    }
    iterations := if iterations < MIN_ITERATIONS then MIN_ITERATIONS else iterations;
    iterations := if iterations > MAX_ITERATIONS then MAX_ITERATIONS else iterations;
  }

  lemma BudgetQuotient(elapsed: int, q: int)
    requires elapsed > 0 && q == BUDGET / elapsed
    ensures q * elapsed <= BUDGET < (q + 1) * elapsed
  {
    assert BUDGET == q * elapsed + BUDGET % elapsed;
  }

  lemma Longer(a: int, b: int, elapsed: int)
    requires a <= b && elapsed > 0
    ensures a * elapsed <= b * elapsed
  {
    assert (b - a) * elapsed >= 0;
  }

  /** Round `r` ran the scaled number of bodies and averaged the time between its own first
      and last stamp. */
  ghost predicate RoundOk(clock: nat -> int, base: int, sizes: seq<nat>, averages: seq<int>, r: nat)
    requires r < |sizes| == |averages|
  {
    && sizes[r] == Scaled(base, r) && MIN_ITERATIONS <= sizes[r] <= MAX_ITERATIONS
    && averages[r] == Quotient(clock(Stamp(sizes, r) + sizes[r]) - clock(Stamp(sizes, r)), sizes[r])
  }

  lemma RoundsStay(clock: nat -> int, base: int, sizes: seq<nat>, averages: seq<int>, n: nat, avg: int)
    requires |sizes| == |averages|
    requires forall r :: 0 <= r < |sizes| ==> RoundOk(clock, base, sizes, averages, r)
    requires n == Scaled(base, |sizes|) && MIN_ITERATIONS <= n <= MAX_ITERATIONS
    requires avg == Quotient(clock(Stamp(sizes, |sizes|) + n) - clock(Stamp(sizes, |sizes|)), n)
    ensures forall r :: 0 <= r <= |sizes| ==> RoundOk(clock, base, sizes + [n], averages + [avg], r)
    ensures Stamp(sizes + [n], |sizes| + 1) == Stamp(sizes, |sizes|) + n + 1
  {
    StampsFixed(sizes, n);
    forall r | 0 <= r <= |sizes| ensures RoundOk(clock, base, sizes + [n], averages + [avg], r) {
      if r < |sizes| {
        assert RoundOk(clock, base, sizes, averages, r);
        assert (sizes + [n])[r] == sizes[r] && (averages + [avg])[r] == averages[r];
      }
    }
  }

  /** A whole measurement: one body to choose the base count, then up to 100 rounds while
      `again`, the verdict on a round's confidence, asks for more. */
  method Measure(clock: nat -> int, again: nat -> bool)
    returns (base: int, sizes: seq<nat>, averages: seq<int>)
    ensures BestCount(base, clock(1) - clock(0))
    ensures 1 <= |sizes| == |averages| <= 100
    ensures forall r :: 0 <= r < |sizes| - 1 ==> again(r)
    ensures |sizes| < 100 ==> !again(|sizes| - 1)
    ensures forall r :: 0 <= r < |sizes| ==> RoundOk(clock, base, sizes, averages, r)
  {
    var ubs := new RunState(clock);
    ubs.size, ubs.sample := 1, 0;
    var once := ubs.RunBenchmark();
    base := BaseIterations(ubs.ns[1] - ubs.ns[0]);
    var iterations := base;
    sizes, averages := [], [];
    var mndex, result := 0, true;
    while mndex < 100 && result
      invariant 0 <= mndex == |sizes| == |averages| <= 100
      invariant fresh(ubs) && fresh(ubs.ns) && ubs.ns.Length == MAX_ITERATIONS + 1 && ubs.clock == clock
      invariant MIN_ITERATIONS <= iterations <= MAX_ITERATIONS
      invariant iterations == if mndex == 0 then base else Scaled(base, mndex - 1)
      invariant ubs.taken == Stamp(sizes, mndex)
      invariant mndex == 0 ==> result
      invariant mndex > 0 ==> result == again(mndex - 1)
      invariant forall r :: 0 <= r < mndex - 1 ==> again(r)
      invariant forall r :: 0 <= r < mndex ==> RoundOk(clock, base, sizes, averages, r)
    {
      NextScaled(base, mndex);
      iterations := Min(iterations * (mndex + 1), MAX_ITERATIONS);
      var bodies, avgNs := ubs.Round(iterations);
      RoundsStay(clock, base, sizes, averages, bodies, avgNs);
      sizes, averages := sizes + [bodies], averages + [avgNs];
      result := again(mndex);
      mndex := mndex + 1;
    }
  }

  lemma NextScaled(base: int, r: nat)
    requires MIN_ITERATIONS <= base <= MAX_ITERATIONS
    ensures MIN_ITERATIONS <= Scaled(base, r)
    ensures Scaled(base, r) == Min((if r == 0 then base else Scaled(base, r - 1)) * (r + 1), MAX_ITERATIONS)
  {
    if r == 0 {
      assert Factorial(1) == 1 * Factorial(0);
    } else {
      ScaledStep(base, r - 1);
    }
    ScaledStep(base, r);
  }

  /** The index of the first clock reading of round `r`. */
  ghost function Stamp(sizes: seq<nat>, r: nat): nat
    requires r <= |sizes|
  {
    if r == 0 then 2 else Stamp(sizes, r - 1) + sizes[r - 1] + 1
  }

  lemma StampsFixed(sizes: seq<nat>, next: nat)
    ensures forall r {:trigger Stamp(sizes, r)} {:trigger Stamp(sizes + [next], r)} ::
              0 <= r <= |sizes| ==> Stamp(sizes + [next], r) == Stamp(sizes, r)
  {
    for r := 0 to |sizes|
      invariant forall q :: 0 <= q <= r ==> Stamp(sizes + [next], q) == Stamp(sizes, q)
    {
      assert (sizes + [next])[r] == sizes[r];
    }
  }
}
