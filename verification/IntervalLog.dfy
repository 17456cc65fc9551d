/** The interval log of `BinarySearchTest` (Exprs/Examples/TestSuite.cpp:881-890,
    1028-1034): a thread counts its operations for `duration` seconds and records the count
    once per `interval` seconds in a vector of `duration / interval` slots. The clock is the
    sequence of its readings, two per iteration, in ticks of which a second has `second`. */
module IntervalLog {

  /** One iteration: the reading in the loop's guard, whether the iteration ends with
      `continue`, and, if not, the reading that is compared with `nextLogTime`. */
  datatype Iteration = Iteration(guard: int, skipped: bool, check: int)

  datatype Config = Config(duration: nat, interval: nat, second: nat, start: int) {
    predicate Sensible() {
      interval > 0 && second > 0
    }

    function Slots(): nat
      requires Sensible()
    {
      duration / interval
    }

    /** The guard: whole seconds since the start, rounded down, are below the duration. */
    predicate Running(reading: int)
      requires Sensible() && reading >= start
    {
      (reading - start) / second < duration
    }

    /** The value of `nextLogTime` after `n` writes. */
    function LogTime(n: nat): int {
      start + (n + 1) * (interval * second)
    }
  }

  /** The clock is monotone; an iteration may stall for any time. */
  ghost predicate Monotone(c: Config, its: seq<Iteration>) {
    && (forall k :: 0 <= k < |its| ==> c.start <= its[k].guard <= its[k].check)
    && (forall j, k :: 0 <= j < k < |its| ==> its[j].check <= its[k].guard)
  }

  ghost predicate Writes(c: Config, it: Iteration, before: nat)
    requires c.Sensible() && it.guard >= c.start
  {
    c.Running(it.guard) && !it.skipped && it.check >= c.LogTime(before)
  }

  /** How many log entries the readings call for; entry i goes to index i. */
  ghost function Wanted(c: Config, its: seq<Iteration>): nat
    requires c.Sensible() && Monotone(c, its)
  {
    if its == [] then 0
    else
      var rest, it := its[..|its| - 1], its[|its| - 1];
      var before := Wanted(c, rest);
      if Writes(c, it, before) then before + 1 else before
  }

  /** The operations counted: iterations that run and are not skipped. */
  ghost function Counted(c: Config, its: seq<Iteration>): nat
    requires c.Sensible() && Monotone(c, its)
  {
    if its == [] then 0
    else
      var rest, it := its[..|its| - 1], its[|its| - 1];
      Counted(c, rest) + (if c.Running(it.guard) && !it.skipped then 1 else 0)
  }

  /** The entries called for: each is the count at the time of its write. */
  ghost function Logged(c: Config, its: seq<Iteration>, initialOps: int): (log: seq<int>)
    requires c.Sensible() && Monotone(c, its)
    ensures |log| == Wanted(c, its)
  {
    if its == [] then []
    else
      var rest, it := its[..|its| - 1], its[|its| - 1];
      Logged(c, rest, initialOps)
      + (if Writes(c, it, Wanted(c, rest)) then [initialOps + Counted(c, its)] else [])
  }

  /** The log grows strictly: no entry repeats an earlier count or exceeds the last one. */
  lemma {:induction false} LogGrows(c: Config, its: seq<Iteration>, initialOps: int)
    requires c.Sensible() && Monotone(c, its)
    ensures var log := Logged(c, its, initialOps);
            && (forall i :: 0 <= i < |log| ==> initialOps < log[i] <= initialOps + Counted(c, its))
            && (forall i, j :: 0 <= i < j < |log| ==> log[i] < log[j])
  {
    if its != [] {
      LogGrows(c, its[..|its| - 1], initialOps);
      OneMore(c, its, |its| - 1, initialOps);
      assert its[..|its|] == its;
    }
  }

  lemma OneMore(c: Config, its: seq<Iteration>, k: nat, initialOps: int)
    requires c.Sensible() && Monotone(c, its) && k < |its|
    ensures Monotone(c, its[..k]) && Monotone(c, its[..k + 1])
    ensures Wanted(c, its[..k + 1]) ==
            Wanted(c, its[..k]) + (if Writes(c, its[k], Wanted(c, its[..k])) then 1 else 0)
    ensures Counted(c, its[..k + 1]) ==
            Counted(c, its[..k]) + (if c.Running(its[k].guard) && !its[k].skipped then 1 else 0)
    ensures Logged(c, its[..k + 1], initialOps) ==
            Logged(c, its[..k], initialOps) + (if Writes(c, its[k], Wanted(c, its[..k]))
                                               then [initialOps + Counted(c, its[..k + 1])] else [])
  {
    assert its[..k + 1][..k] == its[..k];
  }

  lemma LogTimes(c: Config, n: nat)
    ensures c.LogTime(0) == c.start + c.interval * c.second
    ensures c.LogTime(n + 1) == c.LogTime(n) + c.interval * c.second
  {
    assert (n + 2) * (c.interval * c.second) == (n + 1) * (c.interval * c.second) + c.interval * c.second;
  }

  lemma RunningMeans(c: Config, reading: int)
    requires c.Sensible() && reading >= c.start
    ensures c.Running(reading) <==> reading - c.start < c.duration * c.second
  {
    var e, s, d := reading - c.start, c.second, c.duration;
    assert e == e / s * s + e % s;
    if e / s < d {
      assert e / s * s <= (d - 1) * s;
      assert (d - 1) * s == d * s - s;
    } else {
      assert e / s * s >= d * s;
    }
  }

  /** The last write happened at a reading no earlier than its log time. */
  lemma {:induction false} LastWrite(c: Config, its: seq<Iteration>)
    requires c.Sensible() && Monotone(c, its) && Wanted(c, its) > 0
    ensures its[|its| - 1].check >= c.LogTime(Wanted(c, its) - 1)
  {
    var rest, it := its[..|its| - 1], its[|its| - 1];
    if !Writes(c, it, Wanted(c, rest)) {
      LastWrite(c, rest);
      assert rest[|rest| - 1].check <= it.guard;
    }
  }

  lemma {:induction false} EnoughSlots(c: Config, its: seq<Iteration>)
    requires c.Sensible() && Monotone(c, its) && c.duration % c.interval == 0
    ensures Wanted(c, its) <= c.Slots()
  {
    if its != [] {
      var rest, it := its[..|its| - 1], its[|its| - 1];
      EnoughSlots(c, rest);
      if Wanted(c, rest) == c.Slots() && Writes(c, it, c.Slots()) {
        RunningMeans(c, it.guard);
        Product(c);
        if c.Slots() > 0 {
          LastWrite(c, rest);
          assert false;
        } else {
          assert false;
        }
      }
    }
  }

  lemma Product(c: Config)
    requires c.Sensible()
    ensures c.Slots() > 0 ==> c.LogTime(c.Slots() - 1) == c.start + c.Slots() * (c.interval * c.second)
    ensures c.duration % c.interval == 0 ==>
              c.Slots() * (c.interval * c.second) == c.duration * c.second
    ensures c.duration % c.interval != 0 ==>
              c.Slots() * (c.interval * c.second) < c.duration * c.second
  {
    var n, i, s, d := c.Slots(), c.interval, c.second, c.duration;
    assert d == n * i + d % i;
    assert n * (i * s) == (n * i) * s;
    assert d * s == (n * i) * s + (d % i) * s;
  }

  lemma LogTimesGrow(c: Config, m: nat, n: nat)
    requires m <= n
    ensures c.start <= c.LogTime(m) <= c.LogTime(n)
  {
    Grow(m + 1, n + 1, c.interval * c.second);
  }

  lemma Grow(a: nat, b: nat, step: nat)
    requires a <= b
    ensures 0 <= a * step <= b * step
  {
  }

  /** A clock that stands still except inside iterations, where it advances to the next log
      time. */
  ghost function Stalling(c: Config, n: nat): (its: seq<Iteration>)
    ensures |its| == n
  {
    seq(n, k requires 0 <= k < n =>
      Iteration(if k == 0 then c.start else c.LogTime(k - 1), false, c.LogTime(k)))
  }

  lemma StallingMonotone(c: Config, n: nat)
    ensures Monotone(c, Stalling(c, n))
  {
    var its := Stalling(c, n);
    forall k | 0 <= k < n ensures c.start <= its[k].guard <= its[k].check {
      LogTimesGrow(c, if k == 0 then 0 else k - 1, k);
    }
    forall j, k | 0 <= j < k < n ensures its[j].check <= its[k].guard {
      LogTimesGrow(c, j, k - 1);
    }
  }

  /** When the interval does not divide the duration, the last log time within the vector
      leaves time for one more iteration. */
  lemma StillRunning(c: Config, n: nat)
    requires c.Sensible() && c.duration % c.interval != 0 && n < c.Slots()
    ensures c.LogTime(n) >= c.start && c.Running(c.LogTime(n))
  {
    Product(c);
    LogTimesGrow(c, n, c.Slots() - 1);
    RunningMeans(c, c.LogTime(n));
  }

  lemma EachWrites(c: Config, n: nat, k: nat)
    requires c.Sensible() && c.duration % c.interval != 0 && k < n && k <= c.Slots()
    ensures Stalling(c, n)[k].guard >= c.start && Writes(c, Stalling(c, n)[k], k)
  {
    if k > 0 { StillRunning(c, k - 1); } else { RunningMeans(c, c.start); }
  }

  lemma {:induction false} StallingOverruns(c: Config, n: nat)
    requires c.Sensible() && c.duration % c.interval != 0 && n <= c.Slots() + 1
    ensures Monotone(c, Stalling(c, n)) && Wanted(c, Stalling(c, n)) == n
  {
    StallingMonotone(c, n);
    if n > 0 {
      StallingOverruns(c, n - 1);
      EachWrites(c, n, n - 1);
      OneMore(c, Stalling(c, n), n - 1, 0);
      var its := Stalling(c, n);
      assert its[..n - 1] == Stalling(c, n - 1) && its[..n - 1 + 1] == its;
    }
  }

  /** No clock makes the log overrun its slots if and only if the interval divides the
      duration. */
  lemma SafeIffDivides(c: Config)
    requires c.Sensible()
    ensures (forall its :: Monotone(c, its) ==> Wanted(c, its) <= c.Slots())
            <==> c.duration % c.interval == 0
  {
    if c.duration % c.interval == 0 {
      forall its | Monotone(c, its) ensures Wanted(c, its) <= c.Slots() {
        EnoughSlots(c, its);
      }
    } else {
      StallingOverruns(c, c.Slots() + 1);
    }
  }

  /** Once the guard has failed nothing more is written or counted. */
  lemma {:induction false} NothingAfter(c: Config, its: seq<Iteration>, k: nat, initialOps: int)
    requires c.Sensible() && Monotone(c, its) && k < |its| && !c.Running(its[k].guard)
    ensures Monotone(c, its[..k])
    ensures Logged(c, its, initialOps) == Logged(c, its[..k], initialOps)
    ensures Wanted(c, its) == Wanted(c, its[..k]) && Counted(c, its) == Counted(c, its[..k])
    decreases |its|
  {
    var n := |its| - 1;
    var rest := its[..n];
    RunningMeans(c, its[k].guard);
    RunningMeans(c, its[n].guard);
    if k < n {
      NothingAfter(c, rest, k, initialOps);
      assert rest[..k] == its[..k];
    }
  }

  lemma {:induction false} MoreWanted(c: Config, its: seq<Iteration>, k: nat)
    requires c.Sensible() && Monotone(c, its) && k <= |its|
    ensures Monotone(c, its[..k]) && Wanted(c, its) >= Wanted(c, its[..k])
    decreases |its|
  {
    if k == |its| {
      assert its[..k] == its;
    } else {
      var rest := its[..|its| - 1];
      MoreWanted(c, rest, k);
      assert rest[..k] == its[..k];
    }
  }

  /** What one iteration does to the log: nothing if it is skipped, a count if its second
      reading is before the next log time, and otherwise a count and an entry. */
  lemma OneIteration(c: Config, its: seq<Iteration>, k: nat, initialOps: int)
    requires c.Sensible() && Monotone(c, its) && k < |its| && c.Running(its[k].guard)
    ensures Monotone(c, its[..k]) && Monotone(c, its[..k + 1])
    ensures var n, ops := Wanted(c, its[..k]), initialOps + Counted(c, its[..k]);
            var log := Logged(c, its[..k], initialOps);
            var n', ops' := Wanted(c, its[..k + 1]), initialOps + Counted(c, its[..k + 1]);
            var log' := Logged(c, its[..k + 1], initialOps);
            if its[k].skipped then n' == n && ops' == ops && log' == log
            else if its[k].check < c.LogTime(n) then n' == n && ops' == ops + 1 && log' == log
            else n' == n + 1 && ops' == ops + 1 && log' == log + [ops + 1]
  {
    OneMore(c, its, k, initialOps);
  }

  /** Once the guard fails, or the readings end, the log is complete. */
  lemma Complete(c: Config, its: seq<Iteration>, k: nat, initialOps: int)
    requires c.Sensible() && Monotone(c, its) && k <= |its|
    requires k < |its| ==> !c.Running(its[k].guard)
    ensures Monotone(c, its[..k])
    ensures Wanted(c, its) == Wanted(c, its[..k]) && Counted(c, its) == Counted(c, its[..k])
    ensures Logged(c, its, initialOps) == Logged(c, its[..k], initialOps)
  {
    if k < |its| {
      NothingAfter(c, its, k, initialOps);
    } else {
      assert its[..k] == its;
    }
  }

  /** The measured loop. It runs until the guard fails, or until the given readings end, and
      stops at the first write outside the vector. `ops` starts at an arbitrary value, since
      the source does not initialise it. */
  method RunLoop(c: Config, its: seq<Iteration>, localOps: array<int>, initialOps: int)
    returns (ops: int, intervalIdx: nat, inBounds: bool)
    requires c.Sensible() && Monotone(c, its)
    requires localOps.Length == c.Slots() && forall i :: 0 <= i < localOps.Length ==> localOps[i] == 0
    modifies localOps
    ensures inBounds <==> Wanted(c, its) <= c.Slots()
    ensures inBounds ==> intervalIdx == Wanted(c, its) <= localOps.Length && ops == initialOps + Counted(c, its)
    ensures forall i :: intervalIdx <= i < localOps.Length ==> localOps[i] == 0
    ensures inBounds ==> localOps[..intervalIdx] == Logged(c, its, initialOps)
  {
    ops, intervalIdx, inBounds := initialOps, 0, true;
    LogTimes(c, 0);
    var nextLogTime := c.start + c.interval * c.second;
    var k := 0;
    while k < |its| && c.Running(its[k].guard)
      invariant 0 <= k <= |its|
      invariant nextLogTime == c.LogTime(intervalIdx)
      invariant intervalIdx == Wanted(c, its[..k]) <= localOps.Length
      invariant ops == initialOps + Counted(c, its[..k])
      invariant forall i :: intervalIdx <= i < localOps.Length ==> localOps[i] == 0
      invariant localOps[..intervalIdx] == Logged(c, its[..k], initialOps)
    {
      var it := its[k];
      OneIteration(c, its, k, initialOps);
      LogTimes(c, intervalIdx);
      if it.skipped {
        k := k + 1;
        continue;
      }
      ops := ops + 1;
      if it.check >= nextLogTime {
        if intervalIdx >= localOps.Length {
          MoreWanted(c, its, k + 1);
          return ops, intervalIdx, false;
        }
        localOps[intervalIdx] := ops;
        intervalIdx := intervalIdx + 1;
        nextLogTime := nextLogTime + c.interval * c.second;
      }
      k := k + 1;
    }
    Complete(c, its, k, initialOps);
  }
}
