/** The harness against the clock: the transitions of `Harness` with the readings that
    decide them, two per iteration (Exprs/Examples/TestSuite.cpp:887-890, 1028-1033). What
    every thread logs is what `IntervalLog` says its readings call for. */
module HarnessClocks {
  import opened TransactionEngine
  import opened Harness
  import HarnessTheorems
  import opened IntervalLog
  import SearchTrees

  type Loop = IntervalLog.Config

  /** `starts[t]` is the reading with which thread `t` enters its loop. */
  datatype Timing = Timing(duration: nat, interval: nat, second: nat, starts: seq<int>) {
    function Of(t: nat): Loop
      requires t < |starts|
    {
      IntervalLog.Config(duration, interval, second, starts[t])
    }
  }

  /** A thread's iterations so far, and the reading in the guard of the one in progress. */
  datatype Watch = Watch(past: seq<Iteration>, guard: int)

  datatype Tick = Tick(event: Event, now: int)

  predicate Fits(cfg: Setup, tm: Timing) {
    && tm.interval > 0 && tm.second > 0
    && cfg.slots == tm.duration / tm.interval && |tm.starts| == |cfg.nodes|
  }

  /** A thread's last reading outside an iteration. */
  function Latest(c: Loop, past: seq<Iteration>): int {
    if past == [] then c.start else past[|past| - 1].check
  }

  /** The event is possible, and the thread's clock decides as the loop does: an iteration
      begins while the guard holds, the loop is left when it fails, and an iteration logs
      exactly if its second reading has reached the next log time. */
  ghost predicate OnTime(cfg: Setup, tm: Timing, s: System, w: seq<Watch>, tick: Tick)
    requires Fits(cfg, tm)
  {
    var e := tick.event;
    && Possible(cfg, s, e) && |w| == |s.lives|
    && var c, past := tm.Of(e.thread), w[e.thread].past;
       match e.act
       case StartJob(_) => c.start <= tick.now && Latest(c, past) <= tick.now && c.Running(tick.now)
       case Quit => c.start <= tick.now && Latest(c, past) <= tick.now && !c.Running(tick.now)
       case Transact(_, logs) =>
         EndsJob(cfg, s, e) ==>
           w[e.thread].guard <= tick.now && (logs <==> tick.now >= c.LogTime(s.counters[e.thread].idx))
       case _ => true
  }

  function WatchAfter(cfg: Setup, s: System, w: Watch, tick: Tick): Watch
    requires Possible(cfg, s, tick.event)
  {
    match tick.event.act
    case StartJob(d) =>
      if Choose(cfg.nodes[tick.event.thread], d).Skip?
      then w.(past := w.past + [Iteration(tick.now, true, tick.now)])
      else w.(guard := tick.now)
    case Transact(_, _) =>
      if EndsJob(cfg, s, tick.event) then w.(past := w.past + [Iteration(w.guard, false, tick.now)])
      else w
    case _ => w
  }

  function WatchesAfter(cfg: Setup, s: System, w: seq<Watch>, tick: Tick): seq<Watch>
    requires Possible(cfg, s, tick.event) && |w| == |s.lives|
  {
    w[tick.event.thread := WatchAfter(cfg, s, w[tick.event.thread], tick)]
  }

  ghost predicate Timed(cfg: Setup, tm: Timing, s: System, w: seq<Watch>, ticks: seq<Tick>)
    requires Fits(cfg, tm)
    decreases |ticks|
  {
    ticks == []
    || (OnTime(cfg, tm, s, w, ticks[0])
        && Timed(cfg, tm, After(cfg, s, ticks[0].event), WatchesAfter(cfg, s, w, ticks[0]), ticks[1..]))
  }

  ghost function Reached(cfg: Setup, tm: Timing, s: System, w: seq<Watch>, ticks: seq<Tick>)
    : (System, seq<Watch>)
    requires Fits(cfg, tm) && Timed(cfg, tm, s, w, ticks)
    decreases |ticks|
  {
    if ticks == [] then (s, w)
    else
      Reached(cfg, tm, After(cfg, s, ticks[0].event), WatchesAfter(cfg, s, w, ticks[0]), ticks[1..])
  }

  function Watches(n: nat): seq<Watch> {
    seq(n, _ => Watch([], 0))
  }

  function Events(ticks: seq<Tick>): seq<Event> {
    seq(|ticks|, i requires 0 <= i < |ticks| => ticks[i].event)
  }

  /** Without the readings a timed run is a run of the harness. */
  lemma {:induction false} TimedRunHappens(cfg: Setup, tm: Timing, s: System, w: seq<Watch>,
                                           ticks: seq<Tick>)
    requires Fits(cfg, tm) && Timed(cfg, tm, s, w, ticks)
    ensures CanHappen(cfg, s, Events(ticks))
    ensures Reached(cfg, tm, s, w, ticks).0 == Happen(cfg, s, Events(ticks))
    decreases |ticks|
  {
    if ticks != [] {
      TimedRunHappens(cfg, tm, After(cfg, s, ticks[0].event), WatchesAfter(cfg, s, w, ticks[0]),
                      ticks[1..]);
      assert Events(ticks)[1..] == Events(ticks[1..]);
    }
  }

  // ---------- One thread's counter and clock ----------

  /** The thread has counted and logged what the readings of its iterations call for. */
  ghost predicate Tracks(c: Loop, ops0: int, w: Watch, k: Counter, idle: bool) {
    && c.Sensible() && Monotone(c, w.past)
    && k.idx == Wanted(c, w.past) <= |k.local|
    && k.ops == ops0 + Counted(c, w.past)
    && k.local[..k.idx] == Logged(c, w.past, ops0)
    && (!idle ==> c.start <= w.guard && Latest(c, w.past) <= w.guard && c.Running(w.guard))
  }

  lemma Extended(c: Loop, its: seq<Iteration>, it: Iteration)
    requires Monotone(c, its) && c.start <= it.guard <= it.check && Latest(c, its) <= it.guard
    ensures Monotone(c, its + [it])
  {
  }

  lemma SkipTracks(c: Loop, ops0: int, w: Watch, k: Counter, now: int)
    requires Tracks(c, ops0, w, k, true) && c.start <= now && Latest(c, w.past) <= now
    ensures Tracks(c, ops0, w.(past := w.past + [Iteration(now, true, now)]), k, true)
  {
    var its := w.past + [Iteration(now, true, now)];
    Extended(c, w.past, Iteration(now, true, now));
    assert its[..|its| - 1] == w.past;
  }

  lemma JobTracks(c: Loop, ops0: int, w: Watch, k: Counter, now: int)
    requires Tracks(c, ops0, w, k, false) && w.guard <= now
    requires now >= c.LogTime(k.idx) ==> k.idx < |k.local|
    ensures var k' := if now >= c.LogTime(k.idx)
                      then Counter(k.ops + 1, k.idx + 1, k.local[k.idx := k.ops + 1])
                      else k.(ops := k.ops + 1);
            Tracks(c, ops0, w.(past := w.past + [Iteration(w.guard, false, now)]), k', true)
  {
    var its := w.past + [Iteration(w.guard, false, now)];
    Extended(c, w.past, Iteration(w.guard, false, now));
    assert its[..|its| - 1] == w.past;
    if now >= c.LogTime(k.idx) {
      var local' := k.local[k.idx := k.ops + 1];
      assert local'[..k.idx + 1] == k.local[..k.idx] + [k.ops + 1];
    }
  }

  // ---------- All threads ----------

  ghost predicate AllTrack(cfg: Setup, tm: Timing, ops0: seq<int>, s: System, w: seq<Watch>)
    requires Fits(cfg, tm)
  {
    && Sized(cfg, s) && |w| == |s.lives| == |ops0|
    && forall t :: 0 <= t < |w| ==>
         Tracks(tm.Of(t), ops0[t], w[t], s.counters[t], s.engine.phases[t].Idle?)
  }

  lemma ActorTracks(cfg: Setup, tm: Timing, ops0: seq<int>, s: System, w: seq<Watch>, tick: Tick)
    requires Fits(cfg, tm) && AllTrack(cfg, tm, ops0, s, w) && OnTime(cfg, tm, s, w, tick)
    ensures var t := tick.event.thread;
      && t < |EngineAfter(cfg, s, tick.event).phases|
      && Tracks(tm.Of(t), ops0[t], WatchAfter(cfg, s, w[t], tick), CounterAfter(cfg, s, tick.event),
                EngineAfter(cfg, s, tick.event).phases[t].Idle?)
  {
    var e, t := tick.event, tick.event.thread;
    HarnessTheorems.EngineFrame(cfg, s, e);
    assert Tracks(tm.Of(t), ops0[t], w[t], s.counters[t], s.engine.phases[t].Idle?);
    match e.act
    case StartJob(d) =>
      if Choose(cfg.nodes[t], d).Skip? {
        SkipTracks(tm.Of(t), ops0[t], w[t], s.counters[t], tick.now);
      }
    case Transact(_, logs) =>
      if EndsJob(cfg, s, e) {
        JobTracks(tm.Of(t), ops0[t], w[t], s.counters[t], tick.now);
      }
    case _ =>
  }

  lemma TracksPreserved(cfg: Setup, tm: Timing, ops0: seq<int>, s: System, w: seq<Watch>, tick: Tick)
    requires Fits(cfg, tm) && AllTrack(cfg, tm, ops0, s, w) && OnTime(cfg, tm, s, w, tick)
    ensures AllTrack(cfg, tm, ops0, After(cfg, s, tick.event), WatchesAfter(cfg, s, w, tick))
  {
    HarnessTheorems.SizedPreserved(cfg, s, tick.event);
    HarnessTheorems.EngineFrame(cfg, s, tick.event);
    ActorTracks(cfg, tm, ops0, s, w, tick);
    var s', w' := After(cfg, s, tick.event), WatchesAfter(cfg, s, w, tick);
    forall u | 0 <= u < |w'|
      ensures Tracks(tm.Of(u), ops0[u], w'[u], s'.counters[u], s'.engine.phases[u].Idle?)
    {
      if u != tick.event.thread {
        assert Tracks(tm.Of(u), ops0[u], w[u], s.counters[u], s.engine.phases[u].Idle?);
      }
    }
  }

  lemma {:induction false} TracksAlong(cfg: Setup, tm: Timing, ops0: seq<int>, s: System,
                                       w: seq<Watch>, ticks: seq<Tick>)
    requires Fits(cfg, tm) && AllTrack(cfg, tm, ops0, s, w) && Timed(cfg, tm, s, w, ticks)
    ensures AllTrack(cfg, tm, ops0, Reached(cfg, tm, s, w, ticks).0, Reached(cfg, tm, s, w, ticks).1)
    decreases |ticks|
  {
    if ticks != [] {
      TracksPreserved(cfg, tm, ops0, s, w, ticks[0]);
      TracksAlong(cfg, tm, ops0, After(cfg, s, ticks[0].event), WatchesAfter(cfg, s, w, ticks[0]),
                  ticks[1..]);
    }
  }

  // ---------- Main results ----------

  /** A run from the launch under the clocks. */
  ghost predicate TimedLaunch(cfg: Setup, tm: Timing, o: HarnessTheorems.Origin, count: nat,
                              ticks: seq<Tick>)
  {
    && Fits(cfg, tm) && HarnessTheorems.LaunchOk(cfg, o, count)
    && Timed(cfg, tm, Launch(cfg, o.init, count, o.ops, o.totals), Watches(|cfg.nodes|), ticks)
  }

  ghost function Outcome(cfg: Setup, tm: Timing, o: HarnessTheorems.Origin, count: nat,
                         ticks: seq<Tick>): (System, seq<Watch>)
    requires TimedLaunch(cfg, tm, o, count, ticks)
  {
    Reached(cfg, tm, Launch(cfg, o.init, count, o.ops, o.totals), Watches(|cfg.nodes|), ticks)
  }

  lemma OutcomeTracks(cfg: Setup, tm: Timing, o: HarnessTheorems.Origin, count: nat, ticks: seq<Tick>)
    requires TimedLaunch(cfg, tm, o, count, ticks)
    ensures AllTrack(cfg, tm, o.ops, Outcome(cfg, tm, o, count, ticks).0,
                     Outcome(cfg, tm, o, count, ticks).1)
  {
    var s0, w0 := Launch(cfg, o.init, count, o.ops, o.totals), Watches(|cfg.nodes|);
    forall t | 0 <= t < |w0|
      ensures Tracks(tm.Of(t), o.ops[t], w0[t], s0.counters[t], s0.engine.phases[t].Idle?)
    {
      assert s0.counters[t].local[..0] == [];
    }
    TracksAlong(cfg, tm, o.ops, s0, w0, ticks);
  }

  lemma OutcomeCounts(cfg: Setup, tm: Timing, o: HarnessTheorems.Origin, count: nat, ticks: seq<Tick>)
    requires TimedLaunch(cfg, tm, o, count, ticks)
    ensures var s := Outcome(cfg, tm, o, count, ticks).0;
            Sized(cfg, s) && HarnessTheorems.OpsInv(cfg, o.ops, s)
  {
    var s0 := Launch(cfg, o.init, count, o.ops, o.totals);
    TimedRunHappens(cfg, tm, s0, Watches(|cfg.nodes|), ticks);
    HarnessTheorems.WholeAtLaunch(cfg, o, count);
    HarnessTheorems.WholeAlong(cfg, o, s0, Events(ticks));
  }

  lemma LogThenZeros(c: Loop, ops0: int, w: Watch, k: Counter, begun: nat, idle: bool)
    requires Tracks(c, ops0, w, k, idle)
    requires HarnessTheorems.CountsJobs(|k.local|, ops0, k, begun, idle)
    ensures var log := Logged(c, w.past, ops0);
            |log| <= |k.local| && k.local == log + seq(|k.local| - |log|, _ => 0)
  {
    var log := Logged(c, w.past, ops0);
    assert k.local == k.local[..k.idx] + k.local[k.idx..];
    assert k.local[k.idx..] == seq(|k.local| - |log|, _ => 0);
  }

  /** At every moment of every timed run, each thread's counter vector holds the log of the
      measured loop on that thread's readings, followed by zeros. */
  lemma LogsFollowTheClock(cfg: Setup, tm: Timing, o: HarnessTheorems.Origin, count: nat,
                           ticks: seq<Tick>, t: nat)
    requires TimedLaunch(cfg, tm, o, count, ticks) && t < |cfg.nodes|
    ensures var (s, w) := Outcome(cfg, tm, o, count, ticks);
      && |w| == |s.counters| == |cfg.nodes| && Monotone(tm.Of(t), w[t].past)
      && s.counters[t].ops == o.ops[t] + Counted(tm.Of(t), w[t].past)
      && var log := Logged(tm.Of(t), w[t].past, o.ops[t]);
         |log| <= cfg.slots
         && s.counters[t].local == log + seq(cfg.slots - |log|, _ => 0)
  {
    OutcomeTracks(cfg, tm, o, count, ticks);
    OutcomeCounts(cfg, tm, o, count, ticks);
    var (s, w) := Outcome(cfg, tm, o, count, ticks);
    LogThenZeros(tm.Of(t), o.ops[t], w[t], s.counters[t], |s.engine.begun[t]|,
                 s.engine.phases[t].Idle?);
  }

  /** A thread of the run can release its last mutex, and reads the clock at `now`. */
  ghost predicate EndsIteration(cfg: Setup, tm: Timing, o: HarnessTheorems.Origin, count: nat,
                                ticks: seq<Tick>, e: Event, now: int)
  {
    && TimedLaunch(cfg, tm, o, count, ticks)
    && var (s, w) := Outcome(cfg, tm, o, count, ticks);
       && Possible(cfg, s, e) && EndsJob(cfg, s, e)
       && |w| == |s.lives| && w[e.thread].guard <= now
  }

  /** The event that the clock asks for is possible: if an entry is due, there is a slot. */
  ghost predicate InBounds(cfg: Setup, tm: Timing, o: HarnessTheorems.Origin, count: nat,
                           ticks: seq<Tick>, e: Event, now: int)
    requires EndsIteration(cfg, tm, o, count, ticks, e, now)
  {
    var (s, w) := Outcome(cfg, tm, o, count, ticks);
    var logs := now >= tm.Of(e.thread).LogTime(s.counters[e.thread].idx);
    OnTime(cfg, tm, s, w, Tick(e.(act := e.act.(logs := logs)), now))
  }

  /** If the interval divides the duration, no thread of any timed run ever reaches the end
      of its vector. */
  lemma NoOverrun(cfg: Setup, tm: Timing, o: HarnessTheorems.Origin, count: nat, ticks: seq<Tick>,
                  e: Event, now: int)
    requires EndsIteration(cfg, tm, o, count, ticks, e, now) && tm.duration % tm.interval == 0
    ensures InBounds(cfg, tm, o, count, ticks, e, now)
  {
    OutcomeTracks(cfg, tm, o, count, ticks);
    var (s, w) := Outcome(cfg, tm, o, count, ticks);
    var c, k, past := tm.Of(e.thread), s.counters[e.thread], w[e.thread].past;
    assert Tracks(c, o.ops[e.thread], w[e.thread], k, s.engine.phases[e.thread].Idle?);
    if now >= c.LogTime(k.idx) {
      var it := Iteration(w[e.thread].guard, false, now);
      Extended(c, past, it);
      assert (past + [it])[..|past|] == past;
      EnoughSlots(c, past + [it]);
      assert k.idx < cfg.slots;
    }
  }

  // ---------- A run that overruns ----------

  const JOB := Lookup(Slot(0, 0), 0)

  const DRAW := Draw(1, 0, 0, 0, 1, 0)

  /** One thread that looks up key 0 in the one tree of its pool. */
  function Alone(tm: Timing): Setup
    requires tm.interval > 0
  {
    Setup(TransactionEngine.Config(1, 0), [0], tm.duration / tm.interval)
  }

  function AloneFrom(slots: nat): HarnessTheorems.Origin {
    HarnessTheorems.Origin(map[Slot(0, 0) := SearchTrees.Leaf, Slot(1, 0) := SearchTrees.Leaf], [0],
                           [seq(slots, _ => 0), seq(slots, _ => 0)])
  }

  /** The clock stands still except inside iterations, as in `Stalling`. */
  function GuardReading(c: Loop, j: nat): int {
    if j == 0 then c.start else c.LogTime(j - 1)
  }

  /** The thread has written `j` entries and is at `phase` of its next job. */
  ghost predicate At(cfg: Setup, c: Loop, s: System, w: seq<Watch>, j: nat, phase: Phase) {
    && Sized(cfg, s) && s.lives == [Working] && s.engine.phases == [phase]
    && s.engine.owner == (if phase.Idle? || phase.Acquiring? then map[] else map[Slot(0, 0) := 0])
    && s.counters[0].idx == j && |w| == 1 && w[0].past == Stalling(c, j)
    && (!phase.Idle? ==> w[0].guard == GuardReading(c, j))
  }

  /** A setting in which the interval does not divide the duration. */
  predicate Uneven(tm: Timing) {
    tm.interval > 0 && tm.second > 0 && tm.duration % tm.interval != 0 && |tm.starts| == 1
  }

  lemma Begins(tm: Timing, s: System, w: seq<Watch>, j: nat)
    requires Uneven(tm) && j <= tm.duration / tm.interval && At(Alone(tm), tm.Of(0), s, w, j, Idle)
    ensures var tick := Tick(Event(0, StartJob(DRAW)), GuardReading(tm.Of(0), j));
      && OnTime(Alone(tm), tm, s, w, tick)
      && At(Alone(tm), tm.Of(0), After(Alone(tm), s, tick.event), WatchesAfter(Alone(tm), s, w, tick), j,
            Acquiring(JOB, 0))
  {
    EachWrites(tm.Of(0), j + 1, j);
  }

  lemma Acquires(tm: Timing, s: System, w: seq<Watch>, j: nat)
    requires Uneven(tm) && At(Alone(tm), tm.Of(0), s, w, j, Acquiring(JOB, 0))
    ensures var tick := Tick(Event(0, Transact(Acquire, false)), 0);
      && OnTime(Alone(tm), tm, s, w, tick)
      && At(Alone(tm), tm.Of(0), After(Alone(tm), s, tick.event), WatchesAfter(Alone(tm), s, w, tick), j,
            Locked(JOB, |s.engine.log|))
  {
  }

  lemma Works(tm: Timing, s: System, w: seq<Watch>, j: nat, e: nat)
    requires Uneven(tm) && At(Alone(tm), tm.Of(0), s, w, j, Locked(JOB, e))
    ensures var tick := Tick(Event(0, Transact(Work, false)), 0);
      && OnTime(Alone(tm), tm, s, w, tick)
      && At(Alone(tm), tm.Of(0), After(Alone(tm), s, tick.event), WatchesAfter(Alone(tm), s, w, tick), j,
            Unlocking(JOB, e, 0))
  {
  }

  lemma Logs(tm: Timing, s: System, w: seq<Watch>, j: nat, e: nat)
    requires Uneven(tm) && j < tm.duration / tm.interval
    requires At(Alone(tm), tm.Of(0), s, w, j, Unlocking(JOB, e, 0))
    ensures var tick := Tick(Event(0, Transact(Unlock, true)), tm.Of(0).LogTime(j));
      && OnTime(Alone(tm), tm, s, w, tick)
      && At(Alone(tm), tm.Of(0), After(Alone(tm), s, tick.event), WatchesAfter(Alone(tm), s, w, tick), j + 1,
            Idle)
  {
    var c := tm.Of(0);
    LogTimesGrow(c, if j == 0 then 0 else j - 1, j);
    assert Stalling(c, j + 1) == Stalling(c, j) + [Iteration(GuardReading(c, j), false, c.LogTime(j))];
  }

  lemma {:induction false} TimedSnoc(cfg: Setup, tm: Timing, s: System, w: seq<Watch>, ticks: seq<Tick>,
                                     tick: Tick)
    requires Fits(cfg, tm) && Timed(cfg, tm, s, w, ticks)
    requires var (s', w') := Reached(cfg, tm, s, w, ticks); OnTime(cfg, tm, s', w', tick)
    ensures Timed(cfg, tm, s, w, ticks + [tick])
    ensures var (s', w') := Reached(cfg, tm, s, w, ticks);
      Reached(cfg, tm, s, w, ticks + [tick])
        == (After(cfg, s', tick.event), WatchesAfter(cfg, s', w', tick))
    decreases |ticks|
  {
    if ticks == [] {
      assert ([] + [tick])[1..] == [];
    } else {
      TimedSnoc(cfg, tm, After(cfg, s, ticks[0].event), WatchesAfter(cfg, s, w, ticks[0]), ticks[1..], tick);
      assert (ticks + [tick])[1..] == ticks[1..] + [tick];
    }
  }

  /** A run of the lone thread that brings it to `phase` of the job after `j` entries. */
  ghost predicate Brings(tm: Timing, ticks: seq<Tick>, j: nat, phase: Phase)
    requires Uneven(tm)
  {
    var cfg, slots := Alone(tm), tm.duration / tm.interval;
    && TimedLaunch(cfg, tm, AloneFrom(slots), 1, ticks)
    && var (s, w) := Outcome(cfg, tm, AloneFrom(slots), 1, ticks);
       At(cfg, tm.Of(0), s, w, j, phase)
  }

  lemma Continues(tm: Timing, ticks: seq<Tick>, j: nat, phase: Phase, tick: Tick, j': nat, phase': Phase)
    requires Uneven(tm) && Brings(tm, ticks, j, phase)
    requires var (s, w) := Outcome(Alone(tm), tm, AloneFrom(tm.duration / tm.interval), 1, ticks);
      && OnTime(Alone(tm), tm, s, w, tick)
      && At(Alone(tm), tm.Of(0), After(Alone(tm), s, tick.event), WatchesAfter(Alone(tm), s, w, tick), j',
            phase')
    ensures Brings(tm, ticks + [tick], j', phase')
  {
    var o := AloneFrom(tm.duration / tm.interval);
    TimedSnoc(Alone(tm), tm, Launch(Alone(tm), o.init, 1, o.ops, o.totals), Watches(1), ticks, tick);
  }

  lemma AloneLaunches(tm: Timing)
    requires Uneven(tm)
    ensures Fits(Alone(tm), tm)
    ensures HarnessTheorems.LaunchOk(Alone(tm), AloneFrom(tm.duration / tm.interval), 1)
  {
    var init := AloneFrom(tm.duration / tm.interval).init;
    forall sl | SlotOk(Alone(tm).engine, sl) ensures sl in init {
      assert sl == Slot(0, 0) || sl == Slot(1, 0);
    }
  }

  lemma Enters(tm: Timing) returns (ticks: seq<Tick>)
    requires Uneven(tm)
    ensures Brings(tm, ticks, 0, Idle)
  {
    AloneLaunches(tm);
    var cfg, o := Alone(tm), AloneFrom(tm.duration / tm.interval);
    var s0, w0 := Launch(cfg, o.init, 1, o.ops, o.totals), Watches(1);
    var arrive, leave := Tick(Event(0, Arrive), 0), Tick(Event(0, Leave), 0);
    assert OnTime(cfg, tm, s0, w0, arrive);
    assert Timed(cfg, tm, s0, w0, []);
    TimedSnoc(cfg, tm, s0, w0, [], arrive);
    var s1, w1 := After(cfg, s0, arrive.event), WatchesAfter(cfg, s0, w0, arrive);
    assert s1.lives == [AtStart(0)] && s1.barrier.generation == 1;
    TimedSnoc(cfg, tm, s0, w0, [] + [arrive], leave);
    var s2, w2 := After(cfg, s1, leave.event), WatchesAfter(cfg, s1, w1, leave);
    ticks := [] + [arrive] + [leave];
    assert s2.lives == [Working] && w2[0].past == Stalling(tm.Of(0), 0);
    assert At(cfg, tm.Of(0), s2, w2, 0, Idle);
  }

  lemma ReachesUnlock(tm: Timing, before: seq<Tick>, j: nat) returns (ticks: seq<Tick>, e: nat)
    requires Uneven(tm) && j <= tm.duration / tm.interval && Brings(tm, before, j, Idle)
    ensures Brings(tm, ticks, j, Unlocking(JOB, e, 0))
  {
    var cfg, o := Alone(tm), AloneFrom(tm.duration / tm.interval);
    var (s, w) := Outcome(cfg, tm, o, 1, before);
    Begins(tm, s, w, j);
    var begin := Tick(Event(0, StartJob(DRAW)), GuardReading(tm.Of(0), j));
    Continues(tm, before, j, Idle, begin, j, Acquiring(JOB, 0));
    ticks, e := AcquiresAndWorks(tm, before + [begin], j);
  }

  lemma AcquiresAndWorks(tm: Timing, before: seq<Tick>, j: nat) returns (ticks: seq<Tick>, e: nat)
    requires Uneven(tm) && Brings(tm, before, j, Acquiring(JOB, 0))
    ensures Brings(tm, ticks, j, Unlocking(JOB, e, 0))
  {
    var cfg, o := Alone(tm), AloneFrom(tm.duration / tm.interval);
    var (s, w) := Outcome(cfg, tm, o, 1, before);
    e := |s.engine.log|;
    Acquires(tm, s, w, j);
    Continues(tm, before, j, Acquiring(JOB, 0), Tick(Event(0, Transact(Acquire, false)), 0), j, Locked(JOB, e));
    var held := before + [Tick(Event(0, Transact(Acquire, false)), 0)];
    var (s', w') := Outcome(cfg, tm, o, 1, held);
    Works(tm, s', w', j, e);
    ticks := held + [Tick(Event(0, Transact(Work, false)), 0)];
    Continues(tm, held, j, Locked(JOB, e), Tick(Event(0, Transact(Work, false)), 0), j, Unlocking(JOB, e, 0));
  }

  lemma {:induction false} Fills(tm: Timing, j: nat) returns (ticks: seq<Tick>)
    requires Uneven(tm) && j <= tm.duration / tm.interval
    ensures Brings(tm, ticks, j, Idle)
  {
    if j == 0 {
      ticks := Enters(tm);
    } else {
      var before := Fills(tm, j - 1);
      var working, e := ReachesUnlock(tm, before, j - 1);
      var (s, w) := Outcome(Alone(tm), tm, AloneFrom(tm.duration / tm.interval), 1, working);
      Logs(tm, s, w, j - 1, e);
      var log := Tick(Event(0, Transact(Unlock, true)), tm.Of(0).LogTime(j - 1));
      Continues(tm, working, j - 1, Unlocking(JOB, e, 0), log, j, Idle);
      ticks := working + [log];
    }
  }

  /** Otherwise one thread with a stalling clock fills its vector and then has to write once
      more. */
  lemma Overruns(tm: Timing) returns (ticks: seq<Tick>, now: int)
    requires Uneven(tm)
    ensures var cfg, o, e := Alone(tm), AloneFrom(tm.duration / tm.interval), Event(0, Transact(Unlock, false));
      EndsIteration(cfg, tm, o, 1, ticks, e, now) && !InBounds(cfg, tm, o, 1, ticks, e, now)
  {
    var slots, c := tm.duration / tm.interval, tm.Of(0);
    var full := Fills(tm, slots);
    var e;
    ticks, e := ReachesUnlock(tm, full, slots);
    now := c.LogTime(slots);
    LogTimesGrow(c, if slots == 0 then 0 else slots - 1, slots);
  }

  /** Over all setups, launches, clocks and interleavings, no log entry is ever written
      outside a vector if and only if the interval divides the duration. */
  lemma NoOverrunIffDivides(duration: nat, interval: nat, second: nat)
    requires interval > 0 && second > 0
    ensures (forall cfg, starts, o, count, ticks, e, now ::
               EndsIteration(cfg, Timing(duration, interval, second, starts), o, count, ticks, e, now) ==>
                 InBounds(cfg, Timing(duration, interval, second, starts), o, count, ticks, e, now))
            <==> duration % interval == 0
  {
    if duration % interval == 0 {
      forall cfg, starts, o, count, ticks, e, now
        | EndsIteration(cfg, Timing(duration, interval, second, starts), o, count, ticks, e, now)
        ensures InBounds(cfg, Timing(duration, interval, second, starts), o, count, ticks, e, now)
      {
        NoOverrun(cfg, Timing(duration, interval, second, starts), o, count, ticks, e, now);
      }
    } else {
      var tm := Timing(duration, interval, second, [0]);
      var ticks, now := Overruns(tm);
    }
  }
}
