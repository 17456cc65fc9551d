/** What holds of whole runs of the transaction engine: conflict serializability, freedom
    from deadlock, bounded completion and the forest invariant. */
module TransactionTheorems {
  import opened SearchTrees
  import opened TransactionEngine
  import opened TransactionInvariants

  // ---------- Serializability ----------

  /** The state in which `log` has been executed one job after the other. */
  function SerialState(init: Forest, threads: nat, log: seq<Entry>): State {
    State(
      Serial(init, log),
      map[],
      seq(threads, _ => Idle),
      log,
      map e: nat | 0 <= e < |log| :: SerialResult(init, log, e),
      seq(threads, t requires t >= 0 => Projection(log, t)))
  }

  /** One job from its first mutex to its last release, with nobody in between. */
  function Alone(x: Entry): seq<Step> {
    match x.job
    case Lookup(_, _) =>
      [Step(x.thread, Begin(x.job)), Step(x.thread, Acquire), Step(x.thread, Work),
       Step(x.thread, Unlock)]
    case Move(_, _, _) =>
      [Step(x.thread, Begin(x.job)), Step(x.thread, Acquire), Step(x.thread, Acquire),
       Step(x.thread, Work), Step(x.thread, Work),
       Step(x.thread, Unlock), Step(x.thread, Unlock)]
  }

  function SerialTrace(log: seq<Entry>): seq<Step> {
    if log == [] then [] else SerialTrace(log[..|log| - 1]) + Alone(log[|log| - 1])
  }

  lemma {:induction false} RunConcat(cfg: Config, s: State, a: seq<Step>, b: seq<Step>)
    requires CanRun(cfg, s, a) && CanRun(cfg, Run(cfg, s, a), b)
    ensures CanRun(cfg, s, a + b) && Run(cfg, s, a + b) == Run(cfg, Run(cfg, s, a), b)
    decreases |a|
  {
    if a == [] {
      assert a + b == b;
    } else {
      RunConcat(cfg, Next(cfg, s, a[0]), a[1..], b);
      assert (a + b)[0] == a[0] && (a + b)[1..] == a[1..] + b;
    }
  }

  lemma RunCons(cfg: Config, s: State, x: Step, rest: seq<Step>)
    requires Enabled(cfg, s, x) && CanRun(cfg, Next(cfg, s, x), rest)
    ensures CanRun(cfg, s, [x] + rest)
    ensures Run(cfg, s, [x] + rest) == Run(cfg, Next(cfg, s, x), rest)
  {
    assert ([x] + rest)[1..] == rest;
  }

  /** The state after `x` alone, from the state `s`. */
  function Applied(s: State, x: Entry): State
    requires x.thread < |s.begun|
  {
    State(Apply(x.job, s.forest), map[], s.phases, s.log + [x],
          s.results[|s.log| := ResultOf(x.job, s.forest)],
          s.begun[x.thread := s.begun[x.thread] + [x.job]])
  }

  lemma AloneLookup(cfg: Config, s: State, x: Entry)
    requires x.thread < |s.phases| == |s.begun| && s.phases[x.thread].Idle?
    requires s.owner == map[] && JobOk(cfg, x.job) && x.job.Lookup?
    ensures CanRun(cfg, s, Alone(x)) && Run(cfg, s, Alone(x)) == Applied(s, x)
  {
    var t := x.thread;
    var s1 := Next(cfg, s, Step(t, Begin(x.job)));
    var s2 := Next(cfg, s1, Step(t, Acquire));
    var s3 := Next(cfg, s2, Step(t, Work));
    var s4 := Next(cfg, s3, Step(t, Unlock));
    assert s4.owner == map[] && s4.phases == s.phases;
    assert s4 == Applied(s, x);
    RunCons(cfg, s3, Step(t, Unlock), []);
    RunCons(cfg, s2, Step(t, Work), [Step(t, Unlock)]);
    RunCons(cfg, s1, Step(t, Acquire), [Step(t, Work), Step(t, Unlock)]);
    RunCons(cfg, s, Step(t, Begin(x.job)), [Step(t, Acquire), Step(t, Work), Step(t, Unlock)]);
  }

  /** The first half of a move run alone: both mutexes are taken. */
  lemma AloneLocks(cfg: Config, s: State, x: Entry)
    requires x.thread < |s.phases| == |s.begun| && s.phases[x.thread].Idle?
    requires s.owner == map[] && JobOk(cfg, x.job) && x.job.Move?
    ensures var trace := [Step(x.thread, Begin(x.job)), Step(x.thread, Acquire), Step(x.thread, Acquire)];
            CanRun(cfg, s, trace) && Run(cfg, s, trace) == BothLocked(s, x)
  {
    var t := x.thread;
    LocksInRankOrder(cfg, x.job);
    var s1 := Next(cfg, s, Step(t, Begin(x.job)));
    var s2 := Next(cfg, s1, Step(t, Acquire));
    var s3 := Next(cfg, s2, Step(t, Acquire));
    assert s3.phases == s.phases[t := Locked(x.job, |s.log|)];
    assert s3 == BothLocked(s, x);
    RunCons(cfg, s2, Step(t, Acquire), []);
    RunCons(cfg, s1, Step(t, Acquire), [Step(t, Acquire)]);
    RunCons(cfg, s, Step(t, Begin(x.job)), [Step(t, Acquire), Step(t, Acquire)]);
  }

  function BothLocked(s: State, x: Entry): State
    requires x.thread < |s.phases| == |s.begun| && x.job.Move?
  {
    State(s.forest, map[Locks(x.job)[0] := x.thread, Locks(x.job)[1] := x.thread],
          s.phases[x.thread := Locked(x.job, |s.log|)], s.log + [x], s.results,
          s.begun[x.thread := s.begun[x.thread] + [x.job]])
  }

  /** The second half: both tree operations and both releases. */
  lemma AloneBody(cfg: Config, s: State, x: Entry)
    requires x.thread < |s.phases| == |s.begun| && s.phases[x.thread].Idle?
    requires JobOk(cfg, x.job) && x.job.Move?
    requires Remove(Get(s.forest, x.job.source), x.job.key).Kept?
    ensures var rest := [Step(x.thread, Work), Step(x.thread, Work),
                         Step(x.thread, Unlock), Step(x.thread, Unlock)];
            CanRun(cfg, BothLocked(s, x), rest) && Run(cfg, BothLocked(s, x), rest) == Applied(s, x)
  {
    var t, s3 := x.thread, BothLocked(s, x);
    LocksInRankOrder(cfg, x.job);
    var s4 := Next(cfg, s3, Step(t, Work));
    var s5 := Next(cfg, s4, Step(t, Work));
    var s6 := Next(cfg, s5, Step(t, Unlock));
    var s7 := Next(cfg, s6, Step(t, Unlock));
    assert s7.owner == map[] && s7.phases == s.phases;
    assert s7 == Applied(s, x);
    RunCons(cfg, s6, Step(t, Unlock), []);
    RunCons(cfg, s5, Step(t, Unlock), [Step(t, Unlock)]);
    RunCons(cfg, s4, Step(t, Work), [Step(t, Unlock), Step(t, Unlock)]);
    RunCons(cfg, s3, Step(t, Work), [Step(t, Work), Step(t, Unlock), Step(t, Unlock)]);
  }

  /** A job run alone applies itself to the forest and records its serial result. */
  lemma AloneApplies(cfg: Config, s: State, x: Entry)
    requires x.thread < |s.phases| == |s.begun| && s.phases[x.thread].Idle?
    requires s.owner == map[] && JobOk(cfg, x.job)
    requires x.job.Move? ==> Remove(Get(s.forest, x.job.source), x.job.key).Kept?
    ensures CanRun(cfg, s, Alone(x)) && Run(cfg, s, Alone(x)) == Applied(s, x)
  {
    var t := x.thread;
    if x.job.Lookup? {
      AloneLookup(cfg, s, x);
    } else {
      var first := [Step(t, Begin(x.job)), Step(t, Acquire), Step(t, Acquire)];
      var rest := [Step(t, Work), Step(t, Work), Step(t, Unlock), Step(t, Unlock)];
      AloneLocks(cfg, s, x);
      AloneBody(cfg, s, x);
      RunConcat(cfg, s, first, rest);
      assert Alone(x) == first + rest;
    }
  }

  ghost predicate LogOk(cfg: Config, threads: nat, log: seq<Entry>) {
    forall e :: 0 <= e < |log| ==> log[e].thread < threads && JobOk(cfg, log[e].job)
  }

  lemma SerialStateSnoc(cfg: Config, init: Forest, threads: nat, log: seq<Entry>, x: Entry)
    requires x.thread < threads
    ensures var s := SerialState(init, threads, log);
      SerialState(init, threads, log + [x]) == Applied(s, x)
  {
    var s, s' := SerialState(init, threads, log), SerialState(init, threads, log + [x]);
    SerialSnoc(init, log, x);
    assert s'.results == s.results[|log| := ResultOf(x.job, s.forest)];
    forall t: nat | t < threads
      ensures s'.begun[t] == s.begun[x.thread := s.begun[x.thread] + [x.job]][t]
    {
      assert s'.begun[t] == Projection(log + [x], t) && s.begun[t] == Projection(log, t);
    }
  }

  /** Removing from a tree of the serial state stays clear of freed memory. */
  lemma SerialRemovalKept(cfg: Config, init: Forest, threads: nat, log: seq<Entry>, sl: Slot, k: int)
    requires InitOk(cfg, init) && SlotOk(cfg, sl) && 0 <= k <= cfg.keyspace
    requires CanRun(cfg, Start(init, threads), SerialTrace(log))
    requires Run(cfg, Start(init, threads), SerialTrace(log)) == SerialState(init, threads, log)
    ensures Remove(Get(SerialState(init, threads, log).forest, sl), k).Kept?
  {
    InvStart(cfg, init, threads);
    InvAlongRun(cfg, init, Start(init, threads), SerialTrace(log));
    TreesStayOk(cfg, Get(SerialState(init, threads, log).forest, sl), k);
  }

  lemma SerialTraceSnoc(cfg: Config, init: Forest, threads: nat, log: seq<Entry>, x: Entry)
    requires InitOk(cfg, init) && x.thread < threads && JobOk(cfg, x.job)
    requires CanRun(cfg, Start(init, threads), SerialTrace(log))
    requires Run(cfg, Start(init, threads), SerialTrace(log)) == SerialState(init, threads, log)
    ensures CanRun(cfg, Start(init, threads), SerialTrace(log + [x]))
    ensures Run(cfg, Start(init, threads), SerialTrace(log + [x])) == SerialState(init, threads, log + [x])
  {
    assert (log + [x])[..|log|] == log;
    assert SerialTrace(log + [x]) == SerialTrace(log) + Alone(x);
    var s := SerialState(init, threads, log);
    if x.job.Move? { SerialRemovalKept(cfg, init, threads, log, x.job.source, x.job.key); }
    AloneApplies(cfg, s, x);
    RunConcat(cfg, Start(init, threads), SerialTrace(log), Alone(x));
    SerialStateSnoc(cfg, init, threads, log, x);
  }

  lemma SerialStateOfNone(init: Forest, threads: nat)
    ensures SerialState(init, threads, []) == Start(init, threads)
  {
    assert SerialState(init, threads, []).begun == Start(init, threads).begun;
  }

  /** The serial trace of any log is a run of the engine, and ends in the serial state. */
  lemma {:induction false} SerialTraceRuns(cfg: Config, init: Forest, threads: nat, log: seq<Entry>)
    requires InitOk(cfg, init) && LogOk(cfg, threads, log)
    ensures CanRun(cfg, Start(init, threads), SerialTrace(log))
    ensures Run(cfg, Start(init, threads), SerialTrace(log)) == SerialState(init, threads, log)
    decreases |log|
  {
    if log == [] {
      SerialStateOfNone(init, threads);
    } else {
      var before, x := log[..|log| - 1], log[|log| - 1];
      assert log == before + [x];
      SerialTraceRuns(cfg, init, threads, before);
      SerialTraceSnoc(cfg, init, threads, before, x);
    }
  }

  lemma SameTreesSameForest(f: Forest, g: Forest)
    requires f.Keys == g.Keys
    requires forall sl :: sl in f ==> Get(f, sl) == Get(g, sl)
    ensures f == g
  {
    forall sl | sl in f ensures f[sl] == g[sl] {
      assert Get(f, sl) == Get(g, sl);
    }
  }

  lemma QuiescentOwnsNothing(s: State)
    requires Ownership(s) && Quiescent(s)
    ensures s.owner == map[]
  {
    assert forall sl :: sl !in s.owner;
  }

  lemma RestForest(init: Forest, s: State)
    requires Values(init, s) && Ownership(s) && Quiescent(s)
    requires s.forest.Keys == Serial(init, s.log).Keys
    ensures s.forest == Serial(init, s.log) && s.owner == map[]
  {
    QuiescentOwnsNothing(s);
    forall sl | sl in s.forest ensures Get(s.forest, sl) == Get(Serial(init, s.log), sl) {
      assert !Pending(s, sl);
    }
    SameTreesSameForest(s.forest, Serial(init, s.log));
  }

  lemma RestResults(init: Forest, s: State)
    requires Answers(init, s) && Quiescent(s)
    ensures s.results == map e: nat | 0 <= e < |s.log| :: SerialResult(init, s.log, e)
  {
  }

  lemma RestBegun(s: State)
    requires ProgramOrder(s) && Quiescent(s)
    ensures s.begun == seq(|s.phases|, t requires t >= 0 => Projection(s.log, t))
  {
    forall t: nat | t < |s.phases| ensures s.begun[t] == Projection(s.log, t) {
      assert s.phases[t].Idle?;
    }
  }

  lemma RestIsSerial(cfg: Config, init: Forest, s: State)
    requires Inv(cfg, init, s) && Quiescent(s)
    ensures s == SerialState(init, |s.phases|, s.log)
  {
    RestForest(init, s);
    RestResults(init, s);
    RestBegun(s);
    assert s.phases == seq(|s.phases|, _ => Idle);
  }

  /** Conflict serializability. Whatever the interleaving, a run that has come to rest is
      in exactly the state that running its jobs one at a time, in the order of their last
      mutex acquisitions, produces: the same forest, the same returned levels, the same
      jobs of each thread in the same program order. That serial order is itself a run of
      the engine. */
  lemma Serializable(cfg: Config, init: Forest, threads: nat, trace: seq<Step>)
    requires InitOk(cfg, init) && CanRun(cfg, Start(init, threads), trace)
    requires Quiescent(Run(cfg, Start(init, threads), trace))
    ensures var s := Run(cfg, Start(init, threads), trace);
      && CanRun(cfg, Start(init, threads), SerialTrace(s.log))
      && s == Run(cfg, Start(init, threads), SerialTrace(s.log))
      && s == SerialState(init, threads, s.log)
  {
    var s := Run(cfg, Start(init, threads), trace);
    InvStart(cfg, init, threads);
    InvAlongRun(cfg, init, Start(init, threads), trace);
    SerialTraceRuns(cfg, init, threads, s.log);
    RestIsSerial(cfg, init, s);
  }

  /** At any moment of any run, a tree whose mutex is free is the tree of the serial run of
      the jobs logged so far, and every result recorded so far is the serial one. */
  lemma FreeTreesAreSerial(cfg: Config, init: Forest, threads: nat, trace: seq<Step>)
    requires InitOk(cfg, init) && CanRun(cfg, Start(init, threads), trace)
    ensures var s := Run(cfg, Start(init, threads), trace);
      && (forall sl :: sl !in s.owner ==> Get(s.forest, sl) == Get(Serial(init, s.log), sl))
      && (forall e :: e in s.results ==>
            e < |s.log| && s.results[e] == SerialResult(init, s.log, e))
  {
    InvStart(cfg, init, threads);
    InvAlongRun(cfg, init, Start(init, threads), trace);
  }

  /** At any moment of any run every tree is ordered, free of duplicates and within the
      keyspace, and a completed insertion's key is in its destination until the
      destination's mutex is released. */
  lemma ForestStaysOrdered(cfg: Config, init: Forest, threads: nat, trace: seq<Step>)
    requires InitOk(cfg, init) && CanRun(cfg, Start(init, threads), trace)
    ensures var s := Run(cfg, Start(init, threads), trace);
      && ForestOk(cfg, s.forest)
      && forall t | 0 <= t < |s.phases| && s.phases[t].Unlocking? && s.phases[t].job.Move?
                    && s.phases[t].job.dest in Held(s.phases[t]) ::
           s.phases[t].job.key in Keys(Get(s.forest, s.phases[t].job.dest))
  {
    InvStart(cfg, init, threads);
    InvAlongRun(cfg, init, Start(init, threads), trace);
  }

  // ---------- Deadlock freedom ----------

  /** While some thread is in flight, some thread in flight can step: follow the owners of
      wanted mutexes upwards in rank until one is not waiting. */
  lemma {:induction false} SomeoneCanStep(cfg: Config, init: Forest, s: State, t: nat)
    returns (step: Step)
    requires Inv(cfg, init, s) && t < |s.phases| && !s.phases[t].Idle?
    ensures !step.action.Begin? && Enabled(cfg, s, step)
    decreases if s.phases[t].Acquiring? && s.phases[t].held < |Locks(s.phases[t].job)|
              then 2 * cfg.numTrees - Rank(cfg, Locks(s.phases[t].job)[s.phases[t].held])
              else 0
  {
    var p := s.phases[t];
    assert PhaseOk(cfg, s.log, t, p);
    match p
    case Locked(job, _) =>
      if job.Move? { TreesStayOk(cfg, Get(s.forest, job.source), job.key); }
      step := Step(t, Work);
    case Removed(_, _) => step := Step(t, Work);
    case Unlocking(_, _, _) => step := Step(t, Unlock);
    case Acquiring(job, h) =>
      var wanted := Locks(job)[h];
      if wanted !in s.owner {
        step := Step(t, Acquire);
      } else {
        var u := s.owner[wanted];
        assert Holds(s, u, wanted);
        OwnerIsHigher(cfg, s, u, wanted);
        LocksInRankOrder(cfg, job);
        RankBound(cfg, wanted);
        step := SomeoneCanStep(cfg, init, s, u);
      }
  }

  lemma RankBound(cfg: Config, sl: Slot)
    requires SlotOk(cfg, sl)
    ensures Rank(cfg, sl) < 2 * cfg.numTrees
  {
  }

  /** A thread that holds a mutex waits, if at all, for one of higher rank. */
  lemma OwnerIsHigher(cfg: Config, s: State, u: nat, sl: Slot)
    requires Shape(cfg, s) && Holds(s, u, sl)
    ensures !s.phases[u].Idle?
    ensures s.phases[u].Acquiring? ==>
              var job, h := s.phases[u].job, s.phases[u].held;
              h < |Locks(job)| && Rank(cfg, sl) < Rank(cfg, Locks(job)[h])
              && Rank(cfg, Locks(job)[h]) < 2 * cfg.numTrees
  {
    var p := s.phases[u];
    assert PhaseOk(cfg, s.log, u, p);
    if p.Acquiring? {
      LocksInRankOrder(cfg, p.job);
      RankBound(cfg, Locks(p.job)[p.held]);
      var i :| 0 <= i < p.held && Locks(p.job)[..p.held][i] == sl;
    }
  }

  /** No run can deadlock: in every reachable state with a job in flight some step that
      starts no new job is enabled. */
  lemma NoDeadlock(cfg: Config, init: Forest, threads: nat, trace: seq<Step>)
    requires InitOk(cfg, init) && CanRun(cfg, Start(init, threads), trace)
    requires !Quiescent(Run(cfg, Start(init, threads), trace))
    ensures exists step: Step :: !step.action.Begin?
              && Enabled(cfg, Run(cfg, Start(init, threads), trace), step)
  {
    var s := Run(cfg, Start(init, threads), trace);
    InvStart(cfg, init, threads);
    InvAlongRun(cfg, init, Start(init, threads), trace);
    var t: nat :| t < |s.phases| && !s.phases[t].Idle?;
    var step := SomeoneCanStep(cfg, init, s, t);
  }

  // ---------- Bounded completion ----------

  function WorkSteps(job: Job): nat {
    if job.Lookup? then 1 else 2
  }

  /** The steps a thread still needs to come to rest. */
  function Remaining(p: Phase): nat {
    match p
    case Idle => 0
    case Acquiring(job, h) =>
      (if h <= |Locks(job)| then |Locks(job)| - h else 0) + WorkSteps(job) + |Locks(job)|
    case Locked(job, _) => WorkSteps(job) + |Locks(job)|
    case Removed(job, _) => 1 + |Locks(job)|
    case Unlocking(job, _, r) => if r <= |Locks(job)| then |Locks(job)| - r else 0
  }

  function Measure(phases: seq<Phase>): nat {
    if phases == [] then 0 else Remaining(phases[0]) + Measure(phases[1..])
  }

  lemma {:induction false} MeasureUpdate(phases: seq<Phase>, t: nat, p: Phase)
    requires t < |phases|
    ensures Measure(phases[t := p]) == Measure(phases) - Remaining(phases[t]) + Remaining(p)
    decreases |phases|
  {
    if t == 0 {
      assert phases[0 := p][1..] == phases[1..];
    } else {
      MeasureUpdate(phases[1..], t - 1, p);
      assert phases[t := p][1..] == phases[1..][t - 1 := p];
    }
  }

  /** Every step that starts no job brings the run exactly one step nearer to rest. */
  lemma StepCounts(cfg: Config, s: State, step: Step)
    requires Shape(cfg, s) && Enabled(cfg, s, step) && !step.action.Begin?
    ensures Measure(Next(cfg, s, step).phases) == Measure(s.phases) - 1
  {
    var s', t := Next(cfg, s, step), step.thread;
    assert PhaseOk(cfg, s.log, t, s.phases[t]);
    assert s'.phases == s.phases[t := s'.phases[t]];
    MeasureUpdate(s.phases, t, s'.phases[t]);
  }

  predicate StartsNothing(trace: seq<Step>) {
    forall i :: 0 <= i < |trace| ==> !trace[i].action.Begin?
  }

  lemma {:induction false} MeasureZeroIffQuiescent(cfg: Config, s: State, phases: seq<Phase>, from: nat)
    requires Shape(cfg, s) && from <= |s.phases| && phases == s.phases[from..]
    ensures Measure(phases) == 0 <==> forall t :: from <= t < |s.phases| ==> s.phases[t].Idle?
    decreases |phases|
  {
    if phases != [] {
      MeasureZeroIffQuiescent(cfg, s, phases[1..], from + 1);
      assert PhaseOk(cfg, s.log, from, s.phases[from]);
      LocksNonempty(cfg, s.phases[from]);
      assert phases[0] == s.phases[from];
    }
  }

  lemma LocksNonempty(cfg: Config, p: Phase)
    requires p.Unlocking? ==> p.released < |Locks(p.job)|
    ensures Remaining(p) == 0 <==> p.Idle?
  {
  }

  /** If no thread starts a new job, the run from any reachable state is over after exactly
      `Measure` steps: no such run is longer, and one that is shorter can be continued. */
  lemma {:induction false} BoundedCompletion(cfg: Config, init: Forest, s: State, trace: seq<Step>)
    requires Inv(cfg, init, s) && CanRun(cfg, s, trace) && StartsNothing(trace)
    ensures |trace| <= Measure(s.phases)
    ensures |trace| == Measure(s.phases) <==> Quiescent(Run(cfg, s, trace))
    decreases |trace|
  {
    if trace == [] {
      MeasureZeroIffQuiescent(cfg, s, s.phases, 0);
    } else {
      InvPreserved(cfg, init, s, trace[0]);
      StepCounts(cfg, s, trace[0]);
      BoundedCompletion(cfg, init, Next(cfg, s, trace[0]), trace[1..]);
    }
  }

  /** While a job is in flight, some step brings the run one step nearer to rest. */
  lemma Advance(cfg: Config, init: Forest, s: State) returns (step: Step)
    requires Inv(cfg, init, s) && Measure(s.phases) > 0
    ensures Enabled(cfg, s, step) && !step.action.Begin?
    ensures Inv(cfg, init, Next(cfg, s, step))
    ensures Measure(Next(cfg, s, step).phases) == Measure(s.phases) - 1
  {
    MeasureZeroIffQuiescent(cfg, s, s.phases, 0);
    var t: nat :| t < |s.phases| && !s.phases[t].Idle?;
    step := SomeoneCanStep(cfg, init, s, t);
    StepCounts(cfg, s, step);
    InvPreserved(cfg, init, s, step);
  }

  /** From every reachable state the jobs in flight can be driven to completion. */
  lemma {:induction false} CanComplete(cfg: Config, init: Forest, s: State) returns (trace: seq<Step>)
    requires Inv(cfg, init, s)
    ensures CanRun(cfg, s, trace) && StartsNothing(trace)
    ensures |trace| == Measure(s.phases) && Quiescent(Run(cfg, s, trace))
    decreases Measure(s.phases)
  {
    if Measure(s.phases) == 0 {
      trace := [];
      MeasureZeroIffQuiescent(cfg, s, s.phases, 0);
    } else {
      var step := Advance(cfg, init, s);
      var rest := CanComplete(cfg, init, Next(cfg, s, step));
      RunCons(cfg, s, step, rest);
      trace := [step] + rest;
    }
  }
}
