/** The life of the threads around the transaction loop: the start barrier, the loop, the
    merge of the per-interval counters under the global mutex and the final barrier
    (Exprs/Examples/TestSuite.cpp:864-1055), with the threads `main_BST_test` launches. */
module Harness {
  import opened Barriers
  import opened TransactionEngine

  datatype Life =
    | Launched
    | AtStart(gen: nat)
    | Working
    | WantMerge
    | Merging(next: nat)
    | Adding(next: nat, loaded: int)
    | Merged
    | AtEnd(gen: nat)
    | Exited

  /** A thread's `ops`, `intervalIdx` and `localOps`. */
  datatype Counter = Counter(ops: int, idx: nat, local: seq<int>)

  /** `nodes[t]` is the node argument thread `t` is launched with; `slots` is
      duration/interval. */
  datatype Setup = Setup(engine: Config, nodes: seq<nat>, slots: nat)

  /** `totals` are `globalOps0` and `globalOps1`, `copies` are `ops0` and `ops1`. */
  datatype System = System(
    engine: State,
    lives: seq<Life>,
    barrier: Barrier,
    merger: set<nat>,
    counters: seq<Counter>,
    totals: seq<seq<int>>,
    copies: seq<int>)

  datatype Act =
    | Arrive
    | Leave
    | StartJob(draw: Draw)
    | Transact(action: Action, logs: bool)
    | Quit
    | LockGlobal
    | Load
    | Store
    | UnlockGlobal

  datatype Event = Event(thread: nat, act: Act)

  /** The counter vector a thread merges into: `globalOps0` for node 0, else `globalOps1`. */
  function Side(cfg: Setup, t: nat): nat
    requires t < |cfg.nodes|
  {
    if cfg.nodes[t] == 0 then 0 else 1
  }

  predicate Sized(cfg: Setup, s: System) {
    && |s.lives| == |cfg.nodes| == |s.counters| == |s.engine.phases| == |s.engine.begun|
    && |s.copies| == |s.totals| == 2 && |s.totals[0]| == cfg.slots && |s.totals[1]| == cfg.slots
    && (forall t :: 0 <= t < |s.counters| ==> |s.counters[t].local| == cfg.slots)
  }

  predicate Possible(cfg: Setup, s: System, e: Event) {
    && Sized(cfg, s) && e.thread < |s.lives|
    && match (e.act, s.lives[e.thread])
       case (Arrive, Launched) => true
       case (Arrive, Merged) => true
       case (Leave, AtStart(g)) => g < s.barrier.generation
       case (Leave, AtEnd(g)) => g < s.barrier.generation
       case (StartJob(d), Working) =>
         DrawOk(cfg.engine, d) && s.engine.phases[e.thread].Idle?
       case (Transact(a, logs), Working) =>
         && !a.Begin?
         && Enabled(cfg.engine, s.engine, Step(e.thread, a))
         && (logs ==> EndsJob(cfg, s, e) && s.counters[e.thread].idx < cfg.slots)
       case (Quit, Working) => s.engine.phases[e.thread].Idle?
       case (LockGlobal, WantMerge) => s.merger == {}
       case (Load, Merging(i)) => i < cfg.slots
       case (Store, Adding(i, _)) => i < cfg.slots
       case (UnlockGlobal, Merging(i)) => i == cfg.slots
       case _ => false
  }

  /** The event is the last release of a job, after which the loop counts the iteration. */
  predicate EndsJob(cfg: Setup, s: System, e: Event)
    requires e.thread < |s.engine.phases|
  {
    match (e.act, s.engine.phases[e.thread])
    case (Transact(Unlock, _), Unlocking(job, _, r)) => r + 1 == |Locks(job)|
    case _ => false
  }

  function EngineAfter(cfg: Setup, s: System, e: Event): State
    requires Possible(cfg, s, e)
  {
    match e.act
    case StartJob(d) =>
      (match Choose(cfg.nodes[e.thread], d)
       case Skip => s.engine
       case Do(job) =>
         ChooseYieldsJobs(cfg.engine, cfg.nodes[e.thread], d);
         Next(cfg.engine, s.engine, Step(e.thread, Begin(job))))
    case Transact(a, _) => Next(cfg.engine, s.engine, Step(e.thread, a))
    case _ => s.engine
  }

  function LifeAfter(cfg: Setup, s: System, e: Event): Life
    requires Possible(cfg, s, e)
  {
    match (e.act, s.lives[e.thread])
    case (Arrive, Launched) => AtStart(s.barrier.generation)
    case (Arrive, Merged) => AtEnd(s.barrier.generation)
    case (Leave, AtStart(_)) => Working
    case (Leave, AtEnd(_)) => Exited
    case (Quit, Working) => WantMerge
    case (LockGlobal, WantMerge) => Merging(0)
    case (Load, Merging(i)) => Adding(i, s.totals[Side(cfg, e.thread)][i])
    case (Store, Adding(i, _)) => Merging(i + 1)
    case (UnlockGlobal, Merging(_)) => Merged
    case (_, life) => life
  }

  function CounterAfter(cfg: Setup, s: System, e: Event): Counter
    requires Possible(cfg, s, e)
  {
    var c := s.counters[e.thread];
    if !EndsJob(cfg, s, e) then c
    else if !e.act.logs then c.(ops := c.ops + 1)
    else Counter(c.ops + 1, c.idx + 1, c.local[c.idx := c.ops + 1])
  }

  function TotalsAfter(cfg: Setup, s: System, e: Event): seq<seq<int>>
    requires Possible(cfg, s, e)
  {
    match s.lives[e.thread]
    case Adding(i, v) =>
      var d := Side(cfg, e.thread);
      s.totals[d := s.totals[d][i := v + s.counters[e.thread].local[i]]]
    case _ => s.totals
  }

  /** After its merge, still under the global mutex, a thread copies the last counter. */
  function CopiesAfter(cfg: Setup, s: System, e: Event): seq<int>
    requires Possible(cfg, s, e)
  {
    var d := Side(cfg, e.thread);
    if e.act.UnlockGlobal? && cfg.slots > 0 then s.copies[d := s.totals[d][cfg.slots - 1]] else s.copies
  }

  function After(cfg: Setup, s: System, e: Event): System
    requires Possible(cfg, s, e)
  {
    System(
      EngineAfter(cfg, s, e),
      s.lives[e.thread := LifeAfter(cfg, s, e)],
      if e.act.Arrive? then s.barrier.Arrive() else s.barrier,
      if e.act.LockGlobal? then {e.thread} else if e.act.UnlockGlobal? then {} else s.merger,
      s.counters[e.thread := CounterAfter(cfg, s, e)],
      TotalsAfter(cfg, s, e),
      CopiesAfter(cfg, s, e))
  }

  predicate CanHappen(cfg: Setup, s: System, events: seq<Event>)
    decreases |events|
  {
    events == [] || (Possible(cfg, s, events[0]) && CanHappen(cfg, After(cfg, s, events[0]), events[1..]))
  }

  function Happen(cfg: Setup, s: System, events: seq<Event>): System
    requires CanHappen(cfg, s, events)
    decreases |events|
  {
    if events == [] then s else Happen(cfg, After(cfg, s, events[0]), events[1..])
  }

  /** `ops` is never initialised by the source, so each thread starts with an arbitrary
      value `ops[t]`; `localOps` starts with zeros. */
  function Launch(cfg: Setup, init: Forest, count: nat, ops: seq<int>, totals: seq<seq<int>>): System
    requires |ops| == |cfg.nodes|
  {
    System(
      Start(init, |cfg.nodes|),
      seq(|cfg.nodes|, _ => Launched),
      Barrier(count, 0, 0),
      {},
      seq(|cfg.nodes|, t requires 0 <= t < |ops| => Counter(ops[t], 0, seq(cfg.slots, _ => 0))),
      totals,
      [0, 0])
  }

  /** The node arguments `main_BST_test` launches `BinarySearchTest` with: half of
      `num_threads`, rounded down, for each node; the third configuration swaps them. */
  function LaunchNodes(numThreads: nat, swapped: bool): seq<nat> {
    seq(numThreads / 2, _ => if swapped then 1 else 0)
    + seq(numThreads / 2, _ => if swapped then 0 else 1)
  }

  predicate AllExited(s: System) {
    forall t :: 0 <= t < |s.lives| ==> s.lives[t].Exited?
  }
}
