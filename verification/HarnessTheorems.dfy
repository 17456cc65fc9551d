/** Whole-run properties of the harness: barrier safety, conservation of the merged
    counters, termination, and the engine's guarantees at the end of every run. */
module HarnessTheorems {
  import opened Barriers
  import opened TransactionEngine
  import opened TransactionInvariants
  import TransactionTheorems
  import opened Harness

  // ---------- The barrier ----------

  predicate WaitsIn(life: Life, gen: nat) {
    life == AtStart(gen) || life == AtEnd(gen)
  }

  function Waiting(lives: seq<Life>, gen: nat): nat {
    if lives == [] then 0
    else (if WaitsIn(lives[0], gen) then 1 else 0) + Waiting(lives[1..], gen)
  }

  lemma {:induction false} WaitingUpdate(lives: seq<Life>, t: nat, life: Life, gen: nat)
    requires t < |lives|
    ensures Waiting(lives[t := life], gen)
         == Waiting(lives, gen) - (if WaitsIn(lives[t], gen) then 1 else 0)
            + (if WaitsIn(life, gen) then 1 else 0)
    decreases |lives|
  {
    if t == 0 {
      assert lives[0 := life][1..] == lives[1..];
    } else {
      WaitingUpdate(lives[1..], t - 1, life, gen);
      assert lives[t := life][1..] == lives[1..][t - 1 := life];
    }
  }

  lemma {:induction false} WaitingBounds(lives: seq<Life>, gen: nat)
    ensures Waiting(lives, gen) <= |lives|
    ensures Waiting(lives, gen) == |lives| <==> forall t :: 0 <= t < |lives| ==> WaitsIn(lives[t], gen)
    ensures Waiting(lives, gen) == 0 <==> forall t :: 0 <= t < |lives| ==> !WaitsIn(lives[t], gen)
  {
    if lives != [] {
      WaitingBounds(lives[1..], gen);
      assert forall t :: 1 <= t < |lives| ==> lives[t] == lives[1..][t - 1];
    }
  }

  predicate InGeneration(life: Life, gen: nat) {
    match life
    case Launched => gen == 0
    case AtStart(g) => g == 0 && gen <= 1
    case AtEnd(g) => g == 1 && 1 <= gen <= 2
    case Exited => gen == 2
    case _ => gen == 1
  }

  /** Generation 0 lasts until the last arrival at the start, generation 1 until the last
      arrival at the end. With fewer threads than the count it never ends. */
  ghost predicate BarrierInv(b: Barrier, lives: seq<Life>) {
    && |lives| <= b.count
    && b.arrived == Waiting(lives, b.generation) < b.count
    && b.generation <= 2
    && (b.generation > 0 ==> |lives| == b.count)
    && (forall t :: 0 <= t < |lives| ==> InGeneration(lives[t], b.generation))
  }

  /** One arrival, by a thread whose life moves from `Launched` or `Merged`. */
  lemma ArrivalKeepsBarrier(b: Barrier, lives: seq<Life>, t: nat)
    requires BarrierInv(b, lives) && t < |lives|
    requires lives[t].Launched? || lives[t].Merged?
    ensures BarrierInv(b.Arrive(), lives[t := if lives[t].Launched? then AtStart(b.generation)
                                                                   else AtEnd(b.generation)])
  {
    var life := if lives[t].Launched? then AtStart(b.generation) else AtEnd(b.generation);
    var lives' := lives[t := life];
    WaitingUpdate(lives, t, life, b.generation);
    WaitingBounds(lives', b.generation);
    WaitingBounds(lives', b.generation + 1);
  }

  lemma BarrierPreserved(cfg: Setup, s: System, e: Event)
    requires BarrierInv(s.barrier, s.lives) && Possible(cfg, s, e)
    ensures BarrierInv(After(cfg, s, e).barrier, After(cfg, s, e).lives)
  {
    if e.act.Arrive? {
      ArrivalKeepsBarrier(s.barrier, s.lives, e.thread);
    } else {
      assert InGeneration(s.lives[e.thread], s.barrier.generation);
      WaitingUpdate(s.lives, e.thread, LifeAfter(cfg, s, e), s.barrier.generation);
    }
  }

  // ---------- The counters ----------

  /** How much of a thread's slot `i` has reached the global vector. */
  function Contribution(life: Life, local: seq<int>, i: nat): int
    requires i < |local|
  {
    match life
    case Merging(k) => if i < k then local[i] else 0
    case Adding(k, _) => if i < k then local[i] else 0
    case Merged => local[i]
    case AtEnd(_) => local[i]
    case Exited => local[i]
    case _ => 0
  }

  /** The sum of slot `i` over the first `n` threads of side `d`, counting what has been
      merged. */
  function MergedSum(cfg: Setup, s: System, d: nat, i: nat, n: nat): int
    requires Sized(cfg, s) && i < cfg.slots && n <= |s.lives|
  {
    if n == 0 then 0
    else MergedSum(cfg, s, d, i, n - 1)
         + (if Side(cfg, n - 1) == d then Contribution(s.lives[n - 1], s.counters[n - 1].local, i)
            else 0)
  }

  /** The sum of slot `i` over the counters of the threads whose node argument is 0, or of
      the others. */
  function NodeSum(nodes: seq<nat>, counters: seq<Counter>, zero: bool, i: nat): int
    requires |counters| == |nodes|
    requires forall t :: 0 <= t < |counters| ==> i < |counters[t].local|
  {
    if nodes == [] then 0
    else
      var n := |nodes| - 1;
      NodeSum(nodes[..n], counters[..n], zero, i)
      + (if (nodes[n] == 0) == zero then counters[n].local[i] else 0)
  }

  lemma {:induction false} MergedSumUpdate(cfg: Setup, s: System, s': System, t: nat, d: nat, i: nat, n: nat)
    requires Sized(cfg, s) && Sized(cfg, s') && i < cfg.slots && n <= |s.lives| && t < |s.lives|
    requires forall u :: 0 <= u < |s.lives| && u != t ==>
               s'.lives[u] == s.lives[u] && s'.counters[u] == s.counters[u]
    ensures MergedSum(cfg, s', d, i, n) - MergedSum(cfg, s, d, i, n)
         == if t < n && Side(cfg, t) == d
            then Contribution(s'.lives[t], s'.counters[t].local, i)
                 - Contribution(s.lives[t], s.counters[t].local, i)
            else 0
  {
    if n > 0 { MergedSumUpdate(cfg, s, s', t, d, i, n - 1); }
  }

  lemma {:induction false} AllMergedSum(cfg: Setup, s: System, d: nat, i: nat, n: nat)
    requires Sized(cfg, s) && i < cfg.slots && n <= |s.lives| && d < 2
    requires forall t :: 0 <= t < |s.lives| ==> s.lives[t].AtEnd? || s.lives[t].Exited?
    ensures MergedSum(cfg, s, d, i, n) == NodeSum(cfg.nodes[..n], s.counters[..n], d == 0, i)
  {
    if n > 0 {
      AllMergedSum(cfg, s, d, i, n - 1);
      assert cfg.nodes[..n][..n - 1] == cfg.nodes[..n - 1] && s.counters[..n][..n - 1] == s.counters[..n - 1];
    }
  }

  ghost predicate Conserved(cfg: Setup, start: seq<seq<int>>, s: System)
    requires Sized(cfg, s)
  {
    |start| == 2 && |start[0]| == cfg.slots && |start[1]| == cfg.slots
    && forall d: nat, i: nat :: d < 2 && i < cfg.slots ==>
         s.totals[d][i] == start[d][i] + MergedSum(cfg, s, d, i, |s.lives|)
  }

  predicate UnderGlobal(life: Life) {
    life.Merging? || life.Adding?
  }

  /** The global mutex: only its owner merges, and what it has loaded is still there. */
  ghost predicate MergerInv(cfg: Setup, s: System)
    requires Sized(cfg, s)
  {
    && (forall t: nat :: t in s.merger <==> t < |s.lives| && UnderGlobal(s.lives[t]))
    && (forall t: nat, u: nat :: t in s.merger && u in s.merger ==> t == u)
    && (forall t :: 0 <= t < |s.lives| && s.lives[t].Merging? ==> s.lives[t].next <= cfg.slots)
    && (forall t :: 0 <= t < |s.lives| && s.lives[t].Adding? ==>
          s.lives[t].next < cfg.slots
          && s.lives[t].loaded == s.totals[Side(cfg, t)][s.lives[t].next])
  }

  lemma SizedPreserved(cfg: Setup, s: System, e: Event)
    requires Possible(cfg, s, e)
    ensures Sized(cfg, After(cfg, s, e))
  {
  }

  lemma MergerPreserved(cfg: Setup, s: System, e: Event)
    requires Possible(cfg, s, e) && MergerInv(cfg, s)
    ensures Sized(cfg, After(cfg, s, e)) && MergerInv(cfg, After(cfg, s, e))
  {
    SizedPreserved(cfg, s, e);
    var s', t := After(cfg, s, e), e.thread;
    forall u: nat | u in s.merger ensures u < |s.lives| && UnderGlobal(s.lives[u]) {}
    if s.lives[t].Adding? { assert t in s.merger; }
  }

  lemma ConservedPreserved(cfg: Setup, start: seq<seq<int>>, s: System, e: Event)
    requires Possible(cfg, s, e) && MergerInv(cfg, s) && Conserved(cfg, start, s)
    ensures Sized(cfg, After(cfg, s, e)) && Conserved(cfg, start, After(cfg, s, e))
  {
    SizedPreserved(cfg, s, e);
    var s', t := After(cfg, s, e), e.thread;
    forall d: nat, i: nat | d < 2 && i < cfg.slots
      ensures s'.totals[d][i] == start[d][i] + MergedSum(cfg, s', d, i, |s'.lives|)
    {
      MergedSumUpdate(cfg, s, s', t, d, i, |s.lives|);
    }
  }

  /** Merged threads have left the copy of their node equal to the last counter, unless a
      thread of that node is merging. */
  ghost predicate CopiesInv(cfg: Setup, s: System)
    requires Sized(cfg, s)
  {
    cfg.slots > 0 ==>
      forall t :: 0 <= t < |s.lives| && (s.lives[t].Merged? || s.lives[t].AtEnd? || s.lives[t].Exited?)
                  && (forall u: nat :: u in s.merger && u < |s.lives| ==> Side(cfg, u) != Side(cfg, t)) ==>
        s.copies[Side(cfg, t)] == s.totals[Side(cfg, t)][cfg.slots - 1]
  }

  lemma CopiesPreserved(cfg: Setup, s: System, e: Event)
    requires Possible(cfg, s, e) && MergerInv(cfg, s) && CopiesInv(cfg, s)
    ensures Sized(cfg, After(cfg, s, e)) && CopiesInv(cfg, After(cfg, s, e))
  {
    SizedPreserved(cfg, s, e);
    var s' := After(cfg, s, e);
    if UnderGlobal(s.lives[e.thread]) { assert s.merger == {e.thread}; }
  }

  // ---------- Operation counts ----------

  /** A thread's `ops` has grown by one for every job it has finished (skipped draws are
      not counted); its logged samples are strictly increasing, at most `ops`, and followed
      by zeros. */
  ghost predicate CountsJobs(slots: nat, ops0: int, c: Counter, begun: nat, idle: bool) {
    && c.ops == ops0 + begun - (if idle then 0 else 1)
    && (!idle ==> 1 <= begun)
    && c.idx <= slots == |c.local|
    && (forall j :: 0 <= j < c.idx ==> ops0 < c.local[j] <= c.ops)
    && (forall j, k :: 0 <= j < k < c.idx ==> c.local[j] <= c.local[k])
    && (forall j :: c.idx <= j < slots ==> c.local[j] == 0)
  }

  ghost predicate OpsInv(cfg: Setup, ops0: seq<int>, s: System)
    requires Sized(cfg, s)
  {
    && |ops0| == |s.lives|
    && forall t :: 0 <= t < |s.lives| ==>
         CountsJobs(cfg.slots, ops0[t], s.counters[t], |s.engine.begun[t]|, s.engine.phases[t].Idle?)
  }

  /** How the engine part changes: only the acting thread's phase and history, and only at
      its own jobs. */
  lemma EngineFrame(cfg: Setup, s: System, e: Event)
    requires Possible(cfg, s, e)
    ensures var g, g' := s.engine, EngineAfter(cfg, s, e);
      && |g'.phases| == |g.phases| && |g'.begun| == |g.begun|
      && (forall u :: 0 <= u < |g.phases| && u != e.thread ==>
            g'.phases[u] == g.phases[u] && g'.begun[u] == g.begun[u])
      && (!e.act.StartJob? ==> g'.begun == g.begun)
      && (e.act.StartJob? && g'.phases != g.phases ==>
            !g'.phases[e.thread].Idle? && |g'.begun[e.thread]| == |g.begun[e.thread]| + 1)
      && (e.act.StartJob? && g'.phases == g.phases ==> g' == g)
      && (e.act.Transact? ==>
            !g.phases[e.thread].Idle? && (g'.phases[e.thread].Idle? <==> EndsJob(cfg, s, e)))
      && (!e.act.StartJob? && !e.act.Transact? ==> g' == g)
  {
    if e.act.StartJob? && Choose(cfg.nodes[e.thread], e.act.draw).Do? {
      assert EngineAfter(cfg, s, e).phases[e.thread].Acquiring?;
    }
  }

  lemma OwnCountPreserved(cfg: Setup, ops0: int, s: System, e: Event)
    requires Possible(cfg, s, e)
    requires CountsJobs(cfg.slots, ops0, s.counters[e.thread], |s.engine.begun[e.thread]|,
                        s.engine.phases[e.thread].Idle?)
    ensures |EngineAfter(cfg, s, e).phases| == |EngineAfter(cfg, s, e).begun| == |s.lives|
    ensures CountsJobs(cfg.slots, ops0, CounterAfter(cfg, s, e),
                       |EngineAfter(cfg, s, e).begun[e.thread]|,
                       EngineAfter(cfg, s, e).phases[e.thread].Idle?)
  {
    EngineFrame(cfg, s, e);
    var g, g' := s.engine, EngineAfter(cfg, s, e);
    if e.act.Transact? {
      assert g'.begun == g.begun;
    } else if e.act.StartJob? {
      assert CounterAfter(cfg, s, e) == s.counters[e.thread];
    } else {
      assert g' == g;
    }
  }

  lemma OpsPreserved(cfg: Setup, ops0: seq<int>, s: System, e: Event)
    requires Possible(cfg, s, e) && OpsInv(cfg, ops0, s)
    ensures Sized(cfg, After(cfg, s, e)) && OpsInv(cfg, ops0, After(cfg, s, e))
  {
    SizedPreserved(cfg, s, e);
    EngineFrame(cfg, s, e);
    var s', t := After(cfg, s, e), e.thread;
    assert CountsJobs(cfg.slots, ops0[t], s.counters[t], |s.engine.begun[t]|, s.engine.phases[t].Idle?);
    assert s'.engine == EngineAfter(cfg, s, e);
    OwnCountPreserved(cfg, ops0[t], s, e);
    forall u | 0 <= u < |s.lives| && u != t
      ensures CountsJobs(cfg.slots, ops0[u], s'.counters[u], |s'.engine.begun[u]|,
                         s'.engine.phases[u].Idle?)
    {
      assert s'.counters[u] == s.counters[u];
    }
  }

  // ---------- The engine inside the harness ----------

  /** Threads outside the loop have no job in flight. */
  ghost predicate OnlyWorkersBusy(s: System) {
    && |s.engine.phases| == |s.lives|
    && forall t :: 0 <= t < |s.lives| && !s.lives[t].Working? ==> s.engine.phases[t].Idle?
  }

  lemma EnginePreserved(cfg: Setup, init: Forest, s: System, e: Event)
    requires Possible(cfg, s, e) && Inv(cfg.engine, init, s.engine) && OnlyWorkersBusy(s)
    ensures Inv(cfg.engine, init, EngineAfter(cfg, s, e)) && OnlyWorkersBusy(After(cfg, s, e))
  {
    match e.act
    case StartJob(d) =>
      if Choose(cfg.nodes[e.thread], d).Do? {
        ChooseYieldsJobs(cfg.engine, cfg.nodes[e.thread], d);
        InvPreserved(cfg.engine, init, s.engine,
                     Step(e.thread, Begin(Choose(cfg.nodes[e.thread], d).job)));
      }
      EngineFrame(cfg, s, e);
    case Transact(a, _) =>
      InvPreserved(cfg.engine, init, s.engine, Step(e.thread, a));
      EngineFrame(cfg, s, e);
    case _ =>
  }

  datatype Origin = Origin(init: Forest, ops: seq<int>, totals: seq<seq<int>>)

  ghost predicate Whole(cfg: Setup, o: Origin, s: System) {
    && Sized(cfg, s)
    && BarrierInv(s.barrier, s.lives)
    && MergerInv(cfg, s) && Conserved(cfg, o.totals, s) && CopiesInv(cfg, s)
    && OpsInv(cfg, o.ops, s)
    && Inv(cfg.engine, o.init, s.engine) && OnlyWorkersBusy(s)
  }

  lemma WholePreserved(cfg: Setup, o: Origin, s: System, e: Event)
    requires Whole(cfg, o, s) && Possible(cfg, s, e)
    ensures Whole(cfg, o, After(cfg, s, e))
  {
    SizedPreserved(cfg, s, e);
    BarrierPreserved(cfg, s, e);
    MergerPreserved(cfg, s, e);
    ConservedPreserved(cfg, o.totals, s, e);
    CopiesPreserved(cfg, s, e);
    OpsPreserved(cfg, o.ops, s, e);
    EnginePreserved(cfg, o.init, s, e);
  }

  /** What a launch needs: an initialised forest, counter vectors of `slots` entries, and a
      barrier for at least as many threads as are launched. */
  ghost predicate LaunchOk(cfg: Setup, o: Origin, count: nat) {
    && InitOk(cfg.engine, o.init)
    && |o.ops| == |cfg.nodes| <= count && 0 < count
    && |o.totals| == 2 && |o.totals[0]| == cfg.slots && |o.totals[1]| == cfg.slots
  }

  lemma {:induction false} NothingMerged(cfg: Setup, s: System, d: nat, i: nat, n: nat)
    requires Sized(cfg, s) && i < cfg.slots && n <= |s.lives|
    requires forall t :: 0 <= t < |s.lives| ==> s.lives[t].Launched?
    ensures MergedSum(cfg, s, d, i, n) == 0
  {
    if n > 0 { NothingMerged(cfg, s, d, i, n - 1); }
  }

  lemma WholeAtLaunch(cfg: Setup, o: Origin, count: nat)
    requires LaunchOk(cfg, o, count)
    ensures Whole(cfg, o, Launch(cfg, o.init, count, o.ops, o.totals))
  {
    var s := Launch(cfg, o.init, count, o.ops, o.totals);
    InvStart(cfg.engine, o.init, |cfg.nodes|);
    WaitingBounds(s.lives, 0);
    forall d: nat, i: nat | d < 2 && i < cfg.slots
      ensures MergedSum(cfg, s, d, i, |s.lives|) == 0
    {
      NothingMerged(cfg, s, d, i, |s.lives|);
    }
  }

  lemma {:induction false} WholeAlong(cfg: Setup, o: Origin, s: System, events: seq<Event>)
    requires Whole(cfg, o, s) && CanHappen(cfg, s, events)
    ensures Whole(cfg, o, Happen(cfg, s, events))
    ensures Happen(cfg, s, events).barrier.count == s.barrier.count
    decreases |events|
  {
    if events != [] {
      WholePreserved(cfg, o, s, events[0]);
      WholeAlong(cfg, o, After(cfg, s, events[0]), events[1..]);
    }
  }

  // ---------- Main results ----------

  /** No thread is in the loop, or beyond it, while another has not arrived; none is past
      the final barrier while another has not merged. */
  lemma BarriersSeparate(cfg: Setup, o: Origin, count: nat, events: seq<Event>, t: nat, u: nat)
    requires LaunchOk(cfg, o, count)
    requires CanHappen(cfg, Launch(cfg, o.init, count, o.ops, o.totals), events)
    requires t < |cfg.nodes| && u < |cfg.nodes|
    ensures var s := Happen(cfg, Launch(cfg, o.init, count, o.ops, o.totals), events);
      && |s.lives| == |cfg.nodes|
      && (!s.lives[t].Launched? && !s.lives[t].AtStart? ==> !s.lives[u].Launched?)
      && (s.lives[t].Exited? ==> s.lives[u].AtEnd? || s.lives[u].Exited?)
  {
    WholeAtLaunch(cfg, o, count);
    WholeAlong(cfg, o, Launch(cfg, o.init, count, o.ops, o.totals), events);
    var s := Happen(cfg, Launch(cfg, o.init, count, o.ops, o.totals), events);
    assert InGeneration(s.lives[t], s.barrier.generation);
    assert InGeneration(s.lives[u], s.barrier.generation);
  }

  lemma CountersAtTheEnd(cfg: Setup, totals: seq<seq<int>>, s: System, t: nat, d: nat, i: nat)
    requires Sized(cfg, s) && BarrierInv(s.barrier, s.lives) && Conserved(cfg, totals, s)
    requires t < |s.lives| && s.lives[t].Exited? && d < 2 && i < cfg.slots
    requires |totals| == 2 && |totals[0]| == cfg.slots && |totals[1]| == cfg.slots
    ensures s.totals[d][i] == totals[d][i] + NodeSum(cfg.nodes, s.counters, d == 0, i)
  {
    assert InGeneration(s.lives[t], s.barrier.generation);
    assert forall u :: 0 <= u < |s.lives| ==> InGeneration(s.lives[u], 2);
    AllMergedSum(cfg, s, d, i, |s.lives|);
    assert cfg.nodes[..|s.lives|] == cfg.nodes && s.counters[..|s.lives|] == s.counters;
  }

  lemma CopiesAtTheEnd(cfg: Setup, s: System, t: nat, u: nat)
    requires Sized(cfg, s) && BarrierInv(s.barrier, s.lives) && MergerInv(cfg, s) && CopiesInv(cfg, s)
    requires t < |s.lives| && s.lives[t].Exited? && u < |s.lives| && cfg.slots > 0
    ensures s.copies[Side(cfg, u)] == s.totals[Side(cfg, u)][cfg.slots - 1]
  {
    assert InGeneration(s.lives[t], s.barrier.generation);
    assert forall v :: 0 <= v < |s.lives| ==> InGeneration(s.lives[v], 2);
  }

  /** Once any thread is past the final barrier, `globalOps0` is its starting value plus the
      matching counters of all threads of node 0, and `globalOps1` its starting value plus
      those of all others. */
  lemma CountersConserved(cfg: Setup, o: Origin, count: nat, events: seq<Event>, i: nat)
    requires LaunchOk(cfg, o, count) && i < cfg.slots
    requires CanHappen(cfg, Launch(cfg, o.init, count, o.ops, o.totals), events)
    ensures var s := Happen(cfg, Launch(cfg, o.init, count, o.ops, o.totals), events);
      && Sized(cfg, s)
      && ((exists t :: 0 <= t < |s.lives| && s.lives[t].Exited?) ==>
            && s.totals[0][i] == o.totals[0][i] + NodeSum(cfg.nodes, s.counters, true, i)
            && s.totals[1][i] == o.totals[1][i] + NodeSum(cfg.nodes, s.counters, false, i))
  {
    WholeAtLaunch(cfg, o, count);
    WholeAlong(cfg, o, Launch(cfg, o.init, count, o.ops, o.totals), events);
    var s := Happen(cfg, Launch(cfg, o.init, count, o.ops, o.totals), events);
    if t: nat :| t < |s.lives| && s.lives[t].Exited? {
      CountersAtTheEnd(cfg, o.totals, s, t, 0, i);
      CountersAtTheEnd(cfg, o.totals, s, t, 1, i);
    }
  }

  lemma LastCounterCopied(cfg: Setup, o: Origin, s: System, t: nat, u: nat)
    requires Whole(cfg, o, s) && t < |s.lives| && s.lives[t].Exited? && u < |s.lives| && cfg.slots > 0
    requires |o.totals| == 2 && |o.totals[0]| == cfg.slots && |o.totals[1]| == cfg.slots
    ensures var last := cfg.slots - 1;
            if cfg.nodes[u] == 0
            then s.copies[0] == o.totals[0][last] + NodeSum(cfg.nodes, s.counters, true, last)
            else s.copies[1] == o.totals[1][last] + NodeSum(cfg.nodes, s.counters, false, last)
  {
    CopiesAtTheEnd(cfg, s, t, u);
    CountersAtTheEnd(cfg, o.totals, s, t, if cfg.nodes[u] == 0 then 0 else 1, cfg.slots - 1);
  }

  /** And `ops0`, if some thread is of node 0, is the last counter of `globalOps0`, the sum of
      the last counters of these threads; so is `ops1` for the others. */
  lemma CopiesConserved(cfg: Setup, o: Origin, count: nat, events: seq<Event>, u: nat)
    requires LaunchOk(cfg, o, count) && u < |cfg.nodes| && cfg.slots > 0
    requires CanHappen(cfg, Launch(cfg, o.init, count, o.ops, o.totals), events)
    ensures var s := Happen(cfg, Launch(cfg, o.init, count, o.ops, o.totals), events);
      var last := cfg.slots - 1;
      && Sized(cfg, s)
      && ((exists t :: 0 <= t < |s.lives| && s.lives[t].Exited?) ==>
            if cfg.nodes[u] == 0
            then s.copies[0] == o.totals[0][last] + NodeSum(cfg.nodes, s.counters, true, last)
            else s.copies[1] == o.totals[1][last] + NodeSum(cfg.nodes, s.counters, false, last))
  {
    WholeAtLaunch(cfg, o, count);
    WholeAlong(cfg, o, Launch(cfg, o.init, count, o.ops, o.totals), events);
    var s := Happen(cfg, Launch(cfg, o.init, count, o.ops, o.totals), events);
    if t: nat :| t < |s.lives| && s.lives[t].Exited? {
      LastCounterCopied(cfg, o, s, t, u);
    }
  }

  /** When the threads have exited, the forests, the returned levels and the histories are
      those of a serial run, and every thread has counted exactly the jobs it began. */
  lemma HarnessSerializable(cfg: Setup, o: Origin, count: nat, events: seq<Event>)
    requires LaunchOk(cfg, o, count)
    requires CanHappen(cfg, Launch(cfg, o.init, count, o.ops, o.totals), events)
    requires AllExited(Happen(cfg, Launch(cfg, o.init, count, o.ops, o.totals), events))
    ensures var s := Happen(cfg, Launch(cfg, o.init, count, o.ops, o.totals), events);
      && s.engine == TransactionTheorems.SerialState(o.init, |cfg.nodes|, s.engine.log)
      && |s.counters| == |s.engine.begun| == |cfg.nodes|
      && forall t :: 0 <= t < |cfg.nodes| ==>
           s.counters[t].ops == o.ops[t] + |s.engine.begun[t]|
  {
    WholeAtLaunch(cfg, o, count);
    WholeAlong(cfg, o, Launch(cfg, o.init, count, o.ops, o.totals), events);
    var s := Happen(cfg, Launch(cfg, o.init, count, o.ops, o.totals), events);
    TransactionTheorems.RestIsSerial(cfg.engine, o.init, s.engine);
  }

  // ---------- Which thread works where ----------

  /** The threads look keys up in the pool of their own node: those of node 0 in the first,
      all others in the second. */
  ghost predicate LookupsAtHome(nodes: seq<nat>, begun: seq<seq<Job>>) {
    |begun| == |nodes|
    && forall t, j :: 0 <= t < |begun| && 0 <= j < |begun[t]| && begun[t][j].Lookup? ==>
         begun[t][j].at.pool == (if nodes[t] == 0 then 0 else 1)
  }

  lemma LookupsPreserved(cfg: Setup, s: System, e: Event)
    requires Possible(cfg, s, e) && LookupsAtHome(cfg.nodes, s.engine.begun)
    ensures LookupsAtHome(cfg.nodes, After(cfg, s, e).engine.begun)
  {
    if !e.act.StartJob? {
      EngineFrame(cfg, s, e);
      assert After(cfg, s, e).engine.begun == s.engine.begun;
    }
  }

  lemma {:induction false} LookupsAlong(cfg: Setup, s: System, events: seq<Event>)
    requires CanHappen(cfg, s, events) && LookupsAtHome(cfg.nodes, s.engine.begun)
    ensures LookupsAtHome(cfg.nodes, Happen(cfg, s, events).engine.begun)
    decreases |events|
  {
    if events != [] {
      LookupsPreserved(cfg, s, events[0]);
      LookupsAlong(cfg, After(cfg, s, events[0]), events[1..]);
    }
  }

  /** In every run every thread looks keys up only in the pool of its own node. */
  lemma LookupsStayHome(cfg: Setup, o: Origin, count: nat, events: seq<Event>)
    requires |o.ops| == |cfg.nodes|
    requires CanHappen(cfg, Launch(cfg, o.init, count, o.ops, o.totals), events)
    ensures LookupsAtHome(cfg.nodes,
                          Happen(cfg, Launch(cfg, o.init, count, o.ops, o.totals), events).engine.begun)
  {
    LookupsAlong(cfg, Launch(cfg, o.init, count, o.ops, o.totals), events);
  }

  function SlotSum(counters: seq<Counter>, i: nat): int
    requires forall t :: 0 <= t < |counters| ==> i < |counters[t].local|
  {
    if counters == [] then 0
    else SlotSum(counters[..|counters| - 1], i) + counters[|counters| - 1].local[i]
  }

  lemma {:induction false} NodeSumOfHalves(nodes: seq<nat>, counters: seq<Counter>, half: nat, first: bool,
                                           i: nat)
    requires |counters| == |nodes| && half <= |nodes|
    requires forall t :: 0 <= t < |counters| ==> i < |counters[t].local|
    requires forall t :: 0 <= t < |nodes| ==> ((nodes[t] == 0) == first <==> t < half)
    ensures NodeSum(nodes, counters, first, i) == SlotSum(counters[..half], i)
    ensures NodeSum(nodes, counters, !first, i) == SlotSum(counters[half..], i)
    decreases |nodes|
  {
    if nodes != [] {
      var n := |nodes| - 1;
      if half <= n {
        NodeSumOfHalves(nodes[..n], counters[..n], half, first, i);
        assert counters[half..][..n - half] == counters[..n][half..] && counters[..n][..half] == counters[..half];
      } else {
        NodeSumOfHalves(nodes[..n], counters[..n], n, first, i);
        assert counters[..half][..n] == counters[..n] == counters[..n][..n];
        assert counters[half..] == [] == counters[..n][n..];
      }
    }
  }

  /** `main_BST_test` gives the first half of its threads node 0 and the second node 1, or
      the reverse in the third configuration: so each of `globalOps0` and `globalOps1`
      collects one half. */
  lemma HalvesAreMerged(numThreads: nat, swapped: bool, counters: seq<Counter>, i: nat)
    requires |counters| == |LaunchNodes(numThreads, swapped)|
    requires forall t :: 0 <= t < |counters| ==> i < |counters[t].local|
    ensures var nodes, half := LaunchNodes(numThreads, swapped), numThreads / 2;
      && |nodes| == half + half
      && (forall t :: 0 <= t < |nodes| ==> nodes[t] < 2 && (nodes[t] == 0 <==> (t < half) != swapped))
      && var first, second := SlotSum(counters[..half], i), SlotSum(counters[half..], i);
         && NodeSum(nodes, counters, true, i) == (if swapped then second else first)
         && NodeSum(nodes, counters, false, i) == (if swapped then first else second)
  {
    NodeSumOfHalves(LaunchNodes(numThreads, swapped), counters, numThreads / 2, !swapped, i);
  }

  // ---------- Progress and termination ----------

  /** The events a thread still needs to exit if it starts no more jobs. */
  function ToGo(slots: nat, life: Life, phase: Phase): nat {
    match life
    case Launched => 2 * slots + 7 + TransactionTheorems.Remaining(phase)
    case AtStart(_) => 2 * slots + 6 + TransactionTheorems.Remaining(phase)
    case Working => 2 * slots + 5 + TransactionTheorems.Remaining(phase)
    case WantMerge => 2 * slots + 4
    case Merging(i) => if i <= slots then 2 * (slots - i) + 3 else 0
    case Adding(i, _) => if i <= slots then 2 * (slots - i) + 2 else 0
    case Merged => 2
    case AtEnd(_) => 1
    case Exited => 0
  }

  function EventsToGo(cfg: Setup, s: System, n: nat): nat
    requires n <= |s.lives| == |s.engine.phases|
  {
    if n == 0 then 0
    else EventsToGo(cfg, s, n - 1) + ToGo(cfg.slots, s.lives[n - 1], s.engine.phases[n - 1])
  }

  lemma {:induction false} ToGoUpdate(cfg: Setup, s: System, s': System, t: nat, n: nat)
    requires n <= |s.lives| == |s.engine.phases| == |s'.lives| == |s'.engine.phases| && t < |s.lives|
    requires forall u :: 0 <= u < |s.lives| && u != t ==>
               s'.lives[u] == s.lives[u] && s'.engine.phases[u] == s.engine.phases[u]
    ensures EventsToGo(cfg, s', n) - EventsToGo(cfg, s, n)
         == if t < n then ToGo(cfg.slots, s'.lives[t], s'.engine.phases[t])
                          - ToGo(cfg.slots, s.lives[t], s.engine.phases[t])
            else 0
  {
    if n > 0 { ToGoUpdate(cfg, s, s', t, n - 1); }
  }

  lemma PhaseCounts(cfg: Config, s: State, step: Step)
    requires Shape(cfg, s) && Enabled(cfg, s, step) && !step.action.Begin?
    ensures TransactionTheorems.Remaining(Next(cfg, s, step).phases[step.thread])
         == TransactionTheorems.Remaining(s.phases[step.thread]) - 1
  {
    assert PhaseOk(cfg, s.log, step.thread, s.phases[step.thread]);
  }

  lemma OwnEventCounts(cfg: Setup, s: System, e: Event)
    requires Possible(cfg, s, e) && !e.act.StartJob?
    requires MergerInv(cfg, s) && Shape(cfg.engine, s.engine)
    requires !s.lives[e.thread].Working? ==> s.engine.phases[e.thread].Idle?
    ensures |EngineAfter(cfg, s, e).phases| == |s.lives|
    ensures ToGo(cfg.slots, LifeAfter(cfg, s, e), EngineAfter(cfg, s, e).phases[e.thread])
         == ToGo(cfg.slots, s.lives[e.thread], s.engine.phases[e.thread]) - 1
  {
    EngineFrame(cfg, s, e);
    if e.act.Transact? { PhaseCounts(cfg.engine, s.engine, Step(e.thread, e.act.action)); }
  }

  /** Every event but a draw brings the harness exactly one event nearer to its end. */
  lemma EventCounts(cfg: Setup, o: Origin, s: System, e: Event)
    requires Whole(cfg, o, s) && Possible(cfg, s, e) && !e.act.StartJob?
    ensures |After(cfg, s, e).lives| == |s.lives| == |s.engine.phases|
         == |After(cfg, s, e).engine.phases|
    ensures EventsToGo(cfg, After(cfg, s, e), |s.lives|) == EventsToGo(cfg, s, |s.lives|) - 1
  {
    EngineFrame(cfg, s, e);
    OwnEventCounts(cfg, s, e);
    ToGoUpdate(cfg, s, After(cfg, s, e), e.thread, |s.lives|);
  }

  lemma {:induction false} NothingToGo(cfg: Setup, s: System, n: nat)
    requires n <= |s.lives| == |s.engine.phases|
    requires forall t :: 0 <= t < |s.lives| && UnderGlobal(s.lives[t]) ==> s.lives[t].next <= cfg.slots
    ensures EventsToGo(cfg, s, n) == 0 <==> forall t :: 0 <= t < n ==> s.lives[t].Exited?
  {
    if n > 0 { NothingToGo(cfg, s, n - 1); }
  }

  lemma SomeoneNotWaiting(s: System) returns (t: nat)
    requires BarrierInv(s.barrier, s.lives) && |s.lives| == s.barrier.count && !AllExited(s)
    ensures t < |s.lives| && !WaitsIn(s.lives[t], s.barrier.generation) && !s.lives[t].Exited?
    ensures InGeneration(s.lives[t], s.barrier.generation)
  {
    WaitingBounds(s.lives, s.barrier.generation);
    t :| t < |s.lives| && !WaitsIn(s.lives[t], s.barrier.generation) && !s.lives[t].Exited?;
  }

  /** While some thread has not exited, some event other than a draw is possible, provided
      the barrier counts exactly the launched threads. */
  lemma SomethingPossible(cfg: Setup, o: Origin, s: System) returns (e: Event)
    requires Whole(cfg, o, s) && |s.lives| == s.barrier.count && !AllExited(s)
    ensures !e.act.StartJob? && Possible(cfg, s, e)
  {
    var t := SomeoneNotWaiting(s);
    match s.lives[t]
    case Launched => e := Event(t, Arrive);
    case AtStart(_) => e := Event(t, Leave);
    case Working => e := WorkersCanMove(cfg, o.init, s, t);
    case WantMerge =>
      if s.merger == {} {
        e := Event(t, LockGlobal);
      } else {
        var u :| u in s.merger;
        e := MergerCanMove(cfg, s, u);
      }
    case Merging(_) => e := MergerCanMove(cfg, s, t);
    case Adding(_, _) => e := MergerCanMove(cfg, s, t);
    case Merged => e := Event(t, Arrive);
    case AtEnd(_) => e := Event(t, Leave);
  }

  lemma WorkersCanMove(cfg: Setup, init: Forest, s: System, t: nat) returns (e: Event)
    requires Sized(cfg, s) && Inv(cfg.engine, init, s.engine) && OnlyWorkersBusy(s)
    requires t < |s.lives| && s.lives[t].Working?
    ensures !e.act.StartJob? && Possible(cfg, s, e)
  {
    if s.engine.phases[t].Idle? {
      e := Event(t, Quit);
    } else {
      var step := TransactionTheorems.SomeoneCanStep(cfg.engine, init, s.engine, t);
      assert s.lives[step.thread].Working?;
      e := Event(step.thread, Transact(step.action, false));
    }
  }

  lemma MergerCanMove(cfg: Setup, s: System, u: nat) returns (e: Event)
    requires Sized(cfg, s) && MergerInv(cfg, s) && u < |s.lives| && UnderGlobal(s.lives[u])
    ensures !e.act.StartJob? && Possible(cfg, s, e)
  {
    match s.lives[u]
    case Merging(i) => e := if i < cfg.slots then Event(u, Load) else Event(u, UnlockGlobal);
    case Adding(_, _) => e := Event(u, Store);
  }

  predicate NoDraws(events: seq<Event>) {
    forall i :: 0 <= i < |events| ==> !events[i].act.StartJob?
  }

  lemma OverIffExited(cfg: Setup, o: Origin, s: System)
    requires Whole(cfg, o, s)
    ensures EventsToGo(cfg, s, |s.lives|) == 0 <==> AllExited(s)
  {
    NothingToGo(cfg, s, |s.lives|);
  }

  lemma EventsOneFewer(cfg: Setup, o: Origin, s: System, events: seq<Event>)
    requires Whole(cfg, o, s) && CanHappen(cfg, s, events) && NoDraws(events) && events != []
    ensures Whole(cfg, o, After(cfg, s, events[0]))
    ensures CanHappen(cfg, After(cfg, s, events[0]), events[1..]) && NoDraws(events[1..])
    ensures Happen(cfg, s, events) == Happen(cfg, After(cfg, s, events[0]), events[1..])
    ensures EventsToGo(cfg, After(cfg, s, events[0]), |After(cfg, s, events[0]).lives|)
         == EventsToGo(cfg, s, |s.lives|) - 1
  {
    EventCounts(cfg, o, s, events[0]);
    WholePreserved(cfg, o, s, events[0]);
  }

  /** Without further draws no run is longer than `EventsToGo`, and a run of that length
      has brought every thread to its exit. */
  lemma {:induction false} BoundedShutdown(cfg: Setup, o: Origin, s: System, events: seq<Event>)
    requires Whole(cfg, o, s) && CanHappen(cfg, s, events) && NoDraws(events)
    ensures |events| <= EventsToGo(cfg, s, |s.lives|)
    ensures |events| == EventsToGo(cfg, s, |s.lives|) <==> AllExited(Happen(cfg, s, events))
    decreases |events|
  {
    if events == [] {
      OverIffExited(cfg, o, s);
    } else {
      EventsOneFewer(cfg, o, s, events);
      BoundedShutdown(cfg, o, After(cfg, s, events[0]), events[1..]);
    }
  }

  lemma HappenCons(cfg: Setup, s: System, e: Event, rest: seq<Event>)
    requires Possible(cfg, s, e) && CanHappen(cfg, After(cfg, s, e), rest)
    ensures CanHappen(cfg, s, [e] + rest)
    ensures Happen(cfg, s, [e] + rest) == Happen(cfg, After(cfg, s, e), rest)
  {
    assert ([e] + rest)[1..] == rest;
  }

  lemma {:induction false} HappenSnoc(cfg: Setup, s: System, events: seq<Event>, e: Event)
    requires CanHappen(cfg, s, events) && Possible(cfg, Happen(cfg, s, events), e)
    ensures CanHappen(cfg, s, events + [e])
    ensures Happen(cfg, s, events + [e]) == After(cfg, Happen(cfg, s, events), e)
    decreases |events|
  {
    if events == [] {
      HappenCons(cfg, s, e, []);
    } else {
      HappenSnoc(cfg, After(cfg, s, events[0]), events[1..], e);
      assert events + [e] == [events[0]] + (events[1..] + [e]);
      HappenCons(cfg, s, events[0], events[1..] + [e]);
    }
  }

  /** The events to go after a run from the launch. */
  function ToGoAfter(cfg: Setup, o: Origin, count: nat, events: seq<Event>): nat
    requires |o.ops| == |cfg.nodes|
    requires CanHappen(cfg, Launch(cfg, o.init, count, o.ops, o.totals), events)
  {
    var s := Happen(cfg, Launch(cfg, o.init, count, o.ops, o.totals), events);
    if |s.lives| == |s.engine.phases| then EventsToGo(cfg, s, |s.lives|) else 0
  }

  lemma OneEventCloser(cfg: Setup, o: Origin, count: nat, events: seq<Event>) returns (e: Event)
    requires LaunchOk(cfg, o, count) && |cfg.nodes| == count
    requires CanHappen(cfg, Launch(cfg, o.init, count, o.ops, o.totals), events)
    requires !AllExited(Happen(cfg, Launch(cfg, o.init, count, o.ops, o.totals), events))
    ensures !e.act.StartJob?
    ensures CanHappen(cfg, Launch(cfg, o.init, count, o.ops, o.totals), events + [e])
    ensures ToGoAfter(cfg, o, count, events + [e]) == ToGoAfter(cfg, o, count, events) - 1
  {
    var s0 := Launch(cfg, o.init, count, o.ops, o.totals);
    var s := Happen(cfg, s0, events);
    WholeAtLaunch(cfg, o, count);
    WholeAlong(cfg, o, s0, events);
    e := SomethingPossible(cfg, o, s);
    EventCounts(cfg, o, s, e);
    HappenSnoc(cfg, s0, events, e);
  }

  lemma Regroup(events: seq<Event>, e: Event, more: seq<Event>)
    ensures events + ([e] + more) == (events + [e]) + more
  {
  }

  /** Every run of a correctly counted launch can be continued, without further draws,
      until all threads have exited. */
  lemma {:induction false} CanShutDown(cfg: Setup, o: Origin, count: nat, events: seq<Event>)
    returns (rest: seq<Event>)
    requires LaunchOk(cfg, o, count) && |cfg.nodes| == count
    requires CanHappen(cfg, Launch(cfg, o.init, count, o.ops, o.totals), events)
    ensures NoDraws(rest)
    ensures CanHappen(cfg, Launch(cfg, o.init, count, o.ops, o.totals), events + rest)
    ensures AllExited(Happen(cfg, Launch(cfg, o.init, count, o.ops, o.totals), events + rest))
    decreases ToGoAfter(cfg, o, count, events)
  {
    if AllExited(Happen(cfg, Launch(cfg, o.init, count, o.ops, o.totals), events)) {
      rest := [];
      assert events + rest == events;
    } else {
      var e := OneEventCloser(cfg, o, count, events);
      var more := CanShutDown(cfg, o, count, events + [e]);
      rest := [e] + more;
      Regroup(events, e, more);
    }
  }

  /** With fewer threads than the barrier counts, nobody ever gets past the start. */
  lemma TooFewThreadsNeverStart(cfg: Setup, o: Origin, count: nat, events: seq<Event>, t: nat)
    requires LaunchOk(cfg, o, count) && |cfg.nodes| < count && t < |cfg.nodes|
    requires CanHappen(cfg, Launch(cfg, o.init, count, o.ops, o.totals), events)
    ensures var s := Happen(cfg, Launch(cfg, o.init, count, o.ops, o.totals), events);
      |s.lives| == |cfg.nodes| && (s.lives[t].Launched? || s.lives[t].AtStart?)
  {
    WholeAtLaunch(cfg, o, count);
    WholeAlong(cfg, o, Launch(cfg, o.init, count, o.ops, o.totals), events);
    var s := Happen(cfg, Launch(cfg, o.init, count, o.ops, o.totals), events);
    assert InGeneration(s.lives[t], s.barrier.generation);
  }

  ghost predicate Finishes(cfg: Setup, s0: System, events: seq<Event>) {
    CanHappen(cfg, s0, events) && AllExited(Happen(cfg, s0, events))
  }

  /** `main_BST_test` initialises the barrier for `num_threads` but launches twice half of
      it: its threads can finish if and only if `num_threads` is even, or 1, when none is
      launched. */
  lemma LaunchFinishesIffEvenOrOne(cfg: Setup, o: Origin, numThreads: nat, swapped: bool)
    requires cfg.nodes == LaunchNodes(numThreads, swapped) && |o.ops| == |cfg.nodes|
    requires cfg.nodes != [] ==> LaunchOk(cfg, o, numThreads)
    ensures numThreads % 2 == 0 || numThreads == 1 <==>
      exists events :: Finishes(cfg, Launch(cfg, o.init, numThreads, o.ops, o.totals), events)
  {
    var s0 := Launch(cfg, o.init, numThreads, o.ops, o.totals);
    if cfg.nodes == [] {
      assert Finishes(cfg, s0, []);
    } else if numThreads % 2 == 0 {
      var rest := CanShutDown(cfg, o, numThreads, []);
      assert Finishes(cfg, s0, [] + rest);
    } else {
      forall events ensures !Finishes(cfg, s0, events) {
        if CanHappen(cfg, s0, events) {
          TooFewThreadsNeverStart(cfg, o, numThreads, events, 0);
        }
      }
    }
  }
}
