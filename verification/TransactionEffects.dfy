/** What the jobs of the transaction engine do to the trees, in terms of keys and paths, and
    serializability said in those terms. */
module TransactionEffects {
  import opened SearchTrees
  import opened TreePaths
  import opened TransactionEngine
  import opened TransactionInvariants
  import opened TransactionTheorems

  /** `t'` is `t` with the key `k` at the end of its search path, which took `n` turns. */
  ghost predicate Gains(t: Tree, t': Tree, k: int, n: nat) {
    && Keys(t') == Keys(t) + {k}
    && exists turns :: SearchPath(t, k, turns) && |turns| == n && KeyAt(t', turns, k)
         && forall other, x :: other != turns ==> (KeyAt(t', other, x) <==> KeyAt(t, other, x))
  }

  /** Alone, a lookup changes nothing. A move empties its source if the key is at the root
      there, and otherwise leaves it alone; its destination gains the key. The level
      recorded is the number of turns of the search in the tree looked up or inserted
      into. */
  ghost predicate Does(job: Job, f: Forest, f': Forest, level: nat) {
    match job
    case Lookup(at, k) => f' == f && SearchTakes(Get(f, at), k, level)
    case Move(a, b, k) =>
      && Get(f', a) == (if Get(f, a).Node? && Get(f, a).key == k then Leaf else Get(f, a))
      && Gains(Get(f, b), Get(f', b), k, level)
      && f'.Keys == f.Keys + {a, b}
      && forall sl :: sl in f && sl != a && sl != b ==> f'[sl] == f[sl]
  }

  lemma InsertGains(t: Tree, k: int)
    ensures Gains(t, Insert(t, k), k, Level(t, k))
  {
    InsertKeys(t, k);
    var turns := LevelCountsTurns(t, k);
    InsertAtPath(t, k, turns, [], 0);
    forall other, x | other != turns
      ensures KeyAt(Insert(t, k), other, x) <==> KeyAt(t, other, x)
    {
      InsertAtPath(t, k, turns, other, x);
    }
  }

  lemma ApplyDoes(cfg: Config, job: Job, f: Forest)
    requires JobOk(cfg, job) && (job.Move? ==> Ordered(Get(f, job.source)))
    ensures Does(job, f, Apply(job, f), ResultOf(job, f))
  {
    match job
    case Lookup(at, k) => LevelIsTaken(Get(f, at), k);
    case Move(a, b, k) =>
      RemoveExactly(Get(f, a), k);
      InsertGains(Get(f, b), k);
  }

  /** A job run without interruption, from trees in order. */
  lemma AloneDoes(cfg: Config, s: State, x: Entry)
    requires x.thread < |s.phases| == |s.begun| && s.phases[x.thread].Idle?
    requires s.owner == map[] && JobOk(cfg, x.job)
    requires x.job.Move? ==> Ordered(Get(s.forest, x.job.source))
    ensures CanRun(cfg, s, Alone(x))
    ensures var s' := Run(cfg, s, Alone(x));
      && |s.log| in s'.results && Does(x.job, s.forest, s'.forest, s'.results[|s.log|])
      && s'.owner == map[] && s'.phases == s.phases && s'.log == s.log + [x]
      && s'.begun == s.begun[x.thread := s.begun[x.thread] + [x.job]]
  {
    if x.job.Move? { RemoveExactly(Get(s.forest, x.job.source), x.job.key); }
    AloneApplies(cfg, s, x);
    ApplyDoes(cfg, x.job, s.forest);
  }

  /** The trees of the serial run are in order. */
  lemma SerialOrdered(cfg: Config, init: Forest, threads: nat, log: seq<Entry>, sl: Slot)
    requires InitOk(cfg, init) && LogOk(cfg, threads, log)
    ensures Ordered(Get(Serial(init, log), sl))
  {
    InvStart(cfg, init, threads);
    SerialTraceRuns(cfg, init, threads, log);
    InvAlongRun(cfg, init, Start(init, threads), SerialTrace(log));
    assert Run(cfg, Start(init, threads), SerialTrace(log)).forest == Serial(init, log);
  }

  /** One step of the serial run. */
  lemma SerialStepDoes(cfg: Config, init: Forest, threads: nat, log: seq<Entry>, e: nat)
    requires InitOk(cfg, init) && LogOk(cfg, threads, log) && e < |log|
    ensures Does(log[e].job, Serial(init, log[..e]), Serial(init, log[..e + 1]), SerialResult(init, log, e))
  {
    assert log[..e + 1][..e] == log[..e];
    var job := log[e].job;
    if job.Move? { SerialOrdered(cfg, init, threads, log[..e], job.source); }
    ApplyDoes(cfg, job, Serial(init, log[..e]));
  }

  lemma LogStaysOk(cfg: Config, init: Forest, threads: nat, trace: seq<Step>)
    requires InitOk(cfg, init) && CanRun(cfg, Start(init, threads), trace)
    ensures LogOk(cfg, threads, Run(cfg, Start(init, threads), trace).log)
  {
    InvStart(cfg, init, threads);
    InvAlongRun(cfg, init, Start(init, threads), trace);
  }

  /** The forests lead from the first to the last by the jobs of the log, one at a time,
      with the levels recorded. */
  ghost predicate Leads(forests: seq<Forest>, log: seq<Entry>, results: map<nat, nat>) {
    && |forests| == |log| + 1 && (forall e: nat :: e in results <==> e < |log|)
    && forall e: nat :: e < |log| ==> Does(log[e].job, forests[e], forests[e + 1], results[e])
  }

  /** Conflict serializability by effects: whatever the interleaving, a run that has come to
      rest got from the first forest to the last as if the jobs had been done one at a
      time, in the order of their last mutex acquisitions, which keeps every thread's
      order. */
  lemma SerializableByEffects(cfg: Config, init: Forest, threads: nat, trace: seq<Step>)
    returns (forests: seq<Forest>)
    requires InitOk(cfg, init) && CanRun(cfg, Start(init, threads), trace)
    requires Quiescent(Run(cfg, Start(init, threads), trace))
    ensures var s := Run(cfg, Start(init, threads), trace);
      && Leads(forests, s.log, s.results)
      && forests[0] == init && forests[|s.log|] == s.forest
      && |s.begun| == threads && forall t: nat :: t < threads ==> s.begun[t] == Projection(s.log, t)
  {
    Serializable(cfg, init, threads, trace);
    LogStaysOk(cfg, init, threads, trace);
    var s := Run(cfg, Start(init, threads), trace);
    forests := seq(|s.log| + 1, e requires 0 <= e <= |s.log| => Serial(init, s.log[..e]));
    assert s.log[..|s.log|] == s.log;
    forall e: nat | e < |s.log| ensures Does(s.log[e].job, forests[e], forests[e + 1], s.results[e]) {
      SerialStepDoes(cfg, init, threads, s.log, e);
    }
  }

  // ---------- What is drawn ----------

  /** For each residue of the transaction draw by 4, the pools of the tree that loses the
      key and of the one that gains it. */
  const LOSER_POOLS: seq<nat> := [0, 1, 0, 1]
  const GAINER_POOLS: seq<nat> := [1, 0, 0, 1]

  /** The tree that a draw takes the key from, and the one it adds it to. */
  function Loser(d: Draw): Slot {
    Slot(LOSER_POOLS[d.txn % 4], if d.txn % 4 == 1 then d.dsB else d.dsA)
  }

  function Gainer(d: Draw): Slot {
    Slot(GAINER_POOLS[d.txn % 4], if d.txn % 4 == 1 then d.dsA else d.dsB)
  }

  /** One iteration of the loop, with nobody else at work: four draws out of five look a key
      up in the thread's own pool, the others move it from the loser to the gainer. */
  lemma IterationDoes(cfg: Config, s: State, t: nat, node: nat, d: Draw)
    requires t < |s.phases| == |s.begun| && s.phases[t].Idle? && s.owner == map[]
    requires DrawOk(cfg, d) && Choose(node, d).Do?
    requires forall sl :: Ordered(Get(s.forest, sl))
    ensures var job := Choose(node, d).job;
      && CanRun(cfg, s, Alone(Entry(t, job)))
      && var s' := Run(cfg, s, Alone(Entry(t, job)));
         && |s.log| in s'.results
         && if d.op <= 80 then
              && s'.forest == s.forest
              && SearchTakes(Get(s.forest, Slot(if node == 0 then 0 else 1, d.ds)), d.key, s'.results[|s.log|])
            else
              Does(Move(Loser(d), Gainer(d), d.key), s.forest, s'.forest, s'.results[|s.log|])
  {
    ChooseYieldsJobs(cfg, node, d);
    AloneDoes(cfg, s, Entry(t, Choose(node, d).job));
  }
}
