/** The transaction loop of `BinarySearchTest` (Exprs/Examples/TestSuite.cpp:890-1027) as
    a transition system: any number of threads take the mutexes of one or two trees one at
    a time, work on the trees, and release the mutexes one at a time. A step is one mutex
    operation or one whole tree operation (made under that tree's mutex), by one thread. */
module TransactionEngine {
  import opened SearchTrees

  /** A place in one of the two pools: `BSTs0[index]` or `BSTs1[index]`, and the mutex of
      the same index in `BST_lk0` or `BST_lk1`. */
  datatype Slot = Slot(pool: nat, index: nat)

  type Forest = map<Slot, Tree>

  datatype Config = Config(numTrees: nat, keyspace: nat)

  /** One loop iteration that does work: a lookup, or "remove from one tree, insert into
      another". */
  datatype Job =
    | Lookup(at: Slot, key: int)
    | Move(source: Slot, dest: Slot, key: int)

  datatype Phase =
    | Idle
    | Acquiring(job: Job, held: nat)
    | Locked(job: Job, entry: nat)
    | Removed(job: Job, entry: nat)
    | Unlocking(job: Job, entry: nat, released: nat)

  datatype Entry = Entry(thread: nat, job: Job)

  /** `log` lists the jobs in the order in which their last mutex was taken; `results` maps
      a job's place in the log to the level its lookup or insertion returned; `begun` lists
      each thread's jobs in program order. */
  datatype State = State(
    forest: Forest,
    owner: map<Slot, nat>,
    phases: seq<Phase>,
    log: seq<Entry>,
    results: map<nat, nat>,
    begun: seq<seq<Job>>)

  datatype Action = Begin(job: Job) | Acquire | Work | Unlock

  datatype Step = Step(thread: nat, action: Action)

  // ---------- One iteration's draw ----------

  predicate SlotOk(cfg: Config, sl: Slot) {
    sl.pool < 2 && sl.index < cfg.numTrees
  }

  predicate JobOk(cfg: Config, job: Job) {
    && 0 <= job.key <= cfg.keyspace
    && match job
       case Lookup(at, _) => SlotOk(cfg, at)
       case Move(a, b, _) => SlotOk(cfg, a) && SlotOk(cfg, b) && a != b
  }

  /** The mutexes of a job in the order the source takes (and later releases) them: for
      trees of different pools the one in pool 0 first, within a pool the lower index
      first. */
  function Locks(job: Job): seq<Slot> {
    match job
    case Lookup(at, _) => [at]
    case Move(a, b, _) =>
      if a.pool != b.pool then (if a.pool == 0 then [a, b] else [b, a])
      else if a.index < b.index then [a, b] else [b, a]
  }

  datatype Draw = Draw(op: int, ds: nat, dsA: nat, dsB: nat, txn: int, key: int)

  predicate DrawOk(cfg: Config, d: Draw) {
    && 1 <= d.op <= 100 && 1 <= d.txn <= 100 && 0 <= d.key <= cfg.keyspace
    && d.ds < cfg.numTrees && d.dsA < cfg.numTrees && d.dsB < cfg.numTrees
  }

  datatype Choice = Skip | Do(job: Job)

  /** The branches of the loop body; `Skip` is its `continue`, taken when a move within one
      pool draws the same tree twice. */
  function Choose(node: nat, d: Draw): Choice {
    if d.op <= 80 then Do(Lookup(Slot(if node == 0 then 0 else 1, d.ds), d.key))
    else if d.txn % 4 == 0 then Do(Move(Slot(0, d.dsA), Slot(1, d.dsB), d.key))
    else if d.txn % 4 == 1 then Do(Move(Slot(1, d.dsB), Slot(0, d.dsA), d.key))
    else if d.dsA == d.dsB then Skip
    else
      var pool := if d.txn % 4 == 2 then 0 else 1;
      Do(Move(Slot(pool, d.dsA), Slot(pool, d.dsB), d.key))
  }

  /** Every draw that is not skipped is a job on existing, distinct trees, and every such
      job is drawn by some thread. */
  lemma ChooseYieldsJobs(cfg: Config, node: nat, d: Draw)
    requires DrawOk(cfg, d)
    ensures Choose(node, d).Do? ==> JobOk(cfg, Choose(node, d).job)
    ensures Choose(node, d).Skip? <==> d.op > 80 && d.txn % 4 >= 2 && d.dsA == d.dsB
  {
  }

  lemma EveryJobIsDrawn(cfg: Config, job: Job) returns (node: nat, d: Draw)
    requires JobOk(cfg, job)
    ensures node < 2 && DrawOk(cfg, d) && Choose(node, d) == Do(job)
  {
    match job
    case Lookup(at, k) => node, d := at.pool, Draw(1, at.index, at.index, at.index, 1, k);
    case Move(a, b, k) =>
      node := 0;
      if a.pool == 0 && b.pool == 1 { d := Draw(81, a.index, a.index, b.index, 4, k); }
      else if a.pool == 1 && b.pool == 0 { d := Draw(81, a.index, b.index, a.index, 1, k); }
      else if a.pool == 0 { d := Draw(81, a.index, a.index, b.index, 2, k); }
      else { d := Draw(81, a.index, a.index, b.index, 3, k); }
  }

  /** The rank under which every thread takes its mutexes in strictly increasing order. */
  function Rank(cfg: Config, sl: Slot): nat {
    sl.pool * cfg.numTrees + sl.index
  }

  lemma LocksInRankOrder(cfg: Config, job: Job)
    requires JobOk(cfg, job)
    ensures 1 <= |Locks(job)| <= 2
    ensures forall i :: 0 <= i < |Locks(job)| ==> SlotOk(cfg, Locks(job)[i])
    ensures forall i, j :: 0 <= i < j < |Locks(job)| ==>
              Rank(cfg, Locks(job)[i]) < Rank(cfg, Locks(job)[j])
  {
  }

  // ---------- Transitions ----------

  function Get(f: Forest, sl: Slot): Tree {
    if sl in f then f[sl] else Leaf
  }

  function RemovedTree(t: Tree, k: int): Tree {
    match Remove(t, k)
    case Kept(t') => t'
    case FreedAccess => t
  }

  predicate Enabled(cfg: Config, s: State, step: Step) {
    && step.thread < |s.phases| == |s.begun|
    && match (step.action, s.phases[step.thread])
       case (Begin(job), Idle) => JobOk(cfg, job)
       case (Acquire, Acquiring(job, h)) => h < |Locks(job)| && Locks(job)[h] !in s.owner
       case (Work, Locked(Lookup(_, _), _)) => true
       case (Work, Locked(Move(a, _, k), _)) => Remove(Get(s.forest, a), k).Kept?
       case (Work, Removed(Move(_, _, _), _)) => true
       case (Unlock, Unlocking(job, _, r)) => r < |Locks(job)|
       case _ => false
  }

  function Next(cfg: Config, s: State, step: Step): State
    requires Enabled(cfg, s, step)
  {
    var t := step.thread;
    match (step.action, s.phases[t])
    case (Begin(job), Idle) =>
      s.(phases := s.phases[t := Acquiring(job, 0)], begun := s.begun[t := s.begun[t] + [job]])
    case (Acquire, Acquiring(job, h)) =>
      var s' := s.(owner := s.owner[Locks(job)[h] := t]);
      if h + 1 < |Locks(job)| then s'.(phases := s.phases[t := Acquiring(job, h + 1)])
      else s'.(phases := s.phases[t := Locked(job, |s.log|)], log := s.log + [Entry(t, job)])
    case (Work, Locked(Lookup(at, k), e)) =>
      s.(phases := s.phases[t := Unlocking(Lookup(at, k), e, 0)],
         results := s.results[e := Level(Get(s.forest, at), k)])
    case (Work, Locked(Move(a, b, k), e)) =>
      s.(phases := s.phases[t := Removed(Move(a, b, k), e)],
         forest := s.forest[a := RemovedTree(Get(s.forest, a), k)])
    case (Work, Removed(Move(a, b, k), e)) =>
      s.(phases := s.phases[t := Unlocking(Move(a, b, k), e, 0)],
         forest := s.forest[b := Insert(Get(s.forest, b), k)],
         results := s.results[e := Level(Get(s.forest, b), k)])
    case (Unlock, Unlocking(job, e, r)) =>
      var s' := s.(owner := s.owner - {Locks(job)[r]});
      if r + 1 < |Locks(job)| then s'.(phases := s.phases[t := Unlocking(job, e, r + 1)])
      else s'.(phases := s.phases[t := Idle])
  }

  predicate CanRun(cfg: Config, s: State, trace: seq<Step>)
    decreases |trace|
  {
    trace == [] || (Enabled(cfg, s, trace[0]) && CanRun(cfg, Next(cfg, s, trace[0]), trace[1..]))
  }

  function Run(cfg: Config, s: State, trace: seq<Step>): State
    requires CanRun(cfg, s, trace)
    decreases |trace|
  {
    if trace == [] then s else Run(cfg, Next(cfg, s, trace[0]), trace[1..])
  }

  function Start(init: Forest, threads: nat): State {
    State(init, map[], seq(threads, _ => Idle), [], map[], seq(threads, _ => []))
  }

  predicate Quiescent(s: State) {
    forall t :: 0 <= t < |s.phases| ==> s.phases[t].Idle?
  }

  ghost predicate TreeOk(cfg: Config, t: Tree) {
    Ordered(t) && forall x <- Keys(t) :: 0 <= x <= cfg.keyspace
  }

  ghost predicate ForestOk(cfg: Config, f: Forest) {
    forall sl :: sl in f ==> TreeOk(cfg, f[sl])
  }

  // ---------- The serial reference ----------

  /** What a job does to the forest, and the level it returns, when it runs alone. */
  function Apply(job: Job, f: Forest): Forest {
    match job
    case Lookup(_, _) => f
    case Move(a, b, k) =>
      var f' := f[a := RemovedTree(Get(f, a), k)];
      f'[b := Insert(Get(f', b), k)]
  }

  function ResultOf(job: Job, f: Forest): nat {
    match job
    case Lookup(at, k) => Level(Get(f, at), k)
    case Move(_, b, k) => Level(Get(f, b), k)
  }

  function Serial(init: Forest, log: seq<Entry>): Forest {
    if log == [] then init else Apply(log[|log| - 1].job, Serial(init, log[..|log| - 1]))
  }

  function SerialResult(init: Forest, log: seq<Entry>, e: nat): nat
    requires e < |log|
  {
    ResultOf(log[e].job, Serial(init, log[..e]))
  }

  function Projection(log: seq<Entry>, t: nat): seq<Job> {
    if log == [] then []
    else
      var last := log[|log| - 1];
      Projection(log[..|log| - 1], t) + (if last.thread == t then [last.job] else [])
  }
}
