/** `numa_BST_init` (Exprs/Examples/TestSuite.cpp:391-509): one thread for each node,
    framed by three waits on a barrier of two, resize and fill the global vectors. */
module ForestInit {
  import opened Barriers
  import opened SearchTrees
  import TransactionEngine
  import TransactionInvariants

  /** The source overwrites its crossover argument with this value. */
  const CROSSOVER := -1

  datatype Vec = Trees0 | Trees1 | Locks0 | Locks1 | Readers0 | Readers1

  const RESIZED: seq<Vec> := [Trees0, Trees1, Locks0, Locks1, Readers0, Readers1]

  datatype Cell = Null | TreeCell(tree: Tree) | MutexCell

  type Vecs = map<Vec, seq<Cell>>

  /** `Rounds(i)` draws the pool of insertion round `i`; `Fill(i, j, x)` is about to insert
      into tree `j` of that pool. */
  datatype Phase =
    | AboutTo(barrier: nat)
    | Waiting(barrier: nat, gen: nat)
    | Resize(k: nat)
    | Trees(i: nat)
    | Locks(i: nat)
    | Readers(i: nat, x: int)
    | Rounds(i: nat)
    | Fill(i: nat, j: nat, x: int)
    | Done

  /** `fault` records an access outside a vector or through a null tree. */
  datatype State = State(vecs: Vecs, phases: seq<Phase>, barrier: Barrier, fault: bool)

  /** A step of a thread, with its draw of `xDist` in 1..100 and of a key in 0..keyspace. */
  datatype Step = Step(thread: nat, x: int, key: int)

  datatype Effect =
    | NoEffect
    | ResizeTo(vec: Vec)
    | Put(vec: Vec, i: nat, cell: Cell)
    | InsertInto(vec: Vec, i: nat, key: int)

  /** The pool a draw selects: the other node's at or below the crossover, else its own. */
  function Pool(t: nat, x: int): nat {
    if x <= CROSSOVER then (if t == 0 then 1 else 0) else if t == 0 then 0 else 1
  }

  function TreesOf(pool: nat): Vec { if pool == 0 then Trees0 else Trees1 }
  function LocksOf(pool: nat): Vec { if pool == 0 then Locks0 else Locks1 }
  function ReadersOf(pool: nat): Vec { if pool == 0 then Readers0 else Readers1 }

  function EffectOf(cfg: TransactionEngine.Config, t: nat, p: Phase, x: int, key: int): Effect {
    var n := cfg.numTrees;
    match p
    case Resize(k) => if k < |RESIZED| then ResizeTo(RESIZED[k]) else NoEffect
    case Trees(i) => if i < n then Put(TreesOf(Pool(t, x)), i, TreeCell(Leaf)) else NoEffect
    case Locks(i) => if i < n then Put(LocksOf(Pool(t, x)), i, MutexCell) else NoEffect
    case Readers(i, y) => Put(ReadersOf(Pool(t, y)), i, MutexCell)
    case Fill(_, j, y) => if j < n then InsertInto(TreesOf(Pool(t, y)), j, key) else NoEffect
    case _ => NoEffect
  }

  function PhaseAfter(cfg: TransactionEngine.Config, t: nat, p: Phase, x: int, gen: nat): Phase {
    var n := cfg.numTrees;
    match p
    case AboutTo(b) => Waiting(b, gen)
    case Waiting(b, _) =>
      if b == 1 then (if t == 0 then Resize(0) else AboutTo(2))
      else if b == 2 then Trees(0) else Done
    case Resize(k) => if k + 1 < |RESIZED| then Resize(k + 1) else AboutTo(2)
    case Trees(i) => if i < n then Trees(i + 1) else Locks(0)
    case Locks(i) =>
      if i < n then (if t == 0 then Readers(i, x) else Locks(i + 1)) else Rounds(0)
    case Readers(i, _) => Locks(i + 1)
    case Rounds(i) => if i < cfg.keyspace / 2 then Fill(i, 0, x) else AboutTo(3)
    case Fill(i, j, y) => if j < n then Fill(i, j + 1, y) else Rounds(i + 1)
    case Done => Done
  }

  function At(vecs: Vecs, v: Vec): seq<Cell> {
    if v in vecs then vecs[v] else []
  }

  /** `std::vector::resize`: keeps what fits, fills up with null. */
  function Resized(cells: seq<Cell>, n: nat): seq<Cell> {
    if n <= |cells| then cells[..n] else cells + seq(n - |cells|, _ => Null)
  }

  function VecsAfter(n: nat, vecs: Vecs, e: Effect): Vecs {
    match e
    case NoEffect => vecs
    case ResizeTo(v) => vecs[v := Resized(At(vecs, v), n)]
    case Put(v, i, c) => if i < |At(vecs, v)| then vecs[v := At(vecs, v)[i := c]] else vecs
    case InsertInto(v, i, k) =>
      if i < |At(vecs, v)| && At(vecs, v)[i].TreeCell?
      then vecs[v := At(vecs, v)[i := TreeCell(Insert(At(vecs, v)[i].tree, k))]] else vecs
  }

  predicate Faults(vecs: Vecs, e: Effect) {
    match e
    case Put(v, i, _) => i >= |At(vecs, v)|
    case InsertInto(v, i, _) => i >= |At(vecs, v)| || !At(vecs, v)[i].TreeCell?
    case _ => false
  }

  predicate Enabled(cfg: TransactionEngine.Config, s: State, m: Step) {
    && |s.phases| == 2 && m.thread < 2
    && 1 <= m.x <= 100 && 0 <= m.key <= cfg.keyspace
    && match s.phases[m.thread]
       case Waiting(_, gen) => gen < s.barrier.generation
       case Done => false
       case _ => true
  }

  function Next(cfg: TransactionEngine.Config, s: State, m: Step): State
    requires Enabled(cfg, s, m)
  {
    var p := s.phases[m.thread];
    var e := EffectOf(cfg, m.thread, p, m.x, m.key);
    State(VecsAfter(cfg.numTrees, s.vecs, e),
          s.phases[m.thread := PhaseAfter(cfg, m.thread, p, m.x, s.barrier.generation)],
          if p.AboutTo? then s.barrier.Arrive() else s.barrier,
          s.fault || Faults(s.vecs, e))
  }

  /** The vectors may hold anything an earlier initialisation left in them. */
  function Start(vecs: Vecs): State {
    State(vecs, [AboutTo(1), AboutTo(1)], Barrier(2, 0, 0), false)
  }

  predicate CanRun(cfg: TransactionEngine.Config, s: State, trace: seq<Step>)
    decreases |trace|
  {
    trace == [] || (Enabled(cfg, s, trace[0]) && CanRun(cfg, Next(cfg, s, trace[0]), trace[1..]))
  }

  function Run(cfg: TransactionEngine.Config, s: State, trace: seq<Step>): State
    requires CanRun(cfg, s, trace)
    decreases |trace|
  {
    if trace == [] then s else Run(cfg, Next(cfg, s, trace[0]), trace[1..])
  }

  // ---------- The invariant ----------

  predicate PhaseFits(p: Phase, g: nat) {
    match p
    case AboutTo(b) => 1 <= b <= 3 && b == g + 1
    case Waiting(b, gen) => 1 <= b <= 3 && gen == b - 1 && (b == g + 1 || b == g)
    case Resize(k) => g == 1 && k < |RESIZED|
    case Done => g == 3
    case _ => g == 2
  }

  predicate Blocked(p: Phase, g: nat) {
    p.Waiting? && p.gen == g
  }

  ghost predicate BarrierOk(s: State) {
    && |s.phases| == 2 && s.barrier.count == 2 && s.barrier.generation <= 3
    && PhaseFits(s.phases[0], s.barrier.generation)
    && PhaseFits(s.phases[1], s.barrier.generation)
    && !s.phases[1].Resize? && !s.phases[1].Readers?
    && s.barrier.arrived
       == (if Blocked(s.phases[0], s.barrier.generation) then 1 else 0)
        + (if Blocked(s.phases[1], s.barrier.generation) then 1 else 0)
    && s.barrier.arrived < 2
  }

  /** How many vectors thread 0 has resized. */
  function ResizedCount(p: Phase): nat {
    match p
    case AboutTo(b) => if b <= 1 then 0 else |RESIZED|
    case Waiting(b, _) => if b <= 1 then 0 else |RESIZED|
    case Resize(k) => k
    case _ => |RESIZED|
  }

  ghost predicate SizesOk(n: nat, vecs: Vecs, p0: Phase) {
    forall k :: 0 <= k < |RESIZED| && k < ResizedCount(p0) ==> |At(vecs, RESIZED[k])| == n
  }

  /** How many trees and mutexes of its own pool a thread has created. */
  function TreesBuilt(n: nat, p: Phase): nat {
    match p
    case AboutTo(b) => if b == 3 then n else 0
    case Waiting(b, _) => if b == 3 then n else 0
    case Resize(_) => 0
    case Trees(i) => i
    case _ => n
  }

  function LocksBuilt(n: nat, p: Phase): nat {
    match p
    case AboutTo(b) => if b == 3 then n else 0
    case Waiting(b, _) => if b == 3 then n else 0
    case Resize(_) => 0
    case Trees(_) => 0
    case Locks(i) => i
    case Readers(i, _) => i + 1
    case _ => n
  }

  predicate DrawsOk(n: nat, p: Phase) {
    match p
    case Trees(i) => i <= n
    case Locks(i) => i <= n
    case Readers(i, x) => i < n && 1 <= x
    case Fill(_, j, x) => j <= n && 1 <= x
    case _ => true
  }

  ghost predicate TreesReady(cfg: TransactionEngine.Config, cells: seq<Cell>, count: nat) {
    count <= |cells|
    && forall i :: 0 <= i < count ==>
         cells[i].TreeCell? && TransactionEngine.TreeOk(cfg, cells[i].tree)
  }

  ghost predicate LocksReady(cells: seq<Cell>, count: nat) {
    count <= |cells| && forall i :: 0 <= i < count ==> cells[i].MutexCell?
  }

  ghost predicate PoolOk(cfg: TransactionEngine.Config, vecs: Vecs, t: nat, p: Phase) {
    && DrawsOk(cfg.numTrees, p)
    && TreesReady(cfg, At(vecs, TreesOf(t)), TreesBuilt(cfg.numTrees, p))
    && LocksReady(At(vecs, LocksOf(t)), LocksBuilt(cfg.numTrees, p))
  }

  ghost predicate Inv(cfg: TransactionEngine.Config, s: State) {
    && BarrierOk(s) && !s.fault
    && SizesOk(cfg.numTrees, s.vecs, s.phases[0])
    && PoolOk(cfg, s.vecs, 0, s.phases[0]) && PoolOk(cfg, s.vecs, 1, s.phases[1])
  }

  function VecOf(e: Effect): set<Vec> {
    match e
    case NoEffect => {}
    case ResizeTo(v) => {v}
    case Put(v, _, _) => {v}
    case InsertInto(v, _, _) => {v}
  }

  /** The vector the next step of a thread touches, if any. */
  function Touched(cfg: TransactionEngine.Config, s: State, m: Step): set<Vec>
    requires Enabled(cfg, s, m)
  {
    VecOf(EffectOf(cfg, m.thread, s.phases[m.thread], m.x, m.key))
  }

  /** Only a resize changes a vector's length. */
  lemma LengthFrame(n: nat, vecs: Vecs, e: Effect, v: Vec)
    ensures |At(VecsAfter(n, vecs, e), v)|
         == if e.ResizeTo? && e.vec == v then n else |At(vecs, v)|
  {
  }

  lemma PhaseAfterFits(cfg: TransactionEngine.Config, t: nat, p: Phase, x: int, g: nat)
    requires PhaseFits(p, g) && !p.AboutTo? && !p.Done? && !Blocked(p, g)
    requires t == 1 ==> !p.Resize? && !p.Readers?
    ensures PhaseFits(PhaseAfter(cfg, t, p, x, g), g) && !Blocked(PhaseAfter(cfg, t, p, x, g), g)
    ensures t == 1 ==> !PhaseAfter(cfg, t, p, x, g).Resize? && !PhaseAfter(cfg, t, p, x, g).Readers?
  {
  }

  /** An arrival blocks the thread, or releases both. */
  lemma ArrivalFits(b: Barrier, p: Phase, other: Phase)
    requires b.count == 2 && b.generation <= 3
    requires p.AboutTo? && PhaseFits(p, b.generation) && PhaseFits(other, b.generation)
    requires b.arrived == if Blocked(other, b.generation) then 1 else 0
    ensures var b', p' := b.Arrive(), Waiting(p.barrier, b.generation);
      && b'.count == 2 && b'.generation <= 3
      && PhaseFits(p', b'.generation) && PhaseFits(other, b'.generation)
      && b'.arrived == (if Blocked(p', b'.generation) then 1 else 0)
                     + (if Blocked(other, b'.generation) then 1 else 0)
      && b'.arrived < 2
  {
  }

  lemma BarrierWhenArrived(s: State, s': State, t: nat)
    requires BarrierOk(s) && t < 2 && s.phases[t].AboutTo?
    requires s'.phases == s.phases[t := Waiting(s.phases[t].barrier, s.barrier.generation)]
    requires s'.barrier == s.barrier.Arrive()
    ensures BarrierOk(s')
  {
    ArrivalFits(s.barrier, s.phases[t], s.phases[1 - t]);
  }

  lemma BarrierWhenMoved(s: State, s': State, t: nat, p': Phase)
    requires BarrierOk(s) && t < 2 && !Blocked(s.phases[t], s.barrier.generation)
    requires s'.phases == s.phases[t := p'] && s'.barrier == s.barrier
    requires PhaseFits(p', s.barrier.generation) && !Blocked(p', s.barrier.generation)
    requires t == 1 ==> !p'.Resize? && !p'.Readers?
    ensures BarrierOk(s')
  {
  }

  lemma BarrierPreserved(cfg: TransactionEngine.Config, s: State, m: Step)
    requires BarrierOk(s) && Enabled(cfg, s, m)
    ensures BarrierOk(Next(cfg, s, m))
  {
    var t, p, g := m.thread, s.phases[m.thread], s.barrier.generation;
    if p.AboutTo? {
      BarrierWhenArrived(s, Next(cfg, s, m), t);
    } else {
      assert PhaseFits(p, g) && !Blocked(p, g);
      PhaseAfterFits(cfg, t, p, m.x, g);
      BarrierWhenMoved(s, Next(cfg, s, m), t, PhaseAfter(cfg, t, p, m.x, g));
    }
  }

  /** A step's effect stays within the thread's own pool, except for the resizing. */
  lemma EffectIsOwn(cfg: TransactionEngine.Config, t: nat, p: Phase, x: int, key: int)
    requires t < 2 && 1 <= x && DrawsOk(cfg.numTrees, p)
    ensures var e := EffectOf(cfg, t, p, x, key);
      && (e.ResizeTo? ==> p.Resize?)
      && (!p.Resize? ==> VecOf(e) <= {TreesOf(t), LocksOf(t)} + (if p.Readers? then {ReadersOf(t)} else {}))
  {
  }

  /** Past the second barrier every vector has its final size. */
  lemma AllSized(cfg: TransactionEngine.Config, s: State, v: Vec)
    requires Inv(cfg, s) && s.barrier.generation >= 2
    ensures |At(s.vecs, v)| == cfg.numTrees
  {
    assert PhaseFits(s.phases[0], s.barrier.generation);
    assert ResizedCount(s.phases[0]) == |RESIZED|;
    var k := match v
      case Trees0 => 0 case Trees1 => 1 case Locks0 => 2
      case Locks1 => 3 case Readers0 => 4 case Readers1 => 5;
    assert RESIZED[k] == v;
  }

  /** One step of the thread that fills pool `t`, with the vectors at their final size. */
  lemma FillingKeepsPool(cfg: TransactionEngine.Config, vecs: Vecs, t: nat, p: Phase, x: int, key: int)
    requires t < 2 && 1 <= x && 0 <= key <= cfg.keyspace && PoolOk(cfg, vecs, t, p)
    requires !p.AboutTo? && !p.Waiting? && !p.Resize?
    requires forall v: Vec :: |At(vecs, v)| == cfg.numTrees
    ensures var e := EffectOf(cfg, t, p, x, key);
      && !Faults(vecs, e)
      && PoolOk(cfg, VecsAfter(cfg.numTrees, vecs, e), t, PhaseAfter(cfg, t, p, x, 2))
  {
    var e := EffectOf(cfg, t, p, x, key);
    var vecs', p' := VecsAfter(cfg.numTrees, vecs, e), PhaseAfter(cfg, t, p, x, 2);
    BuiltAfter(cfg, t, p, x);
    if p.Fill? && p.j < cfg.numTrees {
      var tree := At(vecs, TreesOf(t))[p.j].tree;
      InsertKeys(tree, key);
      InsertOrdered(tree, key);
    }
    assert PoolOk(cfg, vecs', t, p');
  }

  /** Only the creating phases build, one cell at a time. */
  lemma BuiltAfter(cfg: TransactionEngine.Config, t: nat, p: Phase, x: int)
    requires DrawsOk(cfg.numTrees, p) && 1 <= x && !p.AboutTo? && !p.Waiting? && !p.Resize?
    ensures var n, p' := cfg.numTrees, PhaseAfter(cfg, t, p, x, 2);
      && DrawsOk(n, p')
      && TreesBuilt(n, p') == TreesBuilt(n, p) + (if p.Trees? && p.i < n then 1 else 0)
      && LocksBuilt(n, p') == LocksBuilt(n, p) + (if p.Locks? && p.i < n then 1 else 0)
  {
  }

  /** Around the barriers and while resizing nothing is built. */
  lemma BuiltAround(cfg: TransactionEngine.Config, t: nat, p: Phase, x: int, g: nat)
    requires PhaseFits(p, g) && (p.AboutTo? || p.Waiting? || p.Resize?)
    ensures var n, p' := cfg.numTrees, PhaseAfter(cfg, t, p, x, g);
      && DrawsOk(n, p')
      && TreesBuilt(n, p') == TreesBuilt(n, p) && LocksBuilt(n, p') == LocksBuilt(n, p)
      && (p.Resize? ==> TreesBuilt(n, p) == LocksBuilt(n, p) == 0)
  {
  }

  lemma OwnPoolPreserved(cfg: TransactionEngine.Config, s: State, m: Step)
    requires Inv(cfg, s) && Enabled(cfg, s, m)
    ensures PoolOk(cfg, Next(cfg, s, m).vecs, m.thread, Next(cfg, s, m).phases[m.thread])
    ensures !Next(cfg, s, m).fault
  {
    var t, p, g := m.thread, s.phases[m.thread], s.barrier.generation;
    var e := EffectOf(cfg, t, p, m.x, m.key);
    assert PhaseFits(p, g) && PoolOk(cfg, s.vecs, t, p);
    if p.AboutTo? || p.Waiting? || p.Resize? {
      BuiltAround(cfg, t, p, m.x, g);
      assert !Faults(s.vecs, e) && (e.NoEffect? || p.Resize?);
    } else {
      forall v: Vec ensures |At(s.vecs, v)| == cfg.numTrees { AllSized(cfg, s, v); }
      FillingKeepsPool(cfg, s.vecs, t, p, m.x, m.key);
      assert PhaseAfter(cfg, t, p, m.x, g) == PhaseAfter(cfg, t, p, m.x, 2);
    }
  }

  /** A step of the other thread leaves this thread's pool alone. */
  lemma OtherPoolPreserved(cfg: TransactionEngine.Config, s: State, m: Step)
    requires Inv(cfg, s) && Enabled(cfg, s, m)
    ensures PoolOk(cfg, Next(cfg, s, m).vecs, 1 - m.thread, s.phases[1 - m.thread])
  {
  }

  lemma SizesPreserved(cfg: TransactionEngine.Config, s: State, m: Step)
    requires Inv(cfg, s) && Enabled(cfg, s, m)
    ensures SizesOk(cfg.numTrees, Next(cfg, s, m).vecs, Next(cfg, s, m).phases[0])
  {
    var t, p := m.thread, s.phases[m.thread];
    var e := EffectOf(cfg, t, p, m.x, m.key);
    var p0 := Next(cfg, s, m).phases[0];
    assert PhaseFits(p, s.barrier.generation);
    EffectIsOwn(cfg, t, p, m.x, m.key);
    forall k | 0 <= k < |RESIZED| && k < ResizedCount(p0)
      ensures |At(Next(cfg, s, m).vecs, RESIZED[k])| == cfg.numTrees
    {
      LengthFrame(cfg.numTrees, s.vecs, e, RESIZED[k]);
      assert k < ResizedCount(s.phases[0]) || e == ResizeTo(RESIZED[k]);
    }
  }

  lemma InvPreserved(cfg: TransactionEngine.Config, s: State, m: Step)
    requires Inv(cfg, s) && Enabled(cfg, s, m)
    ensures Inv(cfg, Next(cfg, s, m))
  {
    BarrierPreserved(cfg, s, m);
    SizesPreserved(cfg, s, m);
    OwnPoolPreserved(cfg, s, m);
    OtherPoolPreserved(cfg, s, m);
  }

  lemma {:induction false} InvAlong(cfg: TransactionEngine.Config, s: State, trace: seq<Step>)
    requires Inv(cfg, s) && CanRun(cfg, s, trace)
    ensures Inv(cfg, Run(cfg, s, trace))
    decreases |trace|
  {
    if trace != [] {
      InvPreserved(cfg, s, trace[0]);
      InvAlong(cfg, Next(cfg, s, trace[0]), trace[1..]);
    }
  }

  // ---------- Main results ----------

  /** No interleaving writes outside a vector or through a null tree, and at no moment can
      the two threads next touch the same vector. */
  lemma NoRace(cfg: TransactionEngine.Config, vecs: Vecs, trace: seq<Step>, m0: Step, m1: Step)
    requires CanRun(cfg, Start(vecs), trace)
    requires m0.thread == 0 && m1.thread == 1
    requires Enabled(cfg, Run(cfg, Start(vecs), trace), m0)
    requires Enabled(cfg, Run(cfg, Start(vecs), trace), m1)
    ensures var s := Run(cfg, Start(vecs), trace);
      !s.fault && Touched(cfg, s, m0) !! Touched(cfg, s, m1)
  {
    InvAlong(cfg, Start(vecs), trace);
    var s := Run(cfg, Start(vecs), trace);
    assert PhaseFits(s.phases[0], s.barrier.generation);
    assert PhaseFits(s.phases[1], s.barrier.generation);
    EffectIsOwn(cfg, 0, s.phases[0], m0.x, m0.key);
    EffectIsOwn(cfg, 1, s.phases[1], m1.x, m1.key);
    if s.phases[0].Resize? { assert Touched(cfg, s, m1) == {}; }
  }

  /** The forest of both pools as the transaction engine sees it. */
  ghost function ForestOf(cfg: TransactionEngine.Config, vecs: Vecs): TransactionEngine.Forest
    requires forall v: Vec :: |At(vecs, v)| == cfg.numTrees
  {
    map pool: nat, i: nat | pool < 2 && i < cfg.numTrees
      :: TransactionEngine.Slot(pool, i)
      := match At(vecs, TreesOf(pool))[i] case TreeCell(t) => t case _ => Leaf
  }

  /** Past the third barrier every tree and every main mutex of both pools exists, and the
      forest is one the transaction engine can start from. */
  lemma InitEstablishesForest(cfg: TransactionEngine.Config, vecs: Vecs, trace: seq<Step>, t: nat)
    requires CanRun(cfg, Start(vecs), trace) && t < 2
    requires |Run(cfg, Start(vecs), trace).phases| == 2
    requires Run(cfg, Start(vecs), trace).phases[t].Done?
    ensures var s := Run(cfg, Start(vecs), trace);
      && !s.fault
      && (forall v: Vec :: |At(s.vecs, v)| == cfg.numTrees)
      && (forall pool: nat, i: nat :: pool < 2 && i < cfg.numTrees ==>
            At(s.vecs, TreesOf(pool))[i].TreeCell? && At(s.vecs, LocksOf(pool))[i].MutexCell?)
      && TransactionInvariants.InitOk(cfg, ForestOf(cfg, s.vecs))
  {
    InvAlong(cfg, Start(vecs), trace);
    DoneMeansForest(cfg, Run(cfg, Start(vecs), trace), t);
  }

  lemma DoneMeansForest(cfg: TransactionEngine.Config, s: State, t: nat)
    requires Inv(cfg, s) && t < 2 == |s.phases| && s.phases[t].Done?
    ensures !s.fault && (forall v: Vec :: |At(s.vecs, v)| == cfg.numTrees)
    ensures forall pool: nat, i: nat :: pool < 2 && i < cfg.numTrees ==>
              At(s.vecs, TreesOf(pool))[i].TreeCell? && At(s.vecs, LocksOf(pool))[i].MutexCell?
    ensures TransactionInvariants.InitOk(cfg, ForestOf(cfg, s.vecs))
  {
    assert PhaseFits(s.phases[t], s.barrier.generation);
    assert PhaseFits(s.phases[1 - t], s.barrier.generation);
    forall v: Vec ensures |At(s.vecs, v)| == cfg.numTrees { AllSized(cfg, s, v); }
    forall pool: nat, i: nat | pool < 2 && i < cfg.numTrees
      ensures At(s.vecs, TreesOf(pool))[i].TreeCell? && At(s.vecs, LocksOf(pool))[i].MutexCell?
      ensures TransactionEngine.TreeOk(cfg, At(s.vecs, TreesOf(pool))[i].tree)
    {
      assert PoolOk(cfg, s.vecs, pool, s.phases[pool]);
    }
  }

  predicate AllNull(cells: seq<Cell>) {
    forall i :: 0 <= i < |cells| ==> cells[i].Null?
  }

  lemma NullPreserved(cfg: TransactionEngine.Config, s: State, m: Step)
    requires Inv(cfg, s) && AllNull(At(s.vecs, Readers1)) && Enabled(cfg, s, m)
    ensures AllNull(At(Next(cfg, s, m).vecs, Readers1))
  {
  }

  lemma {:induction false} NullAlong(cfg: TransactionEngine.Config, s: State, trace: seq<Step>)
    requires Inv(cfg, s) && AllNull(At(s.vecs, Readers1)) && CanRun(cfg, s, trace)
    ensures AllNull(At(Run(cfg, s, trace).vecs, Readers1))
    decreases |trace|
  {
    if trace != [] {
      var m := trace[0];
      InvPreserved(cfg, s, m);
      NullPreserved(cfg, s, m);
      NullAlong(cfg, Next(cfg, s, m), trace[1..]);
    }
  }

  /** The node-1 thread creates no reader mutexes: on a first initialisation
      `BST_reader_lk1` has its size but holds only null pointers. */
  lemma NodeOneReadersStayNull(cfg: TransactionEngine.Config, trace: seq<Step>, t: nat)
    requires CanRun(cfg, Start(map[]), trace) && t < 2
    requires |Run(cfg, Start(map[]), trace).phases| == 2
    requires Run(cfg, Start(map[]), trace).phases[t].Done?
    ensures var cells := At(Run(cfg, Start(map[]), trace).vecs, Readers1);
      |cells| == cfg.numTrees && AllNull(cells)
  {
    NullAlong(cfg, Start(map[]), trace);
    InitEstablishesForest(cfg, map[], trace, t);
  }
}
