/** What `numa_BST_init` leaves in the global vectors: in every tree exactly the keys drawn
    for it, one for each of the keyspace/2 rounds, and a reader mutex for every tree of pool 0
    (Exprs/Examples/TestSuite.cpp:443-455, 466-502). */
module ForestContents {
  import opened SearchTrees
  import opened ForestInit
  import TransactionEngine

  type Config = TransactionEngine.Config

  /** The key that a step draws for tree `j` of pool `t`, if it does: thread `t` is in a round
      of insertions, at its `j`-th tree. */
  function DrawnBy(cfg: Config, s: State, m: Step, t: nat, j: nat): seq<int>
    requires Enabled(cfg, s, m)
  {
    var p := s.phases[m.thread];
    if m.thread == t && p.Fill? && p.j == j < cfg.numTrees then [m.key] else []
  }

  function DrawnFor(cfg: Config, s: State, trace: seq<Step>, t: nat, j: nat): seq<int>
    requires CanRun(cfg, s, trace)
    decreases |trace|
  {
    if trace == [] then []
    else DrawnBy(cfg, s, trace[0], t, j) + DrawnFor(cfg, Next(cfg, s, trace[0]), trace[1..], t, j)
  }

  /** The tree that `keys`, inserted in order, grow from an empty one. */
  function Grown(keys: seq<int>): Tree {
    if keys == [] then Leaf else Insert(Grown(keys[..|keys| - 1]), keys[|keys| - 1])
  }

  lemma {:induction false} GrownKeys(keys: seq<int>)
    ensures Keys(Grown(keys)) == set k | k in keys
  {
    if keys != [] {
      var rest, k := keys[..|keys| - 1], keys[|keys| - 1];
      GrownKeys(rest);
      InsertKeys(Grown(rest), k);
      assert keys == rest + [k];
    }
  }

  lemma GrownOneMore(keys: seq<int>, k: int)
    ensures Grown(keys + [k]) == Insert(Grown(keys), k)
  {
    assert (keys + [k])[..|keys|] == keys;
  }

  // ---------- The rounds of one thread ----------

  /** The rounds in which a thread at `p` has drawn a key for its tree `j`. */
  function RoundsDone(cfg: Config, p: Phase, j: nat): nat {
    match p
    case AboutTo(b) => if b == 3 then cfg.keyspace / 2 else 0
    case Waiting(b, _) => if b == 3 then cfg.keyspace / 2 else 0
    case Rounds(i) => i
    case Fill(i, k, _) => if j < k then i + 1 else i
    case Done => cfg.keyspace / 2
    case _ => 0
  }

  predicate RoundOk(cfg: Config, p: Phase) {
    match p
    case Rounds(i) => i <= cfg.keyspace / 2
    case Fill(i, j, _) => i < cfg.keyspace / 2 && j <= cfg.numTrees
    case _ => true
  }

  /** `drawn[j]` are the keys drawn so far for tree `j` of pool `t`: one for each round, and
      those that its tree holds. */
  ghost predicate HoldsDrawn(cfg: Config, cells: seq<Cell>, p: Phase, drawn: seq<seq<int>>) {
    && |drawn| == cfg.numTrees && RoundOk(cfg, p)
    && (forall j :: 0 <= j < |drawn| ==> |drawn[j]| == RoundsDone(cfg, p, j))
    && TreesBuilt(cfg.numTrees, p) <= |cells| && TreesBuilt(cfg.numTrees, p) <= cfg.numTrees
    && (forall j :: 0 <= j < TreesBuilt(cfg.numTrees, p) ==> cells[j] == TreeCell(Grown(drawn[j])))
  }

  ghost function DrawnAfter(cfg: Config, s: State, m: Step, t: nat, drawn: seq<seq<int>>)
    : (d: seq<seq<int>>)
    requires Enabled(cfg, s, m)
    ensures |d| == |drawn|
  {
    seq(|drawn|, j requires 0 <= j < |drawn| => drawn[j] + DrawnBy(cfg, s, m, t, j))
  }

  lemma NothingDrawn(cfg: Config, s: State, m: Step, t: nat, drawn: seq<seq<int>>)
    requires Enabled(cfg, s, m) && (m.thread != t || !s.phases[m.thread].Fill?)
    ensures DrawnAfter(cfg, s, m, t, drawn) == drawn
  {
    forall j | 0 <= j < |drawn| ensures DrawnAfter(cfg, s, m, t, drawn)[j] == drawn[j] {
      assert drawn[j] + [] == drawn[j];
    }
  }

  lemma OneDrawn(cfg: Config, s: State, m: Step, drawn: seq<seq<int>>)
    requires Enabled(cfg, s, m) && s.phases[m.thread].Fill? && |drawn| == cfg.numTrees
    ensures var k := s.phases[m.thread].j;
            DrawnAfter(cfg, s, m, m.thread, drawn)
            == if k < cfg.numTrees then drawn[k := drawn[k] + [m.key]] else drawn
  {
    var k := s.phases[m.thread].j;
    forall j | 0 <= j < |drawn| && j != k ensures DrawnAfter(cfg, s, m, m.thread, drawn)[j] == drawn[j] {
      assert drawn[j] + [] == drawn[j];
    }
  }

  /** A key is inserted. */
  lemma FillHolds(cfg: Config, vecs: Vecs, t: nat, p: Phase, key: int, drawn: seq<seq<int>>)
    requires t < 2 && p.Fill? && p.j < cfg.numTrees && HoldsDrawn(cfg, At(vecs, TreesOf(t)), p, drawn)
    ensures var vecs' := VecsAfter(cfg.numTrees, vecs, InsertInto(TreesOf(t), p.j, key));
            HoldsDrawn(cfg, At(vecs', TreesOf(t)), Fill(p.i, p.j + 1, p.x), drawn[p.j := drawn[p.j] + [key]])
  {
    var cells, drawn' := At(vecs, TreesOf(t)), drawn[p.j := drawn[p.j] + [key]];
    GrownOneMore(drawn[p.j], key);
    var cells' := cells[p.j := TreeCell(Insert(cells[p.j].tree, key))];
    assert At(VecsAfter(cfg.numTrees, vecs, InsertInto(TreesOf(t), p.j, key)), TreesOf(t)) == cells';
    forall j | 0 <= j < cfg.numTrees ensures cells'[j] == TreeCell(Grown(drawn'[j])) {
      if j != p.j { assert cells'[j] == cells[j] && drawn'[j] == drawn[j]; }
    }
  }

  /** A step of the thread that fills the pool, with the vectors at their final size, that
      inserts no key. */
  lemma BuildingHolds(cfg: Config, vecs: Vecs, t: nat, p: Phase, x: int, key: int, drawn: seq<seq<int>>)
    requires t < 2 && 1 <= x && DrawsOk(cfg.numTrees, p)
    requires HoldsDrawn(cfg, At(vecs, TreesOf(t)), p, drawn)
    requires p.Trees? || p.Locks? || p.Readers? || p.Rounds?
    requires |At(vecs, TreesOf(t))| == cfg.numTrees
    ensures var vecs' := VecsAfter(cfg.numTrees, vecs, EffectOf(cfg, t, p, x, key));
            HoldsDrawn(cfg, At(vecs', TreesOf(t)), PhaseAfter(cfg, t, p, x, 2), drawn)
  {
    if p.Trees? && p.i < cfg.numTrees { assert drawn[p.i] == []; }
  }

  /** Around the barriers and while resizing no tree is there yet, or all are done. */
  lemma AroundHolds(cfg: Config, s: State, m: Step, drawn: seq<seq<int>>)
    requires ForestInit.Inv(cfg, s) && Enabled(cfg, s, m)
    requires HoldsDrawn(cfg, At(s.vecs, TreesOf(m.thread)), s.phases[m.thread], drawn)
    requires var p := s.phases[m.thread]; p.AboutTo? || p.Waiting? || p.Resize?
    ensures HoldsDrawn(cfg, At(Next(cfg, s, m).vecs, TreesOf(m.thread)), Next(cfg, s, m).phases[m.thread],
                       DrawnAfter(cfg, s, m, m.thread, drawn))
  {
    var t, p, g := m.thread, s.phases[m.thread], s.barrier.generation;
    assert PhaseFits(p, g);
    BuiltAround(cfg, t, p, m.x, g);
    NothingDrawn(cfg, s, m, t, drawn);
  }

  lemma RoundHolds(cfg: Config, s: State, m: Step, drawn: seq<seq<int>>)
    requires ForestInit.Inv(cfg, s) && Enabled(cfg, s, m)
    requires HoldsDrawn(cfg, At(s.vecs, TreesOf(m.thread)), s.phases[m.thread], drawn)
    requires s.phases[m.thread].Fill?
    ensures HoldsDrawn(cfg, At(Next(cfg, s, m).vecs, TreesOf(m.thread)), Next(cfg, s, m).phases[m.thread],
                       DrawnAfter(cfg, s, m, m.thread, drawn))
  {
    var t, p := m.thread, s.phases[m.thread];
    assert PoolOk(cfg, s.vecs, t, p);
    OneDrawn(cfg, s, m, drawn);
    if p.j < cfg.numTrees {
      assert EffectOf(cfg, t, p, m.x, m.key) == InsertInto(TreesOf(t), p.j, m.key);
      FillHolds(cfg, s.vecs, t, p, m.key, drawn);
    } else {
      assert Next(cfg, s, m).vecs == s.vecs && Next(cfg, s, m).phases[t] == Rounds(p.i + 1);
      RoundEnds(cfg, At(s.vecs, TreesOf(t)), p, drawn);
    }
  }

  lemma RoundEnds(cfg: Config, cells: seq<Cell>, p: Phase, drawn: seq<seq<int>>)
    requires p.Fill? && p.j >= cfg.numTrees && HoldsDrawn(cfg, cells, p, drawn)
    ensures HoldsDrawn(cfg, cells, Rounds(p.i + 1), drawn)
  {
  }

  lemma OwnHolds(cfg: Config, s: State, m: Step, drawn: seq<seq<int>>)
    requires ForestInit.Inv(cfg, s) && Enabled(cfg, s, m)
    requires HoldsDrawn(cfg, At(s.vecs, TreesOf(m.thread)), s.phases[m.thread], drawn)
    ensures HoldsDrawn(cfg, At(Next(cfg, s, m).vecs, TreesOf(m.thread)), Next(cfg, s, m).phases[m.thread],
                       DrawnAfter(cfg, s, m, m.thread, drawn))
  {
    var t, p := m.thread, s.phases[m.thread];
    if p.AboutTo? || p.Waiting? || p.Resize? {
      AroundHolds(cfg, s, m, drawn);
    } else if p.Fill? {
      RoundHolds(cfg, s, m, drawn);
    } else {
      PlainHolds(cfg, s, m, drawn);
    }
  }

  lemma PlainHolds(cfg: Config, s: State, m: Step, drawn: seq<seq<int>>)
    requires ForestInit.Inv(cfg, s) && Enabled(cfg, s, m)
    requires HoldsDrawn(cfg, At(s.vecs, TreesOf(m.thread)), s.phases[m.thread], drawn)
    requires var p := s.phases[m.thread]; p.Trees? || p.Locks? || p.Readers? || p.Rounds?
    ensures HoldsDrawn(cfg, At(Next(cfg, s, m).vecs, TreesOf(m.thread)), Next(cfg, s, m).phases[m.thread],
                       DrawnAfter(cfg, s, m, m.thread, drawn))
  {
    var t, p, g := m.thread, s.phases[m.thread], s.barrier.generation;
    assert PhaseFits(p, g) && PoolOk(cfg, s.vecs, t, p);
    AllSized(cfg, s, TreesOf(t));
    NothingDrawn(cfg, s, m, t, drawn);
    BuildingHolds(cfg, s.vecs, t, p, m.x, m.key, drawn);
  }

  lemma OtherHolds(cfg: Config, s: State, m: Step, t: nat, drawn: seq<seq<int>>)
    requires ForestInit.Inv(cfg, s) && Enabled(cfg, s, m) && t < 2 && t != m.thread
    requires HoldsDrawn(cfg, At(s.vecs, TreesOf(t)), s.phases[t], drawn)
    ensures HoldsDrawn(cfg, At(Next(cfg, s, m).vecs, TreesOf(t)), Next(cfg, s, m).phases[t],
                       DrawnAfter(cfg, s, m, t, drawn))
  {
    NothingDrawn(cfg, s, m, t, drawn);
    assert PhaseFits(s.phases[m.thread], s.barrier.generation) && PhaseFits(s.phases[t], s.barrier.generation);
    EffectIsOwn(cfg, m.thread, s.phases[m.thread], m.x, m.key);
  }

  ghost function AllDrawn(cfg: Config, s: State, trace: seq<Step>, t: nat, drawn: seq<seq<int>>)
    : (d: seq<seq<int>>)
    requires CanRun(cfg, s, trace)
    ensures |d| == |drawn|
  {
    seq(|drawn|, j requires 0 <= j < |drawn| => drawn[j] + DrawnFor(cfg, s, trace, t, j))
  }

  lemma AllDrawnStep(cfg: Config, s: State, trace: seq<Step>, t: nat, drawn: seq<seq<int>>)
    requires trace != [] && CanRun(cfg, s, trace)
    ensures AllDrawn(cfg, s, trace, t, drawn)
         == AllDrawn(cfg, Next(cfg, s, trace[0]), trace[1..], t, DrawnAfter(cfg, s, trace[0], t, drawn))
  {
    var s', drawn' := Next(cfg, s, trace[0]), DrawnAfter(cfg, s, trace[0], t, drawn);
    forall j | 0 <= j < |drawn|
      ensures AllDrawn(cfg, s, trace, t, drawn)[j] == AllDrawn(cfg, s', trace[1..], t, drawn')[j]
    {
      var one, more := DrawnBy(cfg, s, trace[0], t, j), DrawnFor(cfg, s', trace[1..], t, j);
      assert drawn[j] + (one + more) == (drawn[j] + one) + more;
    }
  }

  lemma NoStepsDrawNothing(cfg: Config, s: State, t: nat, drawn: seq<seq<int>>)
    ensures AllDrawn(cfg, s, [], t, drawn) == drawn
  {
    forall j | 0 <= j < |drawn| ensures AllDrawn(cfg, s, [], t, drawn)[j] == drawn[j] {
      assert drawn[j] + [] == drawn[j];
    }
  }

  lemma {:induction false} HoldsAlong(cfg: Config, s: State, trace: seq<Step>, t: nat, drawn: seq<seq<int>>)
    requires ForestInit.Inv(cfg, s) && CanRun(cfg, s, trace) && t < 2
    requires HoldsDrawn(cfg, At(s.vecs, TreesOf(t)), s.phases[t], drawn)
    ensures |Run(cfg, s, trace).phases| == 2
    ensures HoldsDrawn(cfg, At(Run(cfg, s, trace).vecs, TreesOf(t)), Run(cfg, s, trace).phases[t],
                       AllDrawn(cfg, s, trace, t, drawn))
    decreases |trace|
  {
    if trace == [] {
      NoStepsDrawNothing(cfg, s, t, drawn);
    } else {
      var m := trace[0];
      if m.thread == t { OwnHolds(cfg, s, m, drawn); } else { OtherHolds(cfg, s, m, t, drawn); }
      InvPreserved(cfg, s, m);
      AllDrawnStep(cfg, s, trace, t, drawn);
      HoldsAlong(cfg, Next(cfg, s, m), trace[1..], t, DrawnAfter(cfg, s, m, t, drawn));
    }
  }

  lemma {:induction false} DrawnInKeyspace(cfg: Config, s: State, trace: seq<Step>, t: nat, j: nat)
    requires CanRun(cfg, s, trace)
    ensures forall k :: k in DrawnFor(cfg, s, trace, t, j) ==> 0 <= k <= cfg.keyspace
    decreases |trace|
  {
    if trace != [] { DrawnInKeyspace(cfg, Next(cfg, s, trace[0]), trace[1..], t, j); }
  }

  // ---------- Main results ----------

  /** When a thread is past the third barrier, every tree of both pools is what the keys drawn
      for it grow, keyspace/2 of them, and holds exactly these keys. */
  lemma TreesHoldTheirDraws(cfg: Config, vecs: Vecs, trace: seq<Step>, t: nat, pool: nat, j: nat)
    requires CanRun(cfg, Start(vecs), trace) && t < 2 && pool < 2 && j < cfg.numTrees
    requires |Run(cfg, Start(vecs), trace).phases| == 2
    requires Run(cfg, Start(vecs), trace).phases[t].Done?
    ensures var cells := At(Run(cfg, Start(vecs), trace).vecs, TreesOf(pool));
      var keys := DrawnFor(cfg, Start(vecs), trace, pool, j);
      && |cells| == cfg.numTrees && |keys| == cfg.keyspace / 2
      && (forall k :: k in keys ==> 0 <= k <= cfg.keyspace)
      && cells[j] == TreeCell(Grown(keys)) && Keys(cells[j].tree) == set k | k in keys
  {
    var s0, none := Start(vecs), seq(cfg.numTrees, _ => []);
    InitEstablishesForest(cfg, vecs, trace, t);
    HoldsAlong(cfg, s0, trace, pool, none);
    BothPast(cfg, vecs, trace, t, pool);
    var keys := DrawnFor(cfg, s0, trace, pool, j);
    assert AllDrawn(cfg, s0, trace, pool, none)[j] == [] + keys == keys;
    DrawnInKeyspace(cfg, s0, trace, pool, j);
    GrownKeys(keys);
  }

  /** Once one thread is past the third barrier, the other is past its last round. */
  lemma BothPast(cfg: Config, vecs: Vecs, trace: seq<Step>, t: nat, u: nat)
    requires CanRun(cfg, Start(vecs), trace) && t < 2 && u < 2
    requires |Run(cfg, Start(vecs), trace).phases| == 2
    requires Run(cfg, Start(vecs), trace).phases[t].Done?
    ensures var p := Run(cfg, Start(vecs), trace).phases[u];
      p.Done? || (p.Waiting? && p.barrier == 3)
  {
    InvAlong(cfg, Start(vecs), trace);
    var s := Run(cfg, Start(vecs), trace);
    assert PhaseFits(s.phases[t], s.barrier.generation) && PhaseFits(s.phases[u], s.barrier.generation);
  }

  // ---------- The reader mutexes ----------

  function ReadersBuilt(n: nat, p: Phase): nat {
    match p
    case AboutTo(b) => if b == 3 then n else 0
    case Waiting(b, _) => if b == 3 then n else 0
    case Resize(_) => 0
    case Trees(_) => 0
    case Locks(i) => i
    case Readers(i, _) => i
    case _ => n
  }

  ghost predicate ReadersOk(cfg: Config, s: State) {
    |s.phases| == 2 && LocksReady(At(s.vecs, Readers0), ReadersBuilt(cfg.numTrees, s.phases[0]))
  }

  lemma VecFrame(n: nat, vecs: Vecs, e: Effect, v: Vec)
    requires v !in VecOf(e)
    ensures At(VecsAfter(n, vecs, e), v) == At(vecs, v)
  {
  }

  /** How far the reader mutexes are when thread 0 takes a step. */
  lemma ReadersStep(cfg: Config, p: Phase, x: int, g: nat)
    requires PhaseFits(p, g) && DrawsOk(cfg.numTrees, p)
    ensures ReadersBuilt(cfg.numTrees, PhaseAfter(cfg, 0, p, x, g))
         == ReadersBuilt(cfg.numTrees, p) + (if p.Readers? then 1 else 0)
    ensures p.Resize? ==> ReadersBuilt(cfg.numTrees, p) == 0
  {
  }

  lemma ReadersPreserved(cfg: Config, s: State, m: Step)
    requires ForestInit.Inv(cfg, s) && ReadersOk(cfg, s) && Enabled(cfg, s, m)
    ensures ReadersOk(cfg, Next(cfg, s, m))
  {
    var t, p, g := m.thread, s.phases[m.thread], s.barrier.generation;
    var e := EffectOf(cfg, t, p, m.x, m.key);
    assert PhaseFits(p, g) && PoolOk(cfg, s.vecs, t, p) && (p.Resize? || p.Readers? ==> t == 0);
    EffectIsOwn(cfg, t, p, m.x, m.key);
    if t == 0 { ReadersStep(cfg, p, m.x, g); }
    if p.Readers? {
      AllSized(cfg, s, Readers0);
    } else if Readers0 !in VecOf(e) {
      VecFrame(cfg.numTrees, s.vecs, e, Readers0);
    }
  }

  lemma {:induction false} ReadersAlong(cfg: Config, s: State, trace: seq<Step>)
    requires ForestInit.Inv(cfg, s) && ReadersOk(cfg, s) && CanRun(cfg, s, trace)
    ensures ReadersOk(cfg, Run(cfg, s, trace))
    decreases |trace|
  {
    if trace != [] {
      InvPreserved(cfg, s, trace[0]);
      ReadersPreserved(cfg, s, trace[0]);
      ReadersAlong(cfg, Next(cfg, s, trace[0]), trace[1..]);
    }
  }

  /** The node-0 thread creates a reader mutex for every tree of its pool. */
  lemma NodeZeroReadersExist(cfg: Config, vecs: Vecs, trace: seq<Step>, t: nat)
    requires CanRun(cfg, Start(vecs), trace) && t < 2
    requires |Run(cfg, Start(vecs), trace).phases| == 2
    requires Run(cfg, Start(vecs), trace).phases[t].Done?
    ensures var cells := At(Run(cfg, Start(vecs), trace).vecs, Readers0);
      |cells| == cfg.numTrees && forall i :: 0 <= i < cfg.numTrees ==> cells[i].MutexCell?
  {
    ReadersAlong(cfg, Start(vecs), trace);
    BothPast(cfg, vecs, trace, t, 0);
    InitEstablishesForest(cfg, vecs, trace, t);
  }

  /** The vector `was` after `std::vector::resize` to `n`: its first entries, and null behind
      them. */
  ghost predicate KeptAndPadded(was: seq<Cell>, cells: seq<Cell>, n: nat) {
    |cells| == n && forall i :: 0 <= i < n ==> cells[i] == if i < |was| then was[i] else Null
  }

  ghost predicate OldReadersOk(cfg: Config, s: State, was: seq<Cell>) {
    && |s.phases| == 2
    && if ResizedCount(s.phases[0]) == |RESIZED| then KeptAndPadded(was, At(s.vecs, Readers1), cfg.numTrees)
       else At(s.vecs, Readers1) == was
  }

  /** A step of thread 0 resizes one more vector, or none. */
  lemma ResizedStep(cfg: Config, p: Phase, x: int, g: nat)
    requires PhaseFits(p, g)
    ensures ResizedCount(PhaseAfter(cfg, 0, p, x, g)) == ResizedCount(p) + (if p.Resize? then 1 else 0)
  {
  }

  lemma OldReadersPreserved(cfg: Config, s: State, m: Step, was: seq<Cell>)
    requires ForestInit.Inv(cfg, s) && OldReadersOk(cfg, s, was) && Enabled(cfg, s, m)
    ensures OldReadersOk(cfg, Next(cfg, s, m), was)
  {
    var t, p, g := m.thread, s.phases[m.thread], s.barrier.generation;
    var e := EffectOf(cfg, t, p, m.x, m.key);
    assert PhaseFits(p, g) && PoolOk(cfg, s.vecs, t, p) && (p.Resize? ==> t == 0);
    EffectIsOwn(cfg, t, p, m.x, m.key);
    if t == 0 { ResizedStep(cfg, p, m.x, g); }
    if p.Resize? && p.k == |RESIZED| - 1 {
      assert e == ResizeTo(Readers1);
    } else {
      assert Readers1 !in VecOf(e);
      VecFrame(cfg.numTrees, s.vecs, e, Readers1);
    }
  }

  lemma {:induction false} OldReadersAlong(cfg: Config, s: State, trace: seq<Step>, was: seq<Cell>)
    requires ForestInit.Inv(cfg, s) && OldReadersOk(cfg, s, was) && CanRun(cfg, s, trace)
    ensures OldReadersOk(cfg, Run(cfg, s, trace), was)
    decreases |trace|
  {
    if trace != [] {
      InvPreserved(cfg, s, trace[0]);
      OldReadersPreserved(cfg, s, trace[0], was);
      OldReadersAlong(cfg, Next(cfg, s, trace[0]), trace[1..], was);
    }
  }

  /** `BST_reader_lk1` keeps what an earlier initialisation left in it, cut or padded with
      null to its new size. */
  lemma NodeOneReadersAreKept(cfg: Config, vecs: Vecs, trace: seq<Step>, t: nat)
    requires CanRun(cfg, Start(vecs), trace) && t < 2
    requires |Run(cfg, Start(vecs), trace).phases| == 2
    requires Run(cfg, Start(vecs), trace).phases[t].Done?
    ensures KeptAndPadded(At(vecs, Readers1), At(Run(cfg, Start(vecs), trace).vecs, Readers1), cfg.numTrees)
  {
    OldReadersAlong(cfg, Start(vecs), trace, At(vecs, Readers1));
    BothPast(cfg, vecs, trace, t, 0);
  }
}
