/** The invariants that every run of the transaction engine keeps. */
module TransactionInvariants {
  import opened SearchTrees
  import opened TransactionEngine

  /** The mutexes a thread in this phase holds. */
  function Held(p: Phase): seq<Slot> {
    match p
    case Idle => []
    case Acquiring(job, h) => if h <= |Locks(job)| then Locks(job)[..h] else []
    case Locked(job, _) => Locks(job)
    case Removed(job, _) => Locks(job)
    case Unlocking(job, _, r) => if r <= |Locks(job)| then Locks(job)[r..] else []
  }

  predicate Holds(s: State, t: nat, sl: Slot) {
    t < |s.phases| && sl in Held(s.phases[t])
  }

  predicate InBody(p: Phase) {
    p.Locked? || p.Removed?
  }

  ghost predicate PhaseOk(cfg: Config, log: seq<Entry>, t: nat, p: Phase) {
    match p
    case Idle => true
    case Acquiring(job, h) => JobOk(cfg, job) && h < |Locks(job)|
    case Locked(job, e) => JobOk(cfg, job) && e < |log| && log[e] == Entry(t, job)
    case Removed(job, e) => JobOk(cfg, job) && job.Move? && e < |log| && log[e] == Entry(t, job)
    case Unlocking(job, e, r) =>
      JobOk(cfg, job) && e < |log| && log[e] == Entry(t, job) && r < |Locks(job)|
  }

  ghost predicate Shape(cfg: Config, s: State) {
    && |s.begun| == |s.phases|
    && (forall t :: 0 <= t < |s.phases| ==> PhaseOk(cfg, s.log, t, s.phases[t]))
    && (forall e :: 0 <= e < |s.log| ==> s.log[e].thread < |s.phases| && JobOk(cfg, s.log[e].job))
  }

  /** A mutex is recorded as owned exactly by the thread whose phase holds it. */
  ghost predicate Ownership(s: State) {
    && (forall t, sl :: Holds(s, t, sl) ==> sl in s.owner && s.owner[sl] == t)
    && (forall sl :: sl in s.owner ==> Holds(s, s.owner[sl], sl))
  }

  /** The slot is locked by a thread that has taken its last mutex and not finished its
      tree operations. */
  ghost predicate Pending(s: State, sl: Slot) {
    sl in s.owner && s.owner[sl] < |s.phases| && InBody(s.phases[s.owner[sl]])
  }

  /** What the tree operations still ahead of this thread make of its trees is what the
      serial run has there already. */
  ghost predicate Ahead(f: Forest, serial: Forest, p: Phase) {
    match p
    case Locked(Lookup(at, _), _) => Get(f, at) == Get(serial, at)
    case Locked(Move(a, b, k), _) =>
      && RemovedTree(Get(f, a), k) == Get(serial, a)
      && Insert(Get(f, b), k) == Get(serial, b)
    case Removed(Move(a, b, k), _) =>
      && Get(f, a) == Get(serial, a)
      && Insert(Get(f, b), k) == Get(serial, b)
    case _ => true
  }

  ghost predicate Values(init: Forest, s: State) {
    var serial := Serial(init, s.log);
    && (forall sl :: !Pending(s, sl) ==> Get(s.forest, sl) == Get(serial, sl))
    && (forall t :: 0 <= t < |s.phases| ==> Ahead(s.forest, serial, s.phases[t]))
  }

  /** A thread in the body will return what the serial run returns; a recorded result is
      that of the serial run; and every entry of the log is in one of these two states. */
  ghost predicate Answers(init: Forest, s: State) {
    && (forall t :: 0 <= t < |s.phases| && InBody(s.phases[t]) && s.phases[t].entry < |s.log| ==>
          ResultOf(s.phases[t].job, s.forest) == SerialResult(init, s.log, s.phases[t].entry))
    && (forall e :: e in s.results ==>
          e < |s.log| && s.results[e] == SerialResult(init, s.log, e))
    && (forall e :: 0 <= e < |s.log| ==>
          || e in s.results
          || (s.log[e].thread < |s.phases| && InBody(s.phases[s.log[e].thread])
              && s.phases[s.log[e].thread].entry == e))
  }

  ghost predicate ProgramOrder(s: State) {
    && |s.begun| == |s.phases|
    && forall t :: 0 <= t < |s.phases| ==>
      s.begun[t] == Projection(s.log, t)
                    + (if s.phases[t].Acquiring? then [s.phases[t].job] else [])
  }

  /** From the insertion on and for as long as the destination's mutex is held, the moved
      key is in the destination. */
  ghost predicate MovedKeyArrived(s: State) {
    forall t :: 0 <= t < |s.phases| ==>
      match s.phases[t]
      case Unlocking(Move(_, b, k), e, r) =>
        b in Held(s.phases[t]) ==> k in Keys(Get(s.forest, b))
      case _ => true
  }

  ghost predicate Inv(cfg: Config, init: Forest, s: State) {
    && Shape(cfg, s) && Ownership(s)
    && Values(init, s) && Answers(init, s)
    && ProgramOrder(s)
    && ForestOk(cfg, s.forest) && MovedKeyArrived(s)
    && s.forest.Keys == init.Keys == Serial(init, s.log).Keys
    && (forall sl :: SlotOk(cfg, sl) ==> sl in init)
  }

  // ---------- Preservation, one conjunct at a time ----------

  lemma JobSlotsAreLocked(job: Job)
    ensures job.Lookup? ==> job.at in Locks(job)
    ensures job.Move? ==> job.source in Locks(job) && job.dest in Locks(job)
    ensures forall sl :: sl in Locks(job) ==>
              (job.Lookup? && sl == job.at) || (job.Move? && (sl == job.source || sl == job.dest))
  {
  }

  lemma ShapePreserved(cfg: Config, s: State, step: Step)
    requires Shape(cfg, s) && Enabled(cfg, s, step)
    ensures Shape(cfg, Next(cfg, s, step))
  {
    var s' := Next(cfg, s, step);
    forall t | 0 <= t < |s'.phases| ensures PhaseOk(cfg, s'.log, t, s'.phases[t]) {
      assert PhaseOk(cfg, s.log, t, s.phases[t]);
      assert PhaseOk(cfg, s.log, step.thread, s.phases[step.thread]);
    }
  }

  lemma PrefixGrows(job: Job, h: nat)
    requires h < |Locks(job)|
    ensures forall sl :: sl in Locks(job)[..h + 1] <==> sl in Locks(job)[..h] || sl == Locks(job)[h]
    ensures Locks(job)[..|Locks(job)|] == Locks(job)
  {
    assert Locks(job)[..h + 1] == Locks(job)[..h] + [Locks(job)[h]];
  }

  /** Acquiring adds the mutex in turn to those the thread holds. */
  lemma HeldAfterAcquire(cfg: Config, s: State, step: Step)
    requires Shape(cfg, s) && Enabled(cfg, s, step) && step.action.Acquire?
    ensures var p, p' := s.phases[step.thread], Next(cfg, s, step).phases[step.thread];
      forall sl :: sl in Held(p') <==> sl in Held(p) || sl == Locks(p.job)[p.held]
  {
    PrefixGrows(s.phases[step.thread].job, s.phases[step.thread].held);
  }

  /** Unlocking takes the mutex in turn away. */
  lemma HeldAfterUnlock(cfg: Config, s: State, step: Step)
    requires Shape(cfg, s) && Enabled(cfg, s, step) && step.action.Unlock?
    ensures var p, p' := s.phases[step.thread], Next(cfg, s, step).phases[step.thread];
      && Holds(s, step.thread, Locks(p.job)[p.released])
      && forall sl :: sl in Held(p') <==> sl in Held(p) && sl != Locks(p.job)[p.released]
  {
  }

  lemma HeldAfterOther(cfg: Config, s: State, step: Step)
    requires Enabled(cfg, s, step) && (step.action.Begin? || step.action.Work?)
    ensures Held(Next(cfg, s, step).phases[step.thread]) == Held(s.phases[step.thread])
  {
    var p := s.phases[step.thread];
    if !p.Idle? { assert Locks(p.job)[0..] == Locks(p.job); }
  }

  lemma OwnershipWhenSame(s: State, s': State, t: nat)
    requires Ownership(s) && t < |s.phases| == |s'.phases| && s'.owner == s.owner
    requires forall u :: 0 <= u < |s.phases| && u != t ==> s'.phases[u] == s.phases[u]
    requires Held(s'.phases[t]) == Held(s.phases[t])
    ensures Ownership(s')
  {
    assert forall u: nat, sl :: Holds(s', u, sl) <==> Holds(s, u, sl);
  }

  lemma OwnershipWhenTaken(s: State, s': State, t: nat, x: Slot)
    requires Ownership(s) && t < |s.phases| == |s'.phases|
    requires x !in s.owner && s'.owner == s.owner[x := t]
    requires forall u :: 0 <= u < |s.phases| && u != t ==> s'.phases[u] == s.phases[u]
    requires forall sl :: sl in Held(s'.phases[t]) <==> sl in Held(s.phases[t]) || sl == x
    ensures Ownership(s')
  {
    assert forall u: nat, sl :: Holds(s', u, sl) <==> Holds(s, u, sl) || (u == t && sl == x);
  }

  lemma OwnershipWhenReleased(s: State, s': State, t: nat, x: Slot)
    requires Ownership(s) && t < |s.phases| == |s'.phases|
    requires Holds(s, t, x) && s'.owner == s.owner - {x}
    requires forall u :: 0 <= u < |s.phases| && u != t ==> s'.phases[u] == s.phases[u]
    requires forall sl :: sl in Held(s'.phases[t]) <==> sl in Held(s.phases[t]) && sl != x
    ensures Ownership(s')
  {
    assert forall u: nat, sl :: Holds(s', u, sl) <==> Holds(s, u, sl) && !(u == t && sl == x);
  }

  lemma OwnershipAcquire(cfg: Config, s: State, step: Step)
    requires Shape(cfg, s) && Ownership(s) && Enabled(cfg, s, step) && step.action.Acquire?
    ensures Ownership(Next(cfg, s, step))
  {
    var p := s.phases[step.thread];
    HeldAfterAcquire(cfg, s, step);
    OwnershipWhenTaken(s, Next(cfg, s, step), step.thread, Locks(p.job)[p.held]);
  }

  lemma OwnershipUnlock(cfg: Config, s: State, step: Step)
    requires Shape(cfg, s) && Ownership(s) && Enabled(cfg, s, step) && step.action.Unlock?
    ensures Ownership(Next(cfg, s, step))
  {
    var p := s.phases[step.thread];
    HeldAfterUnlock(cfg, s, step);
    OwnershipWhenReleased(s, Next(cfg, s, step), step.thread, Locks(p.job)[p.released]);
  }

  lemma OwnershipPreserved(cfg: Config, s: State, step: Step)
    requires Shape(cfg, s) && Ownership(s) && Enabled(cfg, s, step)
    ensures Ownership(Next(cfg, s, step))
  {
    if step.action.Acquire? {
      OwnershipAcquire(cfg, s, step);
    } else if step.action.Unlock? {
      OwnershipUnlock(cfg, s, step);
    } else {
      HeldAfterOther(cfg, s, step);
      OwnershipWhenSame(s, Next(cfg, s, step), step.thread);
    }
  }

  /** Slots another thread holds are not the stepping thread's. */
  lemma HeldApart(s: State, t: nat, u: nat, sl: Slot)
    requires Ownership(s) && t != u && Holds(s, t, sl)
    ensures !Holds(s, u, sl)
  {
  }

  predicate LastAcquire(s: State, step: Step)
    requires step.thread < |s.phases|
  {
    step.action.Acquire? && s.phases[step.thread].Acquiring?
    && s.phases[step.thread].held + 1 == |Locks(s.phases[step.thread].job)|
  }

  lemma SerialSnoc(init: Forest, log: seq<Entry>, x: Entry)
    ensures Serial(init, log + [x]) == Apply(x.job, Serial(init, log))
    ensures forall e :: 0 <= e < |log| ==>
              SerialResult(init, log + [x], e) == SerialResult(init, log, e)
    ensures SerialResult(init, log + [x], |log|) == ResultOf(x.job, Serial(init, log))
    ensures forall t: nat :: Projection(log + [x], t)
              == Projection(log, t) + (if x.thread == t then [x.job] else [])
  {
    assert (log + [x])[..|log|] == log;
    forall e | 0 <= e < |log|
      ensures SerialResult(init, log + [x], e) == SerialResult(init, log, e)
    {
      assert (log + [x])[..e] == log[..e];
    }
  }

  // ---------- The forest against the serial run ----------

  predicate Touches(job: Job, sl: Slot) {
    match job
    case Lookup(at, _) => sl == at
    case Move(a, b, _) => sl == a || sl == b
  }

  lemma BodyHolds(s: State, t: nat, sl: Slot)
    requires t < |s.phases| && InBody(s.phases[t])
    ensures Touches(s.phases[t].job, sl) <==> Holds(s, t, sl)
  {
    JobSlotsAreLocked(s.phases[t].job);
  }

  lemma AheadFrame(f: Forest, serial: Forest, f': Forest, serial': Forest, p: Phase)
    requires InBody(p) ==> forall sl :: Touches(p.job, sl) ==>
               Get(f', sl) == Get(f, sl) && Get(serial', sl) == Get(serial, sl)
    ensures Ahead(f', serial', p) == Ahead(f, serial, p)
    ensures InBody(p) ==> ResultOf(p.job, f') == ResultOf(p.job, f)
  {
    if InBody(p) {
      match p.job
      case Lookup(at, _) => assert Touches(p.job, at);
      case Move(a, b, _) => assert Touches(p.job, a) && Touches(p.job, b);
    }
  }

  /** A step leaves the body state of every other thread alone when the forest and the
      serial forest change only at slots the stepping thread holds. */
  lemma OthersFramed(s: State, s': State, t: nat, serial: Forest, serial': Forest)
    requires Ownership(s) && t < |s.phases| == |s'.phases|
    requires forall u :: 0 <= u < |s.phases| && u != t ==> s'.phases[u] == s.phases[u]
    requires forall sl :: Get(s'.forest, sl) != Get(s.forest, sl) ==> Holds(s, t, sl)
    requires forall sl :: Get(serial', sl) != Get(serial, sl) ==> Holds(s, t, sl)
    requires forall u :: 0 <= u < |s.phases| && u != t ==> Ahead(s.forest, serial, s.phases[u])
    ensures forall u :: 0 <= u < |s.phases| && u != t ==> Ahead(s'.forest, serial', s'.phases[u])
    ensures forall u :: 0 <= u < |s.phases| && u != t && InBody(s.phases[u]) ==>
              ResultOf(s.phases[u].job, s'.forest) == ResultOf(s.phases[u].job, s.forest)
  {
    forall u | 0 <= u < |s.phases| && u != t
      ensures Ahead(s'.forest, serial', s'.phases[u])
      ensures InBody(s.phases[u]) ==>
        ResultOf(s.phases[u].job, s'.forest) == ResultOf(s.phases[u].job, s.forest)
    {
      if InBody(s.phases[u]) {
        forall sl | Touches(s.phases[u].job, sl)
          ensures Get(s'.forest, sl) == Get(s.forest, sl) && Get(serial', sl) == Get(serial, sl)
        {
          BodyHolds(s, u, sl);
          HeldApart(s, u, t, sl);
        }
      }
      AheadFrame(s.forest, serial, s'.forest, serial', s.phases[u]);
    }
  }

  lemma NextOutsideBody(cfg: Config, s: State, step: Step)
    requires Shape(cfg, s) && Ownership(s) && Enabled(cfg, s, step)
    requires !step.action.Work? && !LastAcquire(s, step)
    ensures var s', t := Next(cfg, s, step), step.thread;
      && s'.forest == s.forest && s'.log == s.log && s'.results == s.results
      && s'.phases == s.phases[t := s'.phases[t]]
      && !InBody(s.phases[t]) && !InBody(s'.phases[t])
      && (forall sl :: sl in s.owner && s.owner[sl] != t && s.owner[sl] < |s.phases| ==>
            sl in s'.owner && s'.owner[sl] == s.owner[sl])
  {
    assert PhaseOk(cfg, s.log, step.thread, s.phases[step.thread]);
    if step.action.Unlock? { HeldAfterUnlock(cfg, s, step); }
  }

  lemma ValuesFramed(init: Forest, s: State, s': State, t: nat)
    requires t < |s.phases| == |s'.phases| && s'.phases == s.phases[t := s'.phases[t]] && !InBody(s'.phases[t])
    requires s'.forest == s.forest && s'.log == s.log
    requires forall sl :: Pending(s, sl) ==> Pending(s', sl)
    requires Values(init, s)
    ensures Values(init, s')
  {
  }

  lemma StillPending(s: State, s': State, t: nat)
    requires t < |s.phases| == |s'.phases| && s'.phases == s.phases[t := s'.phases[t]] && !InBody(s.phases[t])
    requires forall sl :: sl in s.owner && s.owner[sl] != t && s.owner[sl] < |s.phases| ==>
               sl in s'.owner && s'.owner[sl] == s.owner[sl]
    ensures forall sl :: Pending(s, sl) ==> Pending(s', sl)
  {
  }

  /** A step outside the body moves neither forest. */
  lemma ValuesOutsideBody(cfg: Config, init: Forest, s: State, step: Step)
    requires Shape(cfg, s) && Ownership(s) && Values(init, s) && Enabled(cfg, s, step)
    requires !step.action.Work? && !LastAcquire(s, step)
    ensures Values(init, Next(cfg, s, step))
  {
    NextOutsideBody(cfg, s, step);
    StillPending(s, Next(cfg, s, step), step.thread);
    ValuesFramed(init, s, Next(cfg, s, step), step.thread);
  }

  /** Before the last mutex is taken, the job's trees are those of the serial run. */
  lemma OwnTreesAreSerial(cfg: Config, init: Forest, s: State, step: Step)
    requires Shape(cfg, s) && Ownership(s) && Values(init, s) && Enabled(cfg, s, step)
    requires LastAcquire(s, step)
    ensures var t, job := step.thread, s.phases[step.thread].job;
      && Next(cfg, s, step) == s.(owner := s.owner[Locks(job)[|Locks(job)| - 1] := t],
                                  phases := s.phases[t := Locked(job, |s.log|)],
                                  log := s.log + [Entry(t, job)])
      && forall sl :: Touches(job, sl) ==> Get(s.forest, sl) == Get(Serial(init, s.log), sl)
  {
    var s', t := Next(cfg, s, step), step.thread;
    var job := s.phases[t].job;
    OwnershipPreserved(cfg, s, step);
    forall sl | Touches(job, sl) ensures Get(s.forest, sl) == Get(Serial(init, s.log), sl) {
      BodyHolds(s', t, sl);
      assert !Pending(s, sl);
    }
  }

  /** Taking the last mutex: the serial run makes the whole move at this point, the forest
      makes it later. */
  lemma ValuesLastAcquire(cfg: Config, init: Forest, s: State, step: Step)
    requires Shape(cfg, s) && Ownership(s) && Values(init, s) && Enabled(cfg, s, step)
    requires LastAcquire(s, step)
    ensures Values(init, Next(cfg, s, step))
    ensures var job, serial := s.phases[step.thread].job, Serial(init, s.log);
      ResultOf(job, s.forest) == ResultOf(job, serial)
  {
    var t, job := step.thread, s.phases[step.thread].job;
    SerialSnoc(init, s.log, Entry(t, job));
    OwnershipPreserved(cfg, s, step);
    OwnTreesAreSerial(cfg, init, s, step);
    assert PhaseOk(cfg, s.log, t, s.phases[t]);
    JobAhead(cfg, job, s.forest, Serial(init, s.log), |s.log|);
    LockedValues(init, s, Next(cfg, s, step), t, job);
  }

  lemma JobAhead(cfg: Config, job: Job, f: Forest, serial: Forest, e: nat)
    requires JobOk(cfg, job)
    requires forall sl :: Touches(job, sl) ==> Get(f, sl) == Get(serial, sl)
    ensures Ahead(f, Apply(job, serial), Locked(job, e))
    ensures ResultOf(job, f) == ResultOf(job, serial)
    ensures forall sl :: !Touches(job, sl) ==> Get(Apply(job, serial), sl) == Get(serial, sl)
  {
    match job
    case Lookup(at, _) => assert Touches(job, at);
    case Move(a, b, _) => assert Touches(job, a) && Touches(job, b);
  }

  lemma LockedValues(init: Forest, s: State, s': State, t: nat, job: Job)
    requires t < |s.phases| == |s'.phases| && !InBody(s.phases[t]) && Values(init, s)
    requires s'.phases == s.phases[t := Locked(job, |s.log|)] && Ownership(s')
    requires s'.forest == s.forest
    requires forall sl :: sl in s.owner ==> sl in s'.owner && s'.owner[sl] == s.owner[sl]
    requires Ahead(s'.forest, Serial(init, s'.log), s'.phases[t])
    requires forall sl :: !Touches(job, sl) ==>
               Get(Serial(init, s'.log), sl) == Get(Serial(init, s.log), sl)
    ensures Values(init, s')
  {
    var serial, serial' := Serial(init, s.log), Serial(init, s'.log);
    forall sl ensures Touches(job, sl) <==> Holds(s', t, sl) { BodyHolds(s', t, sl); }
    OthersFramed(s', s', t, serial, serial');
    assert forall sl :: Pending(s, sl) ==> Pending(s', sl);
    forall sl | !Pending(s', sl) ensures Get(s'.forest, sl) == Get(serial', sl) {
      assert !Touches(job, sl);
    }
  }

  /** A tree operation of thread `t`: slots it does not hold keep their trees, and when it
      leaves the body its own trees are those of the serial run. */
  lemma ValuesAfterWork(init: Forest, s: State, s': State, t: nat)
    requires Ownership(s) && Values(init, s)
    requires t < |s.phases| == |s'.phases| && InBody(s.phases[t])
    requires s'.phases == s.phases[t := s'.phases[t]]
    requires s'.owner == s.owner && s'.log == s.log
    requires forall sl :: Get(s'.forest, sl) != Get(s.forest, sl) ==> Holds(s, t, sl)
    requires Ahead(s'.forest, Serial(init, s.log), s'.phases[t])
    requires InBody(s'.phases[t]) ||
             forall sl :: Holds(s, t, sl) ==> Get(s'.forest, sl) == Get(Serial(init, s.log), sl)
    ensures Values(init, s')
    ensures forall u :: 0 <= u < |s.phases| && u != t && InBody(s.phases[u]) ==>
              ResultOf(s.phases[u].job, s'.forest) == ResultOf(s.phases[u].job, s.forest)
  {
    var serial := Serial(init, s.log);
    OthersFramed(s, s', t, serial, serial);
    forall sl | !Pending(s', sl) ensures Get(s'.forest, sl) == Get(serial, sl) {
      if Pending(s, sl) { assert Holds(s, s.owner[sl], sl); }
    }
  }

  /** A tree operation changes only trees of its job, and what is ahead of the thread
      afterwards makes of them what was ahead before. */
  lemma WorkOnTrees(cfg: Config, s: State, step: Step, serial: Forest)
    requires Enabled(cfg, s, step) && step.action.Work?
    requires PhaseOk(cfg, s.log, step.thread, s.phases[step.thread])
    requires Ahead(s.forest, serial, s.phases[step.thread])
    ensures var s', t := Next(cfg, s, step), step.thread;
      && InBody(s.phases[t]) && s'.phases == s.phases[t := s'.phases[t]]
      && s'.owner == s.owner && s'.log == s.log
      && (forall sl :: Get(s'.forest, sl) != Get(s.forest, sl) ==> Touches(s.phases[t].job, sl))
      && Ahead(s'.forest, serial, s'.phases[t])
      && (InBody(s'.phases[t]) ||
          forall sl :: Touches(s.phases[t].job, sl) ==> Get(s'.forest, sl) == Get(serial, sl))
  {
  }

  lemma ValuesWork(cfg: Config, init: Forest, s: State, step: Step)
    requires Shape(cfg, s) && Ownership(s) && Values(init, s) && Enabled(cfg, s, step)
    requires step.action.Work?
    ensures Values(init, Next(cfg, s, step))
    ensures forall u :: 0 <= u < |s.phases| && u != step.thread && InBody(s.phases[u]) ==>
              ResultOf(s.phases[u].job, Next(cfg, s, step).forest)
              == ResultOf(s.phases[u].job, s.forest)
  {
    var s', t := Next(cfg, s, step), step.thread;
    var p := s.phases[t];
    assert PhaseOk(cfg, s.log, t, p) && Ahead(s.forest, Serial(init, s.log), p);
    forall sl ensures Holds(s, t, sl) <==> Touches(p.job, sl) {
      BodyHolds(s, t, sl);
    }
    WorkOnTrees(cfg, s, step, Serial(init, s.log));
    ValuesAfterWork(init, s, s', t);
  }

  // ---------- Results, program order, trees ----------

  lemma AnswersOutsideBody(cfg: Config, init: Forest, s: State, step: Step)
    requires Shape(cfg, s) && Ownership(s) && Answers(init, s) && Enabled(cfg, s, step)
    requires !step.action.Work? && !LastAcquire(s, step)
    ensures Answers(init, Next(cfg, s, step))
  {
    NextOutsideBody(cfg, s, step);
    AnswersFramed(init, s, Next(cfg, s, step), step.thread);
  }

  lemma AnswersFramed(init: Forest, s: State, s': State, t: nat)
    requires t < |s.phases| == |s'.phases| && s'.phases == s.phases[t := s'.phases[t]]
    requires !InBody(s.phases[t]) && !InBody(s'.phases[t])
    requires s'.forest == s.forest && s'.log == s.log && s'.results == s.results
    requires Answers(init, s)
    ensures Answers(init, s')
  {
  }

  lemma AnswersAfterLastAcquire(init: Forest, s: State, s': State, t: nat, job: Job)
    requires Answers(init, s) && t < |s.phases| && !InBody(s.phases[t])
    requires s'.log == s.log + [Entry(t, job)]
    requires s'.phases == s.phases[t := Locked(job, |s.log|)]
    requires s'.forest == s.forest && s'.results == s.results
    requires forall u :: 0 <= u < |s.phases| && InBody(s.phases[u]) ==> s.phases[u].entry < |s.log|
    requires ResultOf(job, s.forest) == ResultOf(job, Serial(init, s.log))
    ensures Answers(init, s')
  {
    SerialSnoc(init, s.log, Entry(t, job));
    forall e | 0 <= e < |s'.log|
      ensures e in s'.results
              || (s'.log[e].thread < |s'.phases| && InBody(s'.phases[s'.log[e].thread])
                  && s'.phases[s'.log[e].thread].entry == e)
    {
      if e < |s.log| { assert s'.log[e] == s.log[e]; }
    }
  }

  lemma AnswersLastAcquire(cfg: Config, init: Forest, s: State, step: Step)
    requires Shape(cfg, s) && Ownership(s) && Values(init, s) && Answers(init, s)
    requires Enabled(cfg, s, step) && LastAcquire(s, step)
    ensures Answers(init, Next(cfg, s, step))
  {
    var t, job := step.thread, s.phases[step.thread].job;
    OwnTreesAreSerial(cfg, init, s, step);
    JobSlotsAreLocked(job);
    forall u | 0 <= u < |s.phases| && InBody(s.phases[u]) ensures s.phases[u].entry < |s.log| {
      assert PhaseOk(cfg, s.log, u, s.phases[u]);
    }
    AnswersAfterLastAcquire(init, s, Next(cfg, s, step), t, job);
  }

  /** A tree operation either keeps the pending answer or records it. */
  lemma AnswersAfterWork(init: Forest, s: State, s': State, t: nat)
    requires Answers(init, s)
    requires t < |s.phases| == |s'.phases| && InBody(s.phases[t])
    requires s'.phases == s.phases[t := s'.phases[t]] && s'.log == s.log
    requires s.phases[t].entry < |s.log|
    requires forall u :: 0 <= u < |s.phases| && u != t && InBody(s.phases[u]) ==>
              ResultOf(s.phases[u].job, s'.forest) == ResultOf(s.phases[u].job, s.forest)
    requires
      || (&& InBody(s'.phases[t]) && s'.results == s.results
          && s'.phases[t].job == s.phases[t].job && s'.phases[t].entry == s.phases[t].entry
          && ResultOf(s.phases[t].job, s'.forest) == ResultOf(s.phases[t].job, s.forest))
      || (&& !InBody(s'.phases[t])
          && s'.results == s.results[s.phases[t].entry := ResultOf(s.phases[t].job, s.forest)])
    ensures Answers(init, s')
  {
  }

  /** A removal keeps the level its job will return; the other operations record it. */
  lemma WorkOnAnswer(cfg: Config, s: State, step: Step)
    requires Enabled(cfg, s, step) && step.action.Work?
    requires PhaseOk(cfg, s.log, step.thread, s.phases[step.thread])
    ensures var s', t := Next(cfg, s, step), step.thread;
      && InBody(s.phases[t]) && s'.phases == s.phases[t := s'.phases[t]] && s'.log == s.log
      && var p, p' := s.phases[t], s'.phases[t];
         if InBody(p') then
           && s'.results == s.results && p'.job == p.job && p'.entry == p.entry
           && ResultOf(p.job, s'.forest) == ResultOf(p.job, s.forest)
         else s'.results == s.results[p.entry := ResultOf(p.job, s.forest)]
  {
  }

  lemma AnswersWork(cfg: Config, init: Forest, s: State, step: Step)
    requires Shape(cfg, s) && Ownership(s) && Values(init, s) && Answers(init, s)
    requires Enabled(cfg, s, step) && step.action.Work?
    ensures Answers(init, Next(cfg, s, step))
  {
    var s', t := Next(cfg, s, step), step.thread;
    var p := s.phases[t];
    assert PhaseOk(cfg, s.log, t, p);
    ValuesWork(cfg, init, s, step);
    WorkOnAnswer(cfg, s, step);
    AnswersAfterWork(init, s, s', t);
  }

  lemma ProgramOrderLogged(s: State, s': State, t: nat)
    requires ProgramOrder(s) && t < |s.phases| == |s'.phases| && s.phases[t].Acquiring?
    requires s'.phases == s.phases[t := s'.phases[t]] && !s'.phases[t].Acquiring?
    requires s'.log == s.log + [Entry(t, s.phases[t].job)] && s'.begun == s.begun
    ensures ProgramOrder(s')
  {
    SerialSnoc(s.forest, s.log, Entry(t, s.phases[t].job));
  }

  lemma ProgramOrderPreserved(cfg: Config, s: State, step: Step)
    requires ProgramOrder(s) && Enabled(cfg, s, step)
    ensures ProgramOrder(Next(cfg, s, step))
  {
    if LastAcquire(s, step) {
      ProgramOrderLogged(s, Next(cfg, s, step), step.thread);
    } else {
      assert Next(cfg, s, step).log == s.log;
    }
  }

  lemma TreesStayOk(cfg: Config, t: Tree, k: int)
    requires TreeOk(cfg, t)
    ensures Remove(t, k).Kept? && TreeOk(cfg, RemovedTree(t, k))
    ensures 0 <= k <= cfg.keyspace ==> TreeOk(cfg, Insert(t, k))
  {
    RemoveExactly(t, k);
    InsertOrdered(t, k);
    InsertKeys(t, k);
  }

  lemma ForestOkPreserved(cfg: Config, s: State, step: Step)
    requires Shape(cfg, s) && ForestOk(cfg, s.forest) && Enabled(cfg, s, step)
    ensures ForestOk(cfg, Next(cfg, s, step).forest)
  {
    var p := s.phases[step.thread];
    assert PhaseOk(cfg, s.log, step.thread, p);
    match p
    case Locked(Move(a, _, k), _) => TreesStayOk(cfg, Get(s.forest, a), k);
    case Removed(Move(_, b, k), _) => TreesStayOk(cfg, Get(s.forest, b), k);
    case _ =>
  }

  lemma MovedKeyFramed(s: State, s': State, t: nat)
    requires Ownership(s) && MovedKeyArrived(s) && t < |s.phases| == |s'.phases|
    requires s'.phases == s.phases[t := s'.phases[t]]
    requires forall sl :: Get(s'.forest, sl) != Get(s.forest, sl) ==> Holds(s, t, sl)
    requires match s'.phases[t]
      case Unlocking(Move(_, b, k), e, r) =>
        b in Held(s'.phases[t]) ==> k in Keys(Get(s'.forest, b))
      case _ => true
    ensures MovedKeyArrived(s')
  {
    forall u | 0 <= u < |s'.phases| && u != t
      ensures match s'.phases[u]
        case Unlocking(Move(_, b, k), e, r) =>
          b in Held(s'.phases[u]) ==> k in Keys(Get(s'.forest, b))
        case _ => true
    {
      match s.phases[u]
      case Unlocking(Move(_, b, k), e, r) =>
        if b in Held(s.phases[u]) {
          assert Holds(s, u, b);
          HeldApart(s, u, t, b);
        }
      case _ =>
    }
  }

  lemma MovedKeyPreserved(cfg: Config, s: State, step: Step)
    requires Shape(cfg, s) && Ownership(s) && MovedKeyArrived(s) && Enabled(cfg, s, step)
    ensures MovedKeyArrived(Next(cfg, s, step))
  {
    var s', t := Next(cfg, s, step), step.thread;
    var p := s.phases[t];
    assert PhaseOk(cfg, s.log, t, p);
    if step.action.Unlock? { HeldAfterUnlock(cfg, s, step); }
    match p
    case Locked(Move(a, b, k), _) =>
      BodyHolds(s, t, a);
      MovedKeyFramed(s, s', t);
    case Removed(Move(a, b, k), _) =>
      InsertKeys(Get(s.forest, b), k);
      BodyHolds(s, t, b);
      MovedKeyFramed(s, s', t);
    case _ =>
      MovedKeyFramed(s, s', t);
  }

  lemma DomainPreserved(cfg: Config, init: Forest, s: State, step: Step)
    requires Shape(cfg, s) && Enabled(cfg, s, step)
    requires s.forest.Keys == init.Keys == Serial(init, s.log).Keys
    requires forall sl :: SlotOk(cfg, sl) ==> sl in init
    ensures Next(cfg, s, step).forest.Keys == init.Keys == Serial(init, Next(cfg, s, step).log).Keys
  {
    var p := s.phases[step.thread];
    assert PhaseOk(cfg, s.log, step.thread, p);
    if LastAcquire(s, step) {
      SerialSnoc(init, s.log, Entry(step.thread, p.job));
    }
  }

  lemma InvPreserved(cfg: Config, init: Forest, s: State, step: Step)
    requires Inv(cfg, init, s) && Enabled(cfg, s, step)
    ensures Inv(cfg, init, Next(cfg, s, step))
  {
    ShapePreserved(cfg, s, step);
    OwnershipPreserved(cfg, s, step);
    ProgramOrderPreserved(cfg, s, step);
    ForestOkPreserved(cfg, s, step);
    MovedKeyPreserved(cfg, s, step);
    DomainPreserved(cfg, init, s, step);
    if step.action.Work? {
      ValuesWork(cfg, init, s, step);
      AnswersWork(cfg, init, s, step);
    } else if LastAcquire(s, step) {
      ValuesLastAcquire(cfg, init, s, step);
      AnswersLastAcquire(cfg, init, s, step);
    } else {
      ValuesOutsideBody(cfg, init, s, step);
      AnswersOutsideBody(cfg, init, s, step);
    }
  }

  /** The forest a run starts from: every slot holds an ordered, duplicate-free tree over
      the keyspace. */
  ghost predicate InitOk(cfg: Config, init: Forest) {
    ForestOk(cfg, init) && forall sl :: SlotOk(cfg, sl) ==> sl in init
  }

  lemma InvStart(cfg: Config, init: Forest, threads: nat)
    requires InitOk(cfg, init)
    ensures Inv(cfg, init, Start(init, threads))
  {
  }

  lemma {:induction false} InvAlongRun(cfg: Config, init: Forest, s: State, trace: seq<Step>)
    requires Inv(cfg, init, s) && CanRun(cfg, s, trace)
    ensures Inv(cfg, init, Run(cfg, s, trace))
    ensures |Run(cfg, s, trace).phases| == |s.phases|
    decreases |trace|
  {
    if trace != [] {
      InvPreserved(cfg, init, s, trace[0]);
      InvAlongRun(cfg, init, Next(cfg, s, trace[0]), trace[1..]);
    }
  }
}
