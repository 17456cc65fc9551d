/** Whole histories of calls on memspaces: what each call does, what the memspaces own on
    the way, and what is left in the end. */
module MemspaceSessions {
  import opened NodeLists
  import opened Memspaces
  import Filters = MemspaceFilters
  import Orders = MemspaceOrders

  datatype Command =
    | CreateTarget(target: Target)
    | DestroyTarget(h: nat)
    | New
    | Clone(id: nat)
    | Destroy(id: nat)
    | Add(id: nat, h: nat)
    | Remove(id: nat, h: nat)
    | UserFilter(id: nat, answer: nat -> int)
    | FilterById(id: nat, ids: seq<nat>)
    | FilterByCapacity(id: nat, capacity: int)
    | Filter(id: nat, getTarget: nat -> Orders.Reply)
    | SortDesc(id: nat, getProperty: nat -> Orders.Reply)

  predicate InPlaceFilter(c: Command) {
    c.UserFilter? || c.FilterById? || c.FilterByCapacity?
  }

  /** The library at one moment; `mine` are the targets the user made and has not
      destroyed. */
  datatype Snapshot = Snapshot(targets: map<nat, Target>, spaces: map<nat, seq<nat>>, mine: set<nat>)

  ghost function Now(lib: Library): Snapshot
    reads lib
  {
    Snapshot(lib.targets, lib.spaces, lib.created)
  }

  ghost predicate Well(s: Snapshot) {
    forall id :: id in s.spaces ==> Distinct(s.spaces[id]) && Coherent(s.spaces[id], s.targets)
  }

  /** Every live target is either the user's or in exactly one memspace. */
  ghost predicate OwnedOnce(s: Snapshot) {
    && (forall h :: h in s.targets ==> h in s.mine || exists id :: id in s.spaces && h in s.spaces[id])
    && (forall id, h :: id in s.spaces && h in s.spaces[id] ==> h in s.targets && h !in s.mine)
    && (forall id, jd, h :: id in s.spaces && jd in s.spaces && h in s.spaces[id] && h in s.spaces[jd] ==>
          id == jd)
  }

  lemma LedgerOwnsOnce(s: Snapshot, owner: map<nat, nat>)
    requires Ledger(s.targets, s.spaces, s.mine, owner)
    ensures OwnedOnce(s)
  {
    forall h | h in s.targets && h !in s.mine ensures exists id :: id in s.spaces && h in s.spaces[id] {
      assert h in owner;
      assert owner[h] in s.spaces && h in s.spaces[owner[h]];
    }
    forall id, jd, h | id in s.spaces && jd in s.spaces && h in s.spaces[id] && h in s.spaces[jd]
      ensures id == jd
    {
      assert owner[h] == id;
    }
  }

  /** The replies of a callback to a memspace of `n` targets. A callback keeps to its
      interface: a pick is one of the `n` given nodes, and an error code is positive. */
  function Replies(callback: nat -> Orders.Reply, n: nat, picks: bool): (r: seq<Orders.Reply>)
    ensures |r| == n
    ensures forall i :: 0 <= i < n ==>
              if r[i].Value? then picks ==> r[i].value < n else r[i].code > SUCCESS
  {
    seq(n, i requires 0 <= i < n =>
      match callback(i)
      case Value(v) => if picks && v >= n then Orders.Failed(INVALID_ARGUMENT) else Orders.Value(v)
      case Failed(c) => Orders.Failed(if c > SUCCESS then c else INVALID_ARGUMENT))
  }

  // ---------- What one call does ----------

  /** A new memspace `made` holds clones of `handles`. */
  ghost predicate NewMemspace(s: Snapshot, t: Snapshot, made: nat, handles: seq<nat>) {
    && made != 0 && made !in s.spaces && t.spaces == s.spaces[made := NodesOf(t.spaces, made)]
    && Cloned(s.targets, t.targets, handles, NodesOf(t.spaces, made)) && t.mine == s.mine
  }

  /** A clone of `h` is the new last target of memspace `id`. */
  ghost predicate Added(s: Snapshot, t: Snapshot, id: nat, h: nat)
    requires Well(s)
  {
    && id in s.spaces && h in s.targets && Addable(s.spaces[id], s.targets, s.targets[h])
    && t.mine == s.mine && id in t.spaces && t.spaces[id] != []
    && var h' := t.spaces[id][|t.spaces[id]| - 1];
       && h' !in s.targets && t.targets == s.targets[h' := s.targets[h]]
       && t.spaces == s.spaces[id := s.spaces[id] + [h']]
  }

  /** The first target of memspace `id` that equals `h` is gone. */
  ghost predicate TakenOut(s: Snapshot, t: Snapshot, id: nat, h: nat)
    requires Well(s)
  {
    && id in s.spaces && h in s.targets && |s.spaces[id]| >= 2 && t.mine == s.mine
    && var nodes := s.spaces[id];
       var k := Match(nodes, s.targets, s.targets[h]);
       && k < |nodes| && t.targets == s.targets - {nodes[k]} && t.spaces == s.spaces[id := Cut(nodes, k)]
  }

  ghost predicate Sorted(s: Snapshot, t: Snapshot, id: nat, replies: seq<Orders.Reply>) {
    && id in s.spaces && id in t.spaces && t.targets == s.targets && t.mine == s.mine
    && |replies| == |s.spaces[id]| && Orders.FirstFailed(replies) == |replies|
    && t.spaces == s.spaces[id := t.spaces[id]]
    && Orders.DescendingPermutation(s.spaces[id], replies, t.spaces[id])
  }

  /** What a filter's callback is, if the call gets as far as using it. */
  ghost function CallbackOf(c: Command): Filters.Callback
    requires InPlaceFilter(c)
  {
    match c
    case UserFilter(_, answer) => Filters.User(answer)
    case FilterById(_, ids) => Filters.ById(ids)
    case FilterByCapacity(_, capacity) => Filters.ByCapacity(if capacity < 0 then 0 else capacity)
  }

  predicate Refused(c: Command) {
    (c.FilterById? && c.ids == []) || (c.FilterByCapacity? && c.capacity < 0)
  }

  /** The effect of a call that ended with `out` and yielded the handle `made`, 0 if none. A
      command that names no live handle is given the null handle. */
  ghost predicate Did(c: Command, out: Filters.Outcome, made: nat, s: Snapshot, t: Snapshot)
    requires Well(s)
  {
    match c
    case CreateTarget(x) =>
      if out == Filters.Returned(SUCCESS) then
        && made != 0 && made !in s.targets
        && t == Snapshot(s.targets[made := x], s.spaces, s.mine + {made})
      else out.Returned? && made == 0 && t == s
    case DestroyTarget(h) =>
      && made == 0 && out == Filters.Returned(SUCCESS)
      && t == if h in s.mine then Snapshot(s.targets - {h}, s.spaces, s.mine - {h}) else s
    case Destroy(id) =>
      && made == 0 && out == Filters.Returned(SUCCESS)
      && t == if id in s.spaces then Snapshot(s.targets - Members(s.spaces[id]), s.spaces - {id}, s.mine)
              else s
    case New =>
      if out == Filters.Returned(SUCCESS) then
        made != 0 && made !in s.spaces && t == s.(spaces := s.spaces[made := []])
      else out.Returned? && made == 0 && t == s
    case Clone(id) =>
      if out == Filters.Returned(SUCCESS) then
        id in s.spaces && NewMemspace(s, t, made, s.spaces[id])
      else out.Returned? && made == 0 && t == s
    case Filter(id, getTarget) =>
      if out == Filters.Returned(SUCCESS) then
        && id in s.spaces
        && var replies := Replies(getTarget, |s.spaces[id]|, true);
           && Orders.FirstFailed(replies) == |replies|
           && NewMemspace(s, t, made, FirstOccurrences(Orders.Picked(s.spaces[id], replies)))
      else out.Returned? && made == 0 && t == s
    case Add(id, h) =>
      && made == 0 && out.Returned?
      && if out.code == SUCCESS then Added(s, t, id, h) else t == s
    case Remove(id, h) =>
      && made == 0 && out.Returned?
      && if out.code == SUCCESS then TakenOut(s, t, id, h) else t == s
    case SortDesc(id, getProperty) =>
      && made == 0 && out.Returned?
      && if out.code == SUCCESS then
           Sorted(s, t, id, Replies(getProperty, |NodesOf(s.spaces, id)|, false))
         else t == s
    case _ =>
      && made == 0 && t.mine == s.mine
      && if c.id !in s.spaces || Refused(c) then out == Filters.Returned(INVALID_ARGUMENT) && t == s
         else exists gone ::
                Filters.Filtered(t.targets, t.spaces, s.targets, s.spaces, c.id, CallbackOf(c), out, gone)
  }

  /** How a call ends when no resource runs out. */
  ghost function PlainOutcome(c: Command, s: Snapshot): Filters.Outcome
    requires Well(s)
  {
    match c
    case Clone(id) =>
      Filters.Returned(if id !in s.spaces then INVALID_ARGUMENT
                       else if s.spaces[id] == [] then OUT_OF_HOST_MEMORY else SUCCESS)
    case Add(id, h) =>
      Filters.Returned(if id in s.spaces && h in s.targets && Addable(s.spaces[id], s.targets, s.targets[h])
                       then SUCCESS else INVALID_ARGUMENT)
    case Remove(id, h) =>
      Filters.Returned(
        if id !in s.spaces || h !in s.targets then INVALID_ARGUMENT
        else if Match(s.spaces[id], s.targets, s.targets[h]) == |s.spaces[id]| then INVALID_ARGUMENT
        else if |s.spaces[id]| == 1 then OUT_OF_HOST_MEMORY else SUCCESS)
    case Filter(id, getTarget) =>
      Filters.Returned(if id !in s.spaces then INVALID_ARGUMENT
                       else Orders.CodeFor(Replies(getTarget, |s.spaces[id]|, true)))
    case SortDesc(id, getProperty) =>
      Filters.Returned(if id !in s.spaces then INVALID_ARGUMENT
                       else Orders.CodeFor(Replies(getProperty, |s.spaces[id]|, false)))
    case UserFilter(id, answer) =>
      if id !in s.spaces then Filters.Returned(INVALID_ARGUMENT)
      else
        var v := Filters.Verdicts(Filters.User(answer), s.spaces[id], s.targets);
        if s.spaces[id] != [] && !Filters.AllGiven(v) then Filters.Returned(USER_SPECIFIC)
        else Filters.Expected(s.spaces[id], v)
    case FilterById(id, ids) =>
      if id !in s.spaces || Refused(c) then Filters.Returned(INVALID_ARGUMENT)
      else Filters.Expected(s.spaces[id], Filters.Verdicts(Filters.ById(ids), s.spaces[id], s.targets))
    case FilterByCapacity(id, capacity) =>
      if id !in s.spaces || Refused(c) then Filters.Returned(INVALID_ARGUMENT)
      else Filters.Expected(s.spaces[id],
                            Filters.Verdicts(Filters.ByCapacity(capacity), s.spaces[id], s.targets))
    case _ => Filters.Returned(SUCCESS)
  }

  // ---------- Performing calls ----------

  /** A handle the user passes: live, or null. */
  method Live(lib: Library, h: nat) returns (h': nat)
    ensures h' == if h in lib.targets then h else 0
  {
    h' := if h in lib.targets then h else 0;
  }

  method Known(lib: Library, id: nat) returns (id': nat)
    ensures id' == if id in lib.spaces then id else 0
  {
    id' := if id in lib.spaces then id else 0;
  }

  /** Targets that stay live keep their value, and the user's stay live. */
  ghost predicate Preserved(s: Snapshot, t: Snapshot) {
    && (forall h :: h in s.targets && h in t.targets ==> t.targets[h] == s.targets[h])
    && t.mine <= t.targets.Keys
  }

  /** The contract of every call. */
  ghost predicate Performed(lib: Library, c: Command, out: Filters.Outcome, made: nat, s: Snapshot)
    requires Well(s)
    reads lib
  {
    && Did(c, out, made, s, Now(lib)) && Preserved(s, Now(lib))
    && (!lib.faulty ==> out == PlainOutcome(c, s))
  }

  method PerformAdd(lib: Library, c: Command) returns (out: Filters.Outcome)
    requires lib.Valid() && c.Add?
    modifies lib
    ensures lib.Valid() && Well(old(Now(lib))) && Performed(lib, c, out, 0, old(Now(lib)))
  {
    var id := Known(lib, c.id);
    var h := Live(lib, c.h);
    var ret := lib.Add(id, h);
    out := Filters.Returned(ret);
  }

  method PerformRemove(lib: Library, c: Command) returns (out: Filters.Outcome)
    requires lib.Valid() && c.Remove?
    modifies lib
    ensures lib.Valid() && Well(old(Now(lib))) && Performed(lib, c, out, 0, old(Now(lib)))
  {
    var id := Known(lib, c.id);
    var h := Live(lib, c.h);
    var ret := lib.Remove(id, h);
    out := Filters.Returned(ret);
  }

  method PerformNew(lib: Library, c: Command) returns (out: Filters.Outcome, made: nat)
    requires lib.Valid() && (c.New? || c.Clone?)
    modifies lib
    ensures lib.Valid() && Well(old(Now(lib))) && Performed(lib, c, out, made, old(Now(lib)))
  {
    var ret: int;
    if c.New? {
      ret, made := lib.New();
    } else {
      var id := Known(lib, c.id);
      ret, made := lib.Clone(id);
    }
    out, made := Filters.Returned(ret), if ret == SUCCESS then made else 0;
  }

  method PerformPick(lib: Library, c: Command) returns (out: Filters.Outcome, made: nat)
    requires lib.Valid() && c.Filter?
    modifies lib
    ensures lib.Valid() && Well(old(Now(lib))) && Performed(lib, c, out, made, old(Now(lib)))
  {
    var id := Known(lib, c.id);
    var replies := Replies(c.getTarget, if id in lib.spaces then |lib.spaces[id]| else 0, true);
    var ret;
    ret, made := Orders.Filter(lib, id, replies);
    out, made := Filters.Returned(ret), if ret == SUCCESS then made else 0;
  }

  method PerformOnMemspace(lib: Library, c: Command) returns (out: Filters.Outcome)
    requires lib.Valid() && (c.Destroy? || c.SortDesc?)
    modifies lib
    ensures lib.Valid() && Well(old(Now(lib))) && Performed(lib, c, out, 0, old(Now(lib)))
  {
    var id := Known(lib, c.id);
    out := Filters.Returned(SUCCESS);
    if c.Destroy? {
      if id != 0 { lib.Destroy(id); }
    } else {
      var replies := Replies(c.getProperty, if id in lib.spaces then |lib.spaces[id]| else 0, false);
      var ret := Orders.SortDesc(lib, id, replies);
      out := Filters.Returned(ret);
    }
  }

  method PerformFilter(lib: Library, c: Command) returns (out: Filters.Outcome)
    requires lib.Valid() && InPlaceFilter(c)
    modifies lib
    ensures lib.Valid() && Well(old(Now(lib))) && Performed(lib, c, out, 0, old(Now(lib)))
  {
    var id := Known(lib, c.id);
    ghost var gone: seq<nat>;
    if c.UserFilter? {
      out, gone := Filters.UserFilter(lib, id, c.answer);
    } else if c.FilterById? {
      out, gone := Filters.FilterById(lib, id, c.ids);
    } else {
      out, gone := Filters.FilterByCapacity(lib, id, c.capacity);
    }
    if id != 0 && !Refused(c) {
      assert Filters.Filtered(lib.targets, lib.spaces, old(lib.targets), old(lib.spaces), id, CallbackOf(c),
                              out, gone);
    }
  }

  method PerformOwn(lib: Library, c: Command, mine: set<nat>) returns (out: Filters.Outcome, made: nat)
    requires lib.Valid() && (c.CreateTarget? || c.DestroyTarget?) && mine == lib.created
    modifies lib
    ensures lib.Valid() && Well(old(Now(lib))) && Performed(lib, c, out, made, old(Now(lib)))
  {
    out, made := Filters.Returned(SUCCESS), 0;
    if c.CreateTarget? {
      var ret: int;
      ret, made := lib.CreateTarget(c.target);
      out, made := Filters.Returned(ret), if ret == SUCCESS then made else 0;
    } else if c.h in mine {
      lib.DestroyTarget(c.h);
    }
  }

  /** The targets the user has after a command. */
  function Booked(mine: set<nat>, c: Command, made: nat): set<nat> {
    if c.CreateTarget? then (if made != 0 then mine + {made} else mine)
    else if c.DestroyTarget? then mine - {c.h}
    else mine
  }

  /** One call, with its whole effect, and the user's own account of their targets. */
  method Perform(lib: Library, c: Command, mine: set<nat>)
    returns (out: Filters.Outcome, made: nat, mine': set<nat>)
    requires lib.Valid() && mine == lib.created
    modifies lib
    ensures lib.Valid() && Well(old(Now(lib))) && Performed(lib, c, out, made, old(Now(lib)))
    ensures mine' == lib.created == Booked(mine, c, made)
    ensures !InPlaceFilter(c) ==> out.Returned?
  {
    made := 0;
    if c.CreateTarget? || c.DestroyTarget? {
      out, made := PerformOwn(lib, c, mine);
    } else if c.New? || c.Clone? {
      out, made := PerformNew(lib, c);
    } else if c.Filter? {
      out, made := PerformPick(lib, c);
    } else if c.Add? {
      out := PerformAdd(lib, c);
    } else if c.Remove? {
      out := PerformRemove(lib, c);
    } else if c.Destroy? || c.SortDesc? {
      out := PerformOnMemspace(lib, c);
    } else {
      out := PerformFilter(lib, c);
    }
    mine' := Booked(mine, c, made);
  }

  // ---------- Whole sessions ----------

  /** Destroys every memspace: only the user's targets are left. */
  method TearDown(lib: Library)
    requires lib.Valid()
    modifies lib
    ensures lib.Valid() && lib.spaces == map[] && lib.created == old(lib.created)
    ensures lib.targets.Keys == lib.created
    ensures Preserved(old(Now(lib)), Now(lib))
  {
    while lib.spaces.Keys != {}
      invariant lib.Valid() && lib.created == old(lib.created)
      invariant Preserved(old(Now(lib)), Now(lib)) && lib.targets.Keys <= old(lib.targets).Keys
      decreases |lib.spaces|
    {
      var id :| id in lib.spaces.Keys;
      DestroyOne(lib, id);
    }
  }

  method DestroyOne(lib: Library, id: nat)
    requires lib.Valid() && id in lib.spaces
    modifies lib
    ensures lib.Valid() && lib.created == old(lib.created)
    ensures Preserved(old(Now(lib)), Now(lib))
    ensures lib.targets.Keys <= old(lib.targets).Keys && |lib.spaces| < |old(lib.spaces)|
  {
    lib.Destroy(id);
  }

  /** The targets that a script's creations, which yielded `handles`, leave the user with
      once the script's destructions are taken into account. */
  function Surviving(script: seq<Command>, handles: seq<nat>): map<nat, Target>
    requires |handles| <= |script|
  {
    if handles == [] then map[]
    else
      var n := |handles| - 1;
      var before := Surviving(script, handles[..n]);
      match script[n]
      case CreateTarget(x) => if handles[n] != 0 then before[handles[n] := x] else before
      case DestroyTarget(h) => before - {h}
      case _ => before
  }

  /** The calls of a script so far: each had its whole effect on the state the one before it
      left, and all but the last ended normally. */
  ghost predicate Ran(faulty: bool, script: seq<Command>, outs: seq<Filters.Outcome>, handles: seq<nat>,
                      states: seq<Snapshot>) {
    && |outs| == |handles| <= |script| && |states| == |outs| + 1
    && states[0] == Snapshot(map[], map[], {})
    && (forall i :: 0 <= i < |states| ==> Well(states[i]) && OwnedOnce(states[i]))
    && (forall i :: 0 <= i < |outs| ==>
          && Did(script[i], outs[i], handles[i], states[i], states[i + 1])
          && (!faulty ==> outs[i] == PlainOutcome(script[i], states[i])))
    && (forall i :: 0 <= i < |outs| - 1 ==> outs[i].Returned?)
  }

  /** The next call of a script. */
  method Advance(lib: Library, script: seq<Command>, outs: seq<Filters.Outcome>, handles: seq<nat>,
                 ghost states: seq<Snapshot>, mine: set<nat>)
    returns (out: Filters.Outcome, made: nat, mine': set<nat>)
    requires lib.Valid() && mine == lib.created && |outs| < |script|
    requires Ran(lib.faulty, script, outs, handles, states) && states[|outs|] == Now(lib)
    requires forall k :: 0 <= k < |outs| ==> outs[k].Returned?
    requires Accounted(lib.targets, mine, Surviving(script, handles))
    modifies lib
    ensures lib.Valid() && mine' == lib.created
    ensures Ran(lib.faulty, script, outs + [out], handles + [made], states + [Now(lib)])
    ensures Accounted(lib.targets, mine', Surviving(script, handles + [made]))
  {
    var i := |outs|;
    out, made, mine' := Perform(lib, script[i], mine);
    SurvivingStep(script, handles, made, states[i], Now(lib), out);
    LedgerOwnsOnce(Now(lib), lib.owner);
    RanStep(lib.faulty, script, outs, handles, states, out, made, Now(lib));
  }

  /** The calls of a script, until all are made or one is undefined. */
  method RunScript(lib: Library, script: seq<Command>)
    returns (outs: seq<Filters.Outcome>, handles: seq<nat>, ghost states: seq<Snapshot>)
    requires lib.Valid() && Now(lib) == Snapshot(map[], map[], {})
    modifies lib
    ensures lib.Valid() && Ran(lib.faulty, script, outs, handles, states)
    ensures states[|outs|] == Now(lib)
    ensures |outs| < |script| ==> Undefined(outs)
    ensures Accounted(lib.targets, lib.created, Surviving(script, handles))
  {
    var mine: set<nat> := {};
    outs, handles, states := [], [], [Now(lib)];
    for i := 0 to |script|
      invariant lib.Valid() && mine == lib.created && |outs| == i
      invariant Ran(lib.faulty, script, outs, handles, states) && states[i] == Now(lib)
      invariant forall k :: 0 <= k < i ==> outs[k].Returned?
      invariant Accounted(lib.targets, mine, Surviving(script, handles))
    {
      var out, made;
      out, made, mine := Advance(lib, script, outs, handles, states, mine);
      outs, handles, states := outs + [out], handles + [made], states + [Now(lib)];
      if out == Filters.UseAfterDestroy {
        return;
      }
    }
  }

  /** The last call used a target after its destruction. */
  predicate Undefined(outs: seq<Filters.Outcome>) {
    outs != [] && outs[|outs| - 1] == Filters.UseAfterDestroy
  }

  /** Any calls, with any failures, then the destruction of all memspaces. The calls had
      their effects, one after the other. Unless the last of them used a target after its
      destruction, all were made, and in the end exactly the targets that the user made and
      did not destroy are live, with the values they were made with. No target is destroyed
      twice on the way, which `Library.TargetDestroy` demands of every caller. */
  method Session(faulty: bool, script: seq<Command>)
    returns (lib: Library, outs: seq<Filters.Outcome>, handles: seq<nat>, ghost states: seq<Snapshot>)
    ensures fresh(lib) && lib.Valid() && Ran(faulty, script, outs, handles, states)
    ensures !Undefined(outs) ==>
              |outs| == |script| && lib.spaces == map[] && lib.targets == Surviving(script, handles)
    ensures (forall c :: c in script ==> !InPlaceFilter(c)) ==> !Undefined(outs)
  {
    lib := new Library(faulty);
    outs, handles, states := RunScript(lib, script);
    if Undefined(outs) {
      OnlyFiltersUndefined(faulty, script, outs, handles, states, |outs| - 1);
      return;
    }
    TearDown(lib);
    ghost var surviving := Surviving(script, handles);
    assert lib.targets.Keys == surviving.Keys;
  }

  lemma RanStep(faulty: bool, script: seq<Command>, outs: seq<Filters.Outcome>, handles: seq<nat>,
                states: seq<Snapshot>, out: Filters.Outcome, made: nat, t: Snapshot)
    requires Ran(faulty, script, outs, handles, states) && |outs| < |script|
    requires Well(t) && OwnedOnce(t)
    requires forall i :: 0 <= i < |outs| ==> outs[i].Returned?
    requires Did(script[|outs|], out, made, states[|outs|], t)
    requires !faulty ==> out == PlainOutcome(script[|outs|], states[|outs|])
    ensures Ran(faulty, script, outs + [out], handles + [made], states + [t])
  {
    var outs', handles', states' := outs + [out], handles + [made], states + [t];
    forall i | 0 <= i < |outs'|
      ensures Did(script[i], outs'[i], handles'[i], states'[i], states'[i + 1])
      ensures !faulty ==> outs'[i] == PlainOutcome(script[i], states'[i])
    {
      if i < |outs| {
        assert Did(script[i], outs[i], handles[i], states[i], states[i + 1]);
      }
    }
  }

  /** `mine` are the keys of `surviving`, live and with those values. */
  ghost predicate Accounted(targets: map<nat, Target>, mine: set<nat>, surviving: map<nat, Target>) {
    mine == surviving.Keys && forall h :: h in surviving ==> h in targets && targets[h] == surviving[h]
  }

  lemma SurvivingStep(script: seq<Command>, handles: seq<nat>, made: nat, s: Snapshot, t: Snapshot,
                      out: Filters.Outcome)
    requires |handles| < |script| && Well(s) && Did(script[|handles|], out, made, s, t) && Preserved(s, t)
    requires Accounted(s.targets, s.mine, Surviving(script, handles))
    requires t.mine == Booked(s.mine, script[|handles|], made)
    ensures Accounted(t.targets, t.mine, Surviving(script, handles + [made]))
  {
    assert (handles + [made])[..|handles|] == handles;
  }

  /** Only an in-place filter can use a target after its destruction. */
  lemma OnlyFiltersUndefined(faulty: bool, script: seq<Command>, outs: seq<Filters.Outcome>,
                             handles: seq<nat>, states: seq<Snapshot>, i: nat)
    requires Ran(faulty, script, outs, handles, states) && i < |outs| && outs[i] == Filters.UseAfterDestroy
    ensures InPlaceFilter(script[i]) && script[i] in script
  {
    assert Did(script[i], outs[i], handles[i], states[i], states[i + 1]);
  }
}
