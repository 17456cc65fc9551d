/** Filtering the targets of a memspace in place
    (unified-memory-framework/src/memspace.c:430-578). */
module MemspaceFilters {
  import opened NodeLists
  import opened Memspaces

  /** How a call ends: with a code, or by using a target after its destruction. */
  datatype Outcome = Returned(code: int) | UseAfterDestroy

  /** A filter callback: the user's, which answers for each position, or a predefined one. */
  datatype Callback = User(answer: nat -> int) | ById(ids: seq<nat>) | ByCapacity(least: nat) {
    /** Its verdict on the target at position `i`: negative is a failure, 0 drops it. */
    function Verdict(i: nat, t: Target): int {
      match this
      case User(answer) => answer(i)
      case ById(ids) => if t.id in ids then 1 else 0
      case ByCapacity(least) => if t.capacity >= least then 1 else 0
    }
  }

  ghost function Verdicts(f: Callback, nodes: seq<nat>, targets: map<nat, Target>): (v: seq<int>)
    requires forall h :: h in nodes ==> h in targets
    ensures |v| == |nodes| && forall i :: 0 <= i < |v| ==> v[i] == f.Verdict(i, targets[nodes[i]])
  {
    seq(|nodes|, i requires 0 <= i < |nodes| => f.Verdict(i, targets[nodes[i]]))
  }

  ghost function FirstNegative(v: seq<int>): (k: nat)
    ensures k <= |v| && (k < |v| ==> v[k] < 0) && forall j :: 0 <= j < k ==> v[j] >= 0
  {
    if v == [] then 0
    else
      var k := FirstNegative(v[..|v| - 1]);
      if k < |v| - 1 || v[|v| - 1] < 0 then k else |v|
  }

  ghost predicate AllGiven(v: seq<int>) {
    forall i :: 0 <= i < |v| ==> v[i] >= 0
  }

  /** How the filter helper ends when no resource runs out. Dropping every target never
      succeeds: the last removal would need an array of no elements, and the allocator
      returns null for size 0. */
  ghost function Expected(nodes: seq<nat>, v: seq<int>): Outcome
    requires |v| == |nodes|
  {
    if nodes == [] then Returned(OUT_OF_HOST_MEMORY)
    else if !AllGiven(v) then Returned(v[FirstNegative(v)])
    else if Kept(nodes, v) != [] then Returned(SUCCESS)
    else if |nodes| == 1 then Returned(OUT_OF_HOST_MEMORY)
    else UseAfterDestroy
  }

  /** Calls the callback. The predefined ones turn a failed query into a negative code. */
  method Call(lib: Library, f: Callback, i: nat, h: nat) returns (v: int)
    requires h in lib.targets
    ensures v >= 0 || f.User? || !lib.faulty ==> v == f.Verdict(i, lib.targets[h])
    ensures f.User? ==> v == f.answer(i)
    ensures f.ById? && v >= 0 ==> (v > 0 <==> lib.targets[h].id in f.ids)
    ensures f.ByCapacity? && v >= 0 ==> (v > 0 <==> lib.targets[h].capacity >= f.least)
  {
    match f
    case User(answer) => v := answer(i);
    case ById(ids) =>
      for k := 0 to |ids|
        invariant lib.targets[h].id !in ids[..k]
      {
        var ret := lib.Operate();
        if ret != SUCCESS {
          return -ret;
        }
        if lib.targets[h].id == ids[k] {
          return 1;
        }
      }
      v := 0;
    case ByCapacity(least) =>
      var ret := lib.Operate();
      if ret != SUCCESS {
        return -ret;
      }
      v := if lib.targets[h].capacity >= least then 1 else 0;
  }

  /** The first loop of umfMemspaceFilterHelper: asks the callback about every target and
      collects the dropped ones in a buffer as long as the memspace. */
  method Collect(lib: Library, nodes: seq<nat>, f: Callback) returns (ret: int, toRemove: seq<nat>)
    requires forall h :: h in nodes ==> h in lib.targets
    ensures ret <= 0
    ensures var v := Verdicts(f, nodes, lib.targets);
            && (ret == 0 ==> AllGiven(v) && toRemove == Dropped(nodes, v))
            && (f.User? || !lib.faulty ==> ret == if AllGiven(v) then 0 else v[FirstNegative(v)])
  {
    ghost var v := Verdicts(f, nodes, lib.targets);
    var nodesToRemove := new nat[|nodes|];
    var idx := 0;
    for i := 0 to |nodes|
      invariant 0 <= idx <= i
      invariant forall j :: 0 <= j < i ==> v[j] >= 0
      invariant nodesToRemove[..idx] == Dropped(nodes[..i], v[..i])
    {
      assert nodes[..i + 1][..i] == nodes[..i] && v[..i + 1][..i] == v[..i];
      ret := Call(lib, f, i, nodes[i]);
      if ret < 0 {
        return ret, [];
      } else if ret == 0 {
        nodesToRemove[idx] := nodes[i];
        idx := idx + 1;
      }
    }
    assert nodes[..|nodes|] == nodes && v[..|v|] == v;
    ret, toRemove := 0, nodesToRemove[..idx];
  }

  /** Since `was` and `spacesWas`, exactly the targets `gone` left memspace `id` and were
      destroyed. */
  ghost predicate Removed(targets: map<nat, Target>, spaces: map<nat, seq<nat>>, was: map<nat, Target>,
                          spacesWas: map<nat, seq<nat>>, id: nat, gone: seq<nat>)
    requires id in spacesWas
  {
    && targets == was - Members(gone)
    && spaces == spacesWas[id := Without(spacesWas[id], Members(gone))]
  }

  lemma NothingRemoved(was: map<nat, Target>, spacesWas: map<nat, seq<nat>>, id: nat)
    requires id in spacesWas
    ensures Removed(was, spacesWas, was, spacesWas, id, [])
  {
    WithoutNothing(spacesWas[id], Members([]));
  }

  lemma OneMoreRemoved(targets: map<nat, Target>, spaces: map<nat, seq<nat>>, was: map<nat, Target>,
                       spacesWas: map<nat, seq<nat>>, id: nat, gone: seq<nat>, k: nat)
    requires id in spacesWas && Removed(targets, spaces, was, spacesWas, id, gone)
    requires Distinct(spaces[id]) && k < |spaces[id]|
    ensures Removed(targets - {spaces[id][k]}, spaces[id := Cut(spaces[id], k)],
                    was, spacesWas, id, gone + [spaces[id][k]])
  {
    WithoutOne(spaces[id], k);
    WithoutTwice(spacesWas[id], Members(gone), {spaces[id][k]});
    MembersOfOneMore(gone, spaces[id][k]);
  }

  lemma DroppedRemoved(targets: map<nat, Target>, spaces: map<nat, seq<nat>>, was: map<nat, Target>,
                       spacesWas: map<nat, seq<nat>>, id: nat, v: seq<int>)
    requires id in spacesWas && Distinct(spacesWas[id]) && |v| == |spacesWas[id]| && AllGiven(v)
    requires Removed(targets, spaces, was, spacesWas, id, Dropped(spacesWas[id], v))
    ensures spaces == spacesWas[id := Kept(spacesWas[id], v)]
  {
    DroppedMembers(spacesWas[id], v);
    WithoutDropped(spacesWas[id], v, Members(Dropped(spacesWas[id], v)));
  }

  lemma KeptOrDropped(nodes: seq<nat>, v: seq<int>)
    requires Distinct(nodes) && |v| == |nodes| && AllGiven(v)
    ensures |Kept(nodes, v)| + |Dropped(nodes, v)| == |nodes|
  {
    DroppedMembers(nodes, v);
    WithoutDropped(nodes, v, Members(Dropped(nodes, v)));
  }

  /** Removing a target by comparison with itself removes that target and no other, because
      no other target of the memspace compares equal to it. */
  method RemoveNext(lib: Library, id: nat, h: nat, ghost was: map<nat, Target>,
                    ghost spacesWas: map<nat, seq<nat>>, ghost gone: seq<nat>)
    returns (ret: int)
    requires lib.Valid() && id in lib.spaces && h in lib.spaces[id]
    requires id in spacesWas && Removed(lib.targets, lib.spaces, was, spacesWas, id, gone)
    modifies lib
    ensures lib.Valid() && lib.created == old(lib.created) && ret >= 0
    ensures ret == SUCCESS ==> Removed(lib.targets, lib.spaces, was, spacesWas, id, gone + [h])
    ensures ret == SUCCESS ==> |NodesOf(lib.spaces, id)| == |old(lib.spaces)[id]| - 1 > 0
    ensures ret != SUCCESS ==> lib.targets == old(lib.targets) && lib.spaces == old(lib.spaces)
    ensures !lib.faulty ==> ret == if |old(lib.spaces)[id]| >= 2 then SUCCESS else OUT_OF_HOST_MEMORY
  {
    ghost var nodes := lib.spaces[id];
    ghost var k: nat :| k < |nodes| && nodes[k] == h;
    MatchItself(nodes, lib.targets, k);
    OneMoreRemoved(lib.targets, lib.spaces, was, spacesWas, id, gone, k);
    ret := lib.Remove(id, h);
  }

  lemma StillThere(nodes: seq<nat>, toRemove: seq<nat>, gone: seq<nat>)
    requires Distinct(nodes) && Distinct(toRemove) && Members(toRemove) <= Members(nodes)
    requires gone < toRemove
    ensures toRemove[|gone|] in Without(nodes, Members(gone))
    ensures gone + [toRemove[|gone|]] <= toRemove
  {
    WithoutMembers(nodes, Members(gone));
    assert toRemove[|gone|] in Members(toRemove);
    assert toRemove[|gone|] in Members(Without(nodes, Members(gone)));
  }

  /** The attempt to put removed targets back. It first asks the type of a target still in
      the memspace; if that fails the helper reports UNKNOWN, and otherwise it goes on to
      the type of a removed target, which no longer exists. */
  method ReAdd(lib: Library) returns (out: Outcome)
    ensures out == UseAfterDestroy || out == Returned(UNKNOWN)
    ensures !lib.faulty ==> out == UseAfterDestroy
  {
    var ret := lib.Operate();
    out := if ret != SUCCESS then Returned(UNKNOWN) else UseAfterDestroy;
  }

  /** The second loop: the targets `gone`, a prefix of `toRemove`, are gone when it ends. */
  method RemoveAll(lib: Library, id: nat, toRemove: seq<nat>)
    returns (out: Outcome, ghost gone: seq<nat>)
    requires lib.Valid() && id in lib.spaces
    requires Distinct(toRemove) && Members(toRemove) <= Members(lib.spaces[id])
    requires |toRemove| <= |lib.spaces[id]| && lib.spaces[id] != []
    modifies lib
    ensures lib.Valid() && lib.created == old(lib.created)
    ensures gone <= toRemove
    ensures Removed(lib.targets, lib.spaces, old(lib.targets), old(lib.spaces), id, gone)
    ensures out == Returned(SUCCESS) <==> gone == toRemove
    ensures out == Returned(SUCCESS) ==> |toRemove| < |old(lib.spaces)[id]|
    ensures out == UseAfterDestroy ==> gone != []
    ensures out.Returned? && out.code != SUCCESS && out.code != UNKNOWN ==> gone == []
    ensures out.Returned? ==> out.code >= 0
    ensures !lib.faulty ==>
              out == if |toRemove| < |old(lib.spaces)[id]| then Returned(SUCCESS)
                     else if |old(lib.spaces)[id]| == 1 then Returned(OUT_OF_HOST_MEMORY)
                     else UseAfterDestroy
  {
    ghost var was, spacesWas := lib.targets, lib.spaces;
    NothingRemoved(was, spacesWas, id);
    gone := [];
    for i := 0 to |toRemove|
      invariant |gone| == i && gone <= toRemove
      invariant lib.Valid() && lib.created == old(lib.created)
      invariant Removed(lib.targets, lib.spaces, was, spacesWas, id, gone)
      invariant |NodesOf(lib.spaces, id)| == |spacesWas[id]| - i
      invariant i > 0 ==> i < |spacesWas[id]|
    {
      StillThere(spacesWas[id], toRemove, gone);
      var ret := RemoveNext(lib, id, toRemove[i], was, spacesWas, gone);
      if ret != SUCCESS {
        if i == 0 {
          return Returned(ret), gone;
        }
        out := ReAdd(lib);
        return;
      }
      gone := gone + [toRemove[i]];
    }
    out := Returned(SUCCESS);
  }

  /** umfMemspaceFilterHelper. It succeeds only by leaving, in order, exactly the targets
      with a positive verdict. A failing callback or a failing first removal changes
      nothing. Otherwise the dropped targets `gone` are lost, and either a target is used
      after its destruction or UNKNOWN is returned. */
  method FilterHelper(lib: Library, id: nat, f: Callback) returns (out: Outcome, ghost gone: seq<nat>)
    requires lib.Valid() && (id == 0 || id in lib.spaces)
    modifies lib
    ensures lib.Valid() && lib.created == old(lib.created)
    ensures id == 0 ==> out == Returned(INVALID_ARGUMENT)
                        && lib.targets == old(lib.targets) && lib.spaces == old(lib.spaces)
    ensures id != 0 ==>
              Filtered(lib.targets, lib.spaces, old(lib.targets), old(lib.spaces), id, f, out, gone)
    ensures id != 0 && !lib.faulty ==>
              out == Expected(old(lib.spaces)[id], Verdicts(f, old(lib.spaces)[id], old(lib.targets)))
  {
    gone := [];
    if id == 0 {
      return Returned(INVALID_ARGUMENT), [];
    }
    var nodes := lib.spaces[id];
    NothingRemoved(lib.targets, lib.spaces, id);
    var ok := lib.Allocate(|nodes|);
    if !ok {
      return Returned(OUT_OF_HOST_MEMORY), [];
    }
    var ret, toRemove := Collect(lib, nodes, f);
    if ret < 0 {
      return Returned(ret), [];
    }
    out, gone := RemoveDropped(lib, id, f, toRemove);
  }

  /** Removes what the callback dropped. */
  method RemoveDropped(lib: Library, id: nat, f: Callback, toRemove: seq<nat>)
    returns (out: Outcome, ghost gone: seq<nat>)
    requires lib.Valid() && id in lib.spaces && lib.spaces[id] != []
    requires AllGiven(Verdicts(f, lib.spaces[id], lib.targets))
    requires toRemove == Dropped(lib.spaces[id], Verdicts(f, lib.spaces[id], lib.targets))
    modifies lib
    ensures lib.Valid() && lib.created == old(lib.created)
    ensures Filtered(lib.targets, lib.spaces, old(lib.targets), old(lib.spaces), id, f, out, gone)
    ensures !lib.faulty ==>
              out == Expected(old(lib.spaces)[id], Verdicts(f, old(lib.spaces)[id], old(lib.targets)))
  {
    ghost var v := Verdicts(f, lib.spaces[id], lib.targets);
    DroppedMembers(lib.spaces[id], v);
    KeptOrDropped(lib.spaces[id], v);
    out, gone := RemoveAll(lib, id, toRemove);
    if out == Returned(SUCCESS) {
      DroppedRemoved(lib.targets, lib.spaces, old(lib.targets), old(lib.spaces), id, v);
    }
  }

  /** What a filter call may do to the targets and memspaces it found: `gone` left memspace
      `id` and were destroyed, which on success are all that were dropped. */
  ghost predicate Filtered(targets: map<nat, Target>, spaces: map<nat, seq<nat>>, was: map<nat, Target>,
                           spacesWas: map<nat, seq<nat>>, id: nat, f: Callback, out: Outcome,
                           gone: seq<nat>)
    requires id in spacesWas && forall h :: h in spacesWas[id] ==> h in was
  {
    var nodes := spacesWas[id];
    var v := Verdicts(f, nodes, was);
    && Removed(targets, spaces, was, spacesWas, id, gone)
    && (out == Returned(SUCCESS) ==>
          && AllGiven(v) && gone == Dropped(nodes, v) && Kept(nodes, v) != []
          && spaces == spacesWas[id := Kept(nodes, v)])
    && (out != Returned(SUCCESS) && gone != [] ==>
          && AllGiven(v) && gone < Dropped(nodes, v)
          && out in {UseAfterDestroy, Returned(UNKNOWN)})
    && (out == UseAfterDestroy ==> gone != [])
  }

  /** If no target was lost, the call changed nothing. */
  lemma NothingLost(targets: map<nat, Target>, spaces: map<nat, seq<nat>>, was: map<nat, Target>,
                    spacesWas: map<nat, seq<nat>>, id: nat, f: Callback, out: Outcome)
    requires id in spacesWas && forall h :: h in spacesWas[id] ==> h in was
    requires Filtered(targets, spaces, was, spacesWas, id, f, out, [])
    ensures targets == was && spaces == spacesWas
  {
    NothingRemoved(was, spacesWas, id);
  }

  /** With or without failures, a filter call never empties a memspace that had targets,
      and so it never succeeds if it drops every target. */
  lemma NeverEmptied(targets: map<nat, Target>, spaces: map<nat, seq<nat>>, was: map<nat, Target>,
                     spacesWas: map<nat, seq<nat>>, id: nat, f: Callback, out: Outcome, gone: seq<nat>)
    requires id in spacesWas && forall h :: h in spacesWas[id] ==> h in was
    requires Distinct(spacesWas[id]) && spacesWas[id] != []
    requires Filtered(targets, spaces, was, spacesWas, id, f, out, gone)
    ensures spaces[id] != []
    ensures (forall i :: 0 <= i < |spacesWas[id]| ==> f.Verdict(i, was[spacesWas[id][i]]) == 0) ==>
              out != Returned(SUCCESS)
  {
    var nodes := spacesWas[id];
    var v := Verdicts(f, nodes, was);
    KeptPositive(nodes, v);
    DroppedMembers(nodes, v);
    if out != Returned(SUCCESS) {
      NotAllGone(nodes, Dropped(nodes, v), gone);
    }
  }

  /** Fewer nodes than there are leave some. */
  lemma NotAllGone(nodes: seq<nat>, dropped: seq<nat>, gone: seq<nat>)
    requires Distinct(nodes) && nodes != [] && Distinct(dropped) && Members(dropped) <= Members(nodes)
    requires gone == [] || gone < dropped
    ensures Without(nodes, Members(gone)) != []
  {
    WithoutMembers(nodes, Members(gone));
    var left := if gone == [] then nodes[0] else dropped[|gone|];
    assert gone != [] ==> dropped[|gone|] in Members(dropped);
    assert left in Members(nodes) && left !in Members(gone);
    assert left in Members(Without(nodes, Members(gone)));
  }

  lemma {:induction false} KeptPositive(nodes: seq<nat>, v: seq<int>)
    requires |v| == |nodes|
    ensures Kept(nodes, v) != [] <==> exists i :: 0 <= i < |v| && v[i] > 0
  {
    if nodes != [] {
      KeptPositive(nodes[..|nodes| - 1], v[..|v| - 1]);
      if i :| 0 <= i < |v| && v[i] > 0 {
        if i < |v| - 1 { assert v[..|v| - 1][i] > 0; }
      }
    }
  }

  // ---------- What the callbacks keep ----------

  /** The targets of `nodes` that a callback drops. */
  ghost function DroppedBy(f: Callback, nodes: seq<nat>, targets: map<nat, Target>): set<nat>
    requires forall h :: h in nodes ==> h in targets
  {
    match f
    case User(answer) => set i | 0 <= i < |nodes| && answer(i) <= 0 :: nodes[i]
    case ById(ids) => set h | h in nodes && targets[h].id !in ids
    case ByCapacity(least) => set h | h in nodes && targets[h].capacity < least
  }

  /** A filter call that succeeds, with or without failures about it, leaves the memspace
      without the dropped targets, in order, and destroys these and no others. */
  ghost predicate Leaves(targets: map<nat, Target>, spaces: map<nat, seq<nat>>, was: map<nat, Target>,
                         spacesWas: map<nat, seq<nat>>, id: nat, drop: set<nat>)
    requires id in spacesWas
  {
    && spaces == spacesWas[id := Without(spacesWas[id], drop)] && targets == was - drop
    && forall h :: h in spacesWas[id] ==> (h in spaces[id] <==> h !in drop)
  }

  lemma VerdictsMeanDropped(f: Callback, nodes: seq<nat>, targets: map<nat, Target>)
    requires Distinct(nodes) && forall h :: h in nodes ==> h in targets
    requires AllGiven(Verdicts(f, nodes, targets))
    ensures var v, drop := Verdicts(f, nodes, targets), DroppedBy(f, nodes, targets);
            && Kept(nodes, v) == Without(nodes, drop) && Members(Dropped(nodes, v)) == drop
            && (Kept(nodes, v) != [] <==> exists h :: h in nodes && h !in drop)
  {
    var v, drop := Verdicts(f, nodes, targets), DroppedBy(f, nodes, targets);
    assert forall i :: 0 <= i < |nodes| ==> (nodes[i] in drop <==> v[i] == 0);
    WithoutDropped(nodes, v, drop);
    DroppedMembers(nodes, v);
    KeptPositive(nodes, v);
  }

  lemma SuccessLeaves(targets: map<nat, Target>, spaces: map<nat, seq<nat>>, was: map<nat, Target>,
                      spacesWas: map<nat, seq<nat>>, id: nat, f: Callback, gone: seq<nat>)
    requires id in spacesWas && Distinct(spacesWas[id]) && forall h :: h in spacesWas[id] ==> h in was
    requires Filtered(targets, spaces, was, spacesWas, id, f, Returned(SUCCESS), gone)
    ensures Leaves(targets, spaces, was, spacesWas, id, DroppedBy(f, spacesWas[id], was))
  {
    var nodes, drop := spacesWas[id], DroppedBy(f, spacesWas[id], was);
    VerdictsMeanDropped(f, nodes, was);
    WithoutMembers(nodes, drop);
    forall h | h in nodes ensures h in Without(nodes, drop) <==> h !in drop {
      assert h in Without(nodes, drop) <==> h in Members(Without(nodes, drop));
    }
  }

  /** When no resource runs out, a filter call succeeds if and only if the callback never
      fails and keeps some target. */
  lemma PlainSuccess(f: Callback, nodes: seq<nat>, targets: map<nat, Target>)
    requires Distinct(nodes) && forall h :: h in nodes ==> h in targets
    ensures var v := Verdicts(f, nodes, targets);
            Expected(nodes, v) == Returned(SUCCESS) <==>
            AllGiven(v) && exists h :: h in nodes && h !in DroppedBy(f, nodes, targets)
    ensures !f.User? ==> AllGiven(Verdicts(f, nodes, targets))
  {
    var v := Verdicts(f, nodes, targets);
    if AllGiven(v) { VerdictsMeanDropped(f, nodes, targets); }
  }

  lemma UserMeans(answer: nat -> int, nodes: seq<nat>, targets: map<nat, Target>)
    requires Distinct(nodes) && forall h :: h in nodes ==> h in targets
    ensures AllGiven(Verdicts(User(answer), nodes, targets)) <==>
            forall i :: 0 <= i < |nodes| ==> answer(i) >= 0
    ensures (exists h :: h in nodes && h !in DroppedBy(User(answer), nodes, targets)) <==>
            exists i :: 0 <= i < |nodes| && answer(i) > 0
  {
    var v, drop := Verdicts(User(answer), nodes, targets), DroppedBy(User(answer), nodes, targets);
    assert forall i :: 0 <= i < |nodes| ==> v[i] == answer(i);
    forall i | 0 <= i < |nodes| ensures nodes[i] in drop <==> answer(i) <= 0 {
      if nodes[i] in drop {
        var j :| 0 <= j < |nodes| && answer(j) <= 0 && nodes[j] == nodes[i];
        assert i == j;
      }
    }
    if h :| h in nodes && h !in drop {
      var i :| 0 <= i < |nodes| && nodes[i] == h;
      assert answer(i) > 0;
    }
    if i :| 0 <= i < |nodes| && answer(i) > 0 {
      assert nodes[i] in nodes && nodes[i] !in drop;
    }
  }

  // ---------- The public filters ----------

  /** umfMemspaceUserFilter: a failing callback becomes USER_SPECIFIC. */
  method UserFilter(lib: Library, id: nat, answer: nat -> int) returns (out: Outcome, ghost gone: seq<nat>)
    requires lib.Valid() && (id == 0 || id in lib.spaces)
    modifies lib
    ensures lib.Valid() && lib.created == old(lib.created)
    ensures id == 0 ==> out == Returned(INVALID_ARGUMENT)
                        && lib.targets == old(lib.targets) && lib.spaces == old(lib.spaces)
    ensures id != 0 ==> Filtered(lib.targets, lib.spaces, old(lib.targets), old(lib.spaces), id,
                                 User(answer), out, gone)
    ensures id != 0 && !lib.faulty ==>
              var nodes := old(lib.spaces)[id];
              var v := Verdicts(User(answer), nodes, old(lib.targets));
              out == if nodes != [] && !AllGiven(v) then Returned(USER_SPECIFIC) else Expected(nodes, v)
    ensures id != 0 && out == Returned(SUCCESS) ==>
              Leaves(lib.targets, lib.spaces, old(lib.targets), old(lib.spaces), id,
                     set i | 0 <= i < |old(lib.spaces)[id]| && answer(i) <= 0 :: old(lib.spaces)[id][i])
    ensures id != 0 && !lib.faulty ==>
              (out == Returned(SUCCESS) <==>
               && (forall i :: 0 <= i < |old(lib.spaces)[id]| ==> answer(i) >= 0)
               && (exists i :: 0 <= i < |old(lib.spaces)[id]| && answer(i) > 0))
  {
    ghost var was, spacesWas := lib.targets, lib.spaces;
    if id != 0 {
      PlainSuccess(User(answer), spacesWas[id], was);
      UserMeans(answer, spacesWas[id], was);
    }
    out, gone := FilterHelper(lib, id, User(answer));
    if id != 0 && out == Returned(SUCCESS) {
      SuccessLeaves(lib.targets, lib.spaces, was, spacesWas, id, User(answer), gone);
    }
    if out.Returned? && out.code < 0 {
      out := Returned(USER_SPECIFIC);
    }
  }

  /** umfMemspaceFilterById: keeps the targets whose id is listed; an empty list is refused. */
  method FilterById(lib: Library, id: nat, ids: seq<nat>) returns (out: Outcome, ghost gone: seq<nat>)
    requires lib.Valid() && (id == 0 || id in lib.spaces)
    modifies lib
    ensures lib.Valid() && lib.created == old(lib.created)
    ensures id == 0 || ids == [] ==> out == Returned(INVALID_ARGUMENT)
                                     && lib.targets == old(lib.targets) && lib.spaces == old(lib.spaces)
    ensures id != 0 && ids != [] ==> Filtered(lib.targets, lib.spaces, old(lib.targets),
                                              old(lib.spaces), id, ById(ids), out, gone)
    ensures id != 0 && ids != [] && !lib.faulty ==>
              out == Expected(old(lib.spaces)[id],
                              Verdicts(ById(ids), old(lib.spaces)[id], old(lib.targets)))
    ensures id != 0 && ids != [] && out == Returned(SUCCESS) ==>
              Leaves(lib.targets, lib.spaces, old(lib.targets), old(lib.spaces), id,
                     set h | h in old(lib.spaces)[id] && old(lib.targets)[h].id !in ids)
    ensures id != 0 && ids != [] && !lib.faulty ==>
              (out == Returned(SUCCESS) <==>
               exists h :: h in old(lib.spaces)[id] && old(lib.targets)[h].id in ids)
  {
    if id == 0 || |ids| == 0 {
      return Returned(INVALID_ARGUMENT), [];
    }
    ghost var was, spacesWas := lib.targets, lib.spaces;
    PlainSuccess(ById(ids), spacesWas[id], was);
    out, gone := FilterHelper(lib, id, ById(ids));
    if out == Returned(SUCCESS) {
      SuccessLeaves(lib.targets, lib.spaces, was, spacesWas, id, ById(ids), gone);
    }
    if out.Returned? && out.code < 0 {
      out := Returned(-out.code);
    }
  }

  /** umfMemspaceFilterByCapacity: keeps the targets of at least the given capacity; a
      negative capacity is refused. */
  method FilterByCapacity(lib: Library, id: nat, capacity: int) returns (out: Outcome, ghost gone: seq<nat>)
    requires lib.Valid() && (id == 0 || id in lib.spaces)
    modifies lib
    ensures lib.Valid() && lib.created == old(lib.created)
    ensures id == 0 || capacity < 0 ==> out == Returned(INVALID_ARGUMENT)
                                        && lib.targets == old(lib.targets) && lib.spaces == old(lib.spaces)
    ensures id != 0 && capacity >= 0 ==> Filtered(lib.targets, lib.spaces, old(lib.targets),
                                                  old(lib.spaces), id, ByCapacity(capacity), out, gone)
    ensures id != 0 && capacity >= 0 && !lib.faulty ==>
              out == Expected(old(lib.spaces)[id],
                              Verdicts(ByCapacity(capacity), old(lib.spaces)[id], old(lib.targets)))
    ensures id != 0 && capacity >= 0 && out == Returned(SUCCESS) ==>
              Leaves(lib.targets, lib.spaces, old(lib.targets), old(lib.spaces), id,
                     set h | h in old(lib.spaces)[id] && old(lib.targets)[h].capacity < capacity)
    ensures id != 0 && capacity >= 0 && !lib.faulty ==>
              (out == Returned(SUCCESS) <==>
               exists h :: h in old(lib.spaces)[id] && old(lib.targets)[h].capacity >= capacity)
  {
    if id == 0 || capacity < 0 {
      return Returned(INVALID_ARGUMENT), [];
    }
    ghost var was, spacesWas := lib.targets, lib.spaces;
    PlainSuccess(ByCapacity(capacity), spacesWas[id], was);
    out, gone := FilterHelper(lib, id, ByCapacity(capacity));
    if out == Returned(SUCCESS) {
      SuccessLeaves(lib.targets, lib.spaces, was, spacesWas, id, ByCapacity(capacity), gone);
    }
    if out.Returned? && out.code < 0 {
      out := Returned(-out.code);
    }
  }

  // ---------- Capacity filters compose ----------

  ghost function Small(nodes: seq<nat>, targets: map<nat, Target>, least: nat): set<nat> {
    set h | h in nodes && h in targets && targets[h].capacity < least
  }

  lemma CapacityKeeps(nodes: seq<nat>, targets: map<nat, Target>, least: nat)
    requires Distinct(nodes) && forall h :: h in nodes ==> h in targets
    ensures var v := Verdicts(ByCapacity(least), nodes, targets);
            && AllGiven(v) && Kept(nodes, v) == Without(nodes, Small(nodes, targets, least))
            && Members(Dropped(nodes, v)) == Small(nodes, targets, least)
  {
    var v := Verdicts(ByCapacity(least), nodes, targets);
    WithoutDropped(nodes, v, Small(nodes, targets, least));
    DroppedMembers(nodes, v);
  }

  lemma SmallInTwoSteps(nodes: seq<nat>, targets: map<nat, Target>, c1: nat, c2: nat)
    requires Distinct(nodes) && forall h :: h in nodes ==> h in targets
    ensures var small1 := Small(nodes, targets, c1);
            var nodes1, targets1 := Without(nodes, small1), targets - small1;
            && Distinct(nodes1) && (forall h :: h in nodes1 ==> h in targets1)
            && small1 + Small(nodes1, targets1, c2) == Small(nodes, targets, if c1 < c2 then c2 else c1)
  {
    var small1 := Small(nodes, targets, c1);
    var nodes1 := Without(nodes, small1);
    WithoutMembers(nodes, small1);
    forall h ensures h in nodes1 <==> h in nodes && h !in small1 {
      assert h in nodes1 <==> h in Members(nodes1);
    }
  }

  lemma TwoStepsInOne(nodes: seq<nat>, targets: map<nat, Target>, c1: nat, c2: nat)
    requires Distinct(nodes) && forall h :: h in nodes ==> h in targets
    ensures var small1 := Small(nodes, targets, c1);
            var nodes1, targets1 := Without(nodes, small1), targets - small1;
            var small := Small(nodes, targets, if c1 < c2 then c2 else c1);
            && Distinct(nodes1) && (forall h :: h in nodes1 ==> h in targets1)
            && Without(nodes1, Small(nodes1, targets1, c2)) == Without(nodes, small)
            && targets1 - Small(nodes1, targets1, c2) == targets - small
            && (Without(nodes, small) != [] ==> nodes1 != [])
  {
    var small1 := Small(nodes, targets, c1);
    var nodes1, targets1 := Without(nodes, small1), targets - small1;
    SmallInTwoSteps(nodes, targets, c1, c2);
    WithoutTwice(nodes, small1, Small(nodes1, targets1, c2));
  }

  /** `nodes'` and `targets'` are what a successful capacity filter leaves. */
  ghost predicate FilteredBy(nodes: seq<nat>, targets: map<nat, Target>, least: nat, nodes': seq<nat>,
                             targets': map<nat, Target>)
    requires forall h :: h in nodes ==> h in targets
  {
    var v := Verdicts(ByCapacity(least), nodes, targets);
    && Expected(nodes, v) == Returned(SUCCESS)
    && nodes' == Kept(nodes, v) && targets' == targets - Members(Dropped(nodes, v))
  }

  lemma FilteredByMeans(nodes: seq<nat>, targets: map<nat, Target>, least: nat, nodes': seq<nat>,
                        targets': map<nat, Target>)
    requires Distinct(nodes) && forall h :: h in nodes ==> h in targets
    ensures FilteredBy(nodes, targets, least, nodes', targets') <==>
            && nodes' != [] && nodes' == Without(nodes, Small(nodes, targets, least))
            && targets' == targets - Small(nodes, targets, least)
  {
    CapacityKeeps(nodes, targets, least);
  }

  /** Filtering by one capacity and then by another succeeds exactly when filtering by the
      larger does, and then leaves the same targets in the same order. */
  lemma CapacityFiltersCompose(nodes: seq<nat>, targets: map<nat, Target>, c1: nat, c2: nat,
                               nodes1: seq<nat>, targets1: map<nat, Target>,
                               nodes2: seq<nat>, targets2: map<nat, Target>)
    requires Distinct(nodes) && forall h :: h in nodes ==> h in targets
    requires nodes1 == Without(nodes, Small(nodes, targets, c1))
    requires targets1 == targets - Small(nodes, targets, c1)
    ensures forall h :: h in nodes1 ==> h in targets1
    ensures FilteredBy(nodes, targets, c1, nodes1, targets1)
            && FilteredBy(nodes1, targets1, c2, nodes2, targets2)
            <==> FilteredBy(nodes, targets, if c1 < c2 then c2 else c1, nodes2, targets2)
  {
    TwoStepsInOne(nodes, targets, c1, c2);
    FilteredByMeans(nodes, targets, c1, nodes1, targets1);
    FilteredByMeans(nodes1, targets1, c2, nodes2, targets2);
    FilteredByMeans(nodes, targets, if c1 < c2 then c2 else c1, nodes2, targets2);
  }

  /** Filtering by this capacity succeeds when no resource runs out. */
  ghost predicate Succeeds(nodes: seq<nat>, targets: map<nat, Target>, least: nat)
    requires forall h :: h in nodes ==> h in targets
  {
    Expected(nodes, Verdicts(ByCapacity(least), nodes, targets)) == Returned(SUCCESS)
  }

  /** If filtering by the larger capacity would succeed, so would the two steps. */
  lemma LargerSucceeds(nodes: seq<nat>, targets: map<nat, Target>, c1: nat, c2: nat)
    requires Distinct(nodes) && forall h :: h in nodes ==> h in targets
    requires Succeeds(nodes, targets, if c1 < c2 then c2 else c1)
    ensures Succeeds(nodes, targets, c1)
    ensures var nodes1 := Without(nodes, Small(nodes, targets, c1));
            var targets1 := targets - Small(nodes, targets, c1);
            (forall h :: h in nodes1 ==> h in targets1) && Succeeds(nodes1, targets1, c2)
  {
    var c := if c1 < c2 then c2 else c1;
    var nodes1, targets1 := Without(nodes, Small(nodes, targets, c1)), targets - Small(nodes, targets, c1);
    var nodes2, targets2 := Without(nodes, Small(nodes, targets, c)), targets - Small(nodes, targets, c);
    CapacityFiltersCompose(nodes, targets, c1, c2, nodes1, targets1, nodes2, targets2);
    FilteredByMeans(nodes, targets, c, nodes2, targets2);
    CapacityKeeps(nodes, targets, c);
  }

  /** A filter call by capacity that succeeds, with or without failures about it. */
  lemma SuccessMeans(targets: map<nat, Target>, spaces: map<nat, seq<nat>>, was: map<nat, Target>,
                     spacesWas: map<nat, seq<nat>>, id: nat, least: nat, gone: seq<nat>)
    requires id in spacesWas && Distinct(spacesWas[id]) && forall h :: h in spacesWas[id] ==> h in was
    requires Filtered(targets, spaces, was, spacesWas, id, ByCapacity(least), Returned(SUCCESS), gone)
    ensures FilteredBy(spacesWas[id], was, least, NodesOf(spaces, id), targets)
    ensures spaces == spacesWas[id := NodesOf(spaces, id)]
    ensures NodesOf(spaces, id) == Without(spacesWas[id], Small(spacesWas[id], was, least))
    ensures targets == was - Small(spacesWas[id], was, least)
  {
    FilteredByMeans(spacesWas[id], was, least, NodesOf(spaces, id), targets);
  }

  /** Two filter calls by capacity that succeed. */
  lemma TwoSuccesses(was: map<nat, Target>, spacesWas: map<nat, seq<nat>>, targets1: map<nat, Target>,
                     spaces1: map<nat, seq<nat>>, targets2: map<nat, Target>, spaces2: map<nat, seq<nat>>,
                     id: nat, c1: nat, c2: nat, gone1: seq<nat>, gone2: seq<nat>)
    requires id in spacesWas && Distinct(spacesWas[id]) && forall h :: h in spacesWas[id] ==> h in was
    requires id in spaces1 && Distinct(spaces1[id]) && forall h :: h in spaces1[id] ==> h in targets1
    requires Filtered(targets1, spaces1, was, spacesWas, id, ByCapacity(c1), Returned(SUCCESS), gone1)
    requires Filtered(targets2, spaces2, targets1, spaces1, id, ByCapacity(c2), Returned(SUCCESS), gone2)
    ensures FilteredBy(spacesWas[id], was, if c1 < c2 then c2 else c1, NodesOf(spaces2, id), targets2)
    ensures spaces2 == spacesWas[id := NodesOf(spaces2, id)]
  {
    SuccessMeans(targets1, spaces1, was, spacesWas, id, c1, gone1);
    SuccessMeans(targets2, spaces2, targets1, spaces1, id, c2, gone2);
    CapacityFiltersCompose(spacesWas[id], was, c1, c2, spaces1[id], targets1, NodesOf(spaces2, id), targets2);
  }

  /** Two capacity filters in a row on one library, failing or not. If both succeed, they
      leave what one filter by the larger capacity leaves. Without failures both succeed
      exactly when that filter would. */
  method FilterByCapacities(lib: Library, id: nat, c1: nat, c2: nat)
    returns (out1: Outcome, out2: Outcome)
    requires lib.Valid() && id in lib.spaces
    modifies lib
    ensures lib.Valid() && lib.created == old(lib.created)
    ensures out1 == out2 == Returned(SUCCESS) ==>
              && FilteredBy(old(lib.spaces)[id], old(lib.targets), if c1 < c2 then c2 else c1,
                            NodesOf(lib.spaces, id), lib.targets)
              && lib.spaces == old(lib.spaces)[id := NodesOf(lib.spaces, id)]
    ensures !lib.faulty ==>
              (out1 == out2 == Returned(SUCCESS) <==>
               Succeeds(old(lib.spaces)[id], old(lib.targets), if c1 < c2 then c2 else c1))
  {
    ghost var gone1: seq<nat>, gone2: seq<nat>;
    ghost var was, spacesWas := lib.targets, lib.spaces;
    if Succeeds(spacesWas[id], was, if c1 < c2 then c2 else c1) {
      LargerSucceeds(spacesWas[id], was, c1, c2);
    }
    out1, gone1 := FilterByCapacity(lib, id, c1);
    if out1 != Returned(SUCCESS) {
      return out1, out1;
    }
    SuccessMeans(lib.targets, lib.spaces, was, spacesWas, id, c1, gone1);
    ghost var targets1, spaces1 := lib.targets, lib.spaces;
    out2, gone2 := FilterByCapacity(lib, id, c2);
    if out2 == Returned(SUCCESS) {
      TwoSuccesses(was, spacesWas, targets1, spaces1, lib.targets, lib.spaces, id, c1, c2, gone1, gone2);
    }
  }
}
