/** The memspaces of unified-memory-framework/src/memspace.c over the memory targets of
    src/memtarget.c. Handles are addresses, and address 0 is the null handle. */
module Memspaces {
  import opened NodeLists

  // Values of umf_result_t.
  const SUCCESS: int := 0
  const OUT_OF_HOST_MEMORY: int := 1
  const INVALID_ARGUMENT: int := 3
  const USER_SPECIFIC: int := 6
  const UNKNOWN: int := 0x7ffffffe

  /** A memory target: `kind` is its type, `identity` what its type's `compare` looks at. */
  datatype Target = Target(kind: int, identity: int, capacity: nat, id: nat) {
    predicate SameAs(other: Target) {
      kind == other.kind && identity == other.identity
    }
  }

  /** The first target of `nodes` that compares equal to `t`, or `|nodes|`. */
  ghost function Match(nodes: seq<nat>, targets: map<nat, Target>, t: Target): (k: nat)
    requires forall h :: h in nodes ==> h in targets
    ensures k <= |nodes| && (k < |nodes| ==> targets[nodes[k]].SameAs(t))
    ensures forall j :: 0 <= j < k ==> !targets[nodes[j]].SameAs(t)
  {
    if nodes == [] then 0
    else
      var n := |nodes| - 1;
      var k := Match(nodes[..n], targets, t);
      if k < n || targets[nodes[n]].SameAs(t) then k else n + 1
  }

  /** All targets of one type, and no two of them equal under compare. */
  ghost predicate Coherent(nodes: seq<nat>, targets: map<nat, Target>) {
    && (forall h :: h in nodes ==> h in targets)
    && (forall i, j :: 0 <= i < j < |nodes| ==>
          && targets[nodes[i]].kind == targets[nodes[j]].kind
          && targets[nodes[i]].identity != targets[nodes[j]].identity)
  }

  lemma MatchItself(nodes: seq<nat>, targets: map<nat, Target>, k: nat)
    requires Coherent(nodes, targets) && k < |nodes|
    ensures Match(nodes, targets, targets[nodes[k]]) == k
  {
  }

  // ---------- Who owns which target ----------

  /** The ledger: every live target is either the user's or owned by exactly one memspace,
      at exactly one position. */
  ghost predicate Ledger(targets: map<nat, Target>, spaces: map<nat, seq<nat>>, created: set<nat>,
                         owner: map<nat, nat>) {
    && created !! owner.Keys && targets.Keys == created + owner.Keys
    && (forall h :: h in owner ==> owner[h] in spaces && h in spaces[owner[h]])
    && (forall id, h :: id in spaces && h in spaces[id] ==> h in owner && owner[h] == id)
    && (forall id :: id in spaces ==> Distinct(spaces[id]))
  }

  ghost predicate Sound(targets: map<nat, Target>, spaces: map<nat, seq<nat>>, created: set<nat>,
                        owner: map<nat, nat>) {
    && Ledger(targets, spaces, created, owner)
    && 0 !in targets && 0 !in spaces
    && (forall id :: id in spaces ==> Coherent(spaces[id], targets))
  }

  ghost function NodesOf(spaces: map<nat, seq<nat>>, id: nat): seq<nat> {
    if id in spaces then spaces[id] else []
  }

  ghost function Reowned(owner: map<nat, nat>, was: seq<nat>, nodes: seq<nat>, id: nat): map<nat, nat> {
    map h | h in owner.Keys - Members(was) + Members(nodes) :: if h in Members(nodes) then id else owner[h]
  }

  /** The owners after giving memspace `id` the nodes `nodes`. */
  lemma OwnersReplaced(was: map<nat, Target>, spaces: map<nat, seq<nat>>, created: set<nat>,
                       owner: map<nat, nat>, id: nat, nodes: seq<nat>)
    requires Ledger(was, spaces, created, owner)
    requires Members(nodes) !! was.Keys - Members(NodesOf(spaces, id))
    ensures var owner' := Reowned(owner, NodesOf(spaces, id), nodes, id);
            && owner'.Keys == owner.Keys - Members(NodesOf(spaces, id)) + Members(nodes)
            && owner'.Keys !! created
            && forall h :: h in owner' ==>
                 owner'[h] in spaces[id := nodes] && h in spaces[id := nodes][owner'[h]]
  {
    var owner' := Reowned(owner, NodesOf(spaces, id), nodes, id);
    assert Members(NodesOf(spaces, id)) !! created;
    forall h | h in owner'
      ensures owner'[h] in spaces[id := nodes] && h in spaces[id := nodes][owner'[h]]
    {
      if h !in Members(nodes) { assert owner[h] in spaces; }
    }
  }

  lemma LedgerReplace(was: map<nat, Target>, targets: map<nat, Target>, spaces: map<nat, seq<nat>>,
                      created: set<nat>, owner: map<nat, nat>, id: nat, nodes: seq<nat>)
    requires Ledger(was, spaces, created, owner) && Distinct(nodes)
    requires Members(nodes) !! was.Keys - Members(NodesOf(spaces, id))
    requires targets.Keys == was.Keys - Members(NodesOf(spaces, id)) + Members(nodes)
    ensures Ledger(targets, spaces[id := nodes], created, Reowned(owner, NodesOf(spaces, id), nodes, id))
  {
    var owner' := Reowned(owner, NodesOf(spaces, id), nodes, id);
    assert Members(NodesOf(spaces, id)) <= owner.Keys;
    OwnersReplaced(was, spaces, created, owner, id, nodes);
    forall i, h | i in spaces && i != id && h in spaces[i] ensures h in owner' && owner'[h] == i {
      assert h in owner && owner[h] == i;
    }
  }

  /** Giving memspace `id`, new or not, the nodes `nodes` keeps everything sound when the
      targets changed only accordingly. */
  lemma SoundReplace(was: map<nat, Target>, targets: map<nat, Target>, spaces: map<nat, seq<nat>>,
                     created: set<nat>, owner: map<nat, nat>, id: nat, nodes: seq<nat>)
    requires Sound(was, spaces, created, owner) && id != 0 && 0 !in targets
    requires Distinct(nodes) && Coherent(nodes, targets)
    requires Members(nodes) !! was.Keys - Members(NodesOf(spaces, id))
    requires targets.Keys == was.Keys - Members(NodesOf(spaces, id)) + Members(nodes)
    requires forall h :: h in was.Keys - Members(NodesOf(spaces, id)) ==> targets[h] == was[h]
    ensures Sound(targets, spaces[id := nodes], created, Reowned(owner, NodesOf(spaces, id), nodes, id))
  {
    LedgerReplace(was, targets, spaces, created, owner, id, nodes);
    forall i | i in spaces && i != id ensures Coherent(spaces[i], targets) {
      OthersCoherent(was, targets, spaces, created, owner, id, i);
    }
  }

  lemma OthersCoherent(was: map<nat, Target>, targets: map<nat, Target>, spaces: map<nat, seq<nat>>,
                       created: set<nat>, owner: map<nat, nat>, id: nat, i: nat)
    requires Sound(was, spaces, created, owner) && i in spaces && i != id
    requires forall h :: h in was.Keys - Members(NodesOf(spaces, id)) ==> h in targets && targets[h] == was[h]
    ensures Coherent(spaces[i], targets)
  {
    forall h | h in spaces[i] ensures h in was.Keys - Members(NodesOf(spaces, id)) {
      assert owner[h] == i;
    }
  }

  lemma SoundWithout(targets: map<nat, Target>, spaces: map<nat, seq<nat>>, created: set<nat>,
                     owner: map<nat, nat>, id: nat)
    requires Sound(targets, spaces, created, owner) && id in spaces
    ensures Sound(targets - Members(spaces[id]), spaces - {id}, created, owner - Members(spaces[id]))
  {
    forall i | i in spaces && i != id ensures Coherent(spaces[i], targets - Members(spaces[id])) {
      OthersCoherent(targets, targets - Members(spaces[id]), spaces, created, owner, id, i);
    }
  }

  /** The user makes or destroys a target of their own. */
  lemma SoundCreated(was: map<nat, Target>, targets: map<nat, Target>, spaces: map<nat, seq<nat>>,
                     created: set<nat>, created': set<nat>, owner: map<nat, nat>)
    requires Sound(was, spaces, created, owner)
    requires created' !! owner.Keys && targets.Keys == created' + owner.Keys && 0 !in targets
    requires forall h :: h in owner ==> targets[h] == was[h]
    ensures Sound(targets, spaces, created', owner)
  {
  }

  /** `clones` are distinct new targets, equal in value to those of `handles`, and nothing
      else changed. */
  ghost predicate Cloned(was: map<nat, Target>, targets: map<nat, Target>, handles: seq<nat>,
                         clones: seq<nat>) {
    && |clones| == |handles| && Distinct(clones) && 0 !in clones
    && Members(clones) !! was.Keys
    && targets.Keys == was.Keys + Members(clones)
    && (forall h :: h in was ==> targets[h] == was[h])
    && (forall i :: 0 <= i < |handles| ==> handles[i] in was && targets[clones[i]] == was[handles[i]])
  }

  lemma OneMoreCloned(was: map<nat, Target>, targets: map<nat, Target>, handles: seq<nat>,
                      clones: seq<nat>, h: nat, h': nat)
    requires Cloned(was, targets, handles, clones)
    requires h in was && h' != 0 && h' !in targets
    ensures Cloned(was, targets[h' := targets[h]], handles + [h], clones + [h'])
  {
    MembersOfOneMore(clones, h');
    assert forall c :: c in clones ==> c in Members(clones);
  }

  lemma LastCloneGone(was: map<nat, Target>, targets: map<nat, Target>, handles: seq<nat>,
                      clones: seq<nat>)
    requires Cloned(was, targets, handles, clones) && clones != []
    ensures var n := |clones| - 1;
            clones[n] in targets && Cloned(was, targets - {clones[n]}, handles[..n], clones[..n])
  {
  }

  lemma ClonesCoherent(was: map<nat, Target>, targets: map<nat, Target>, handles: seq<nat>,
                       clones: seq<nat>)
    requires Cloned(was, targets, handles, clones) && Coherent(handles, was)
    ensures Coherent(clones, targets)
  {
    assert forall c :: c in clones ==> c in Members(clones);
  }

  /** There is always another address. */
  lemma {:induction false} Unbounded(used: set<nat>)
    ensures exists h: nat :: h != 0 && h !in used
  {
    var top := Above(used);
    assert top !in used;
  }

  lemma {:induction false} Above(used: set<nat>) returns (top: nat)
    ensures top > 0 && forall h :: h in used ==> h < top
    decreases |used|
  {
    if used == {} {
      top := 1;
    } else {
      var h :| h in used;
      assert forall x :: x in used ==> x == h || x in used - {h};
      var rest := Above(used - {h});
      top := if h < rest then rest else h + 1;
    }
  }

  class Library {
    /** If false, no allocation of a positive size fails, nor does any target operation. */
    const faulty: bool
    var targets: map<nat, Target>
    var spaces: map<nat, seq<nat>>
    /** Targets made by the user, and for every other live target the memspace owning it. */
    ghost var created: set<nat>
    ghost var owner: map<nat, nat>

    ghost predicate Valid()
      reads this
    {
      Sound(targets, spaces, created, owner)
    }

    constructor (faulty: bool)
      ensures Valid() && targets == map[] && spaces == map[] && created == {}
      ensures this.faulty == faulty
    {
      this.faulty := faulty;
      targets, spaces, created, owner := map[], map[], {}, map[];
    }

    // ---------- The allocator and the targets ----------

    /** An allocation of `size` units; a size of 0 always yields null. */
    method Allocate(size: nat) returns (ok: bool)
      ensures ok ==> size > 0
      ensures !faulty && size > 0 ==> ok
    {
      ok := size > 0;
      if faulty && ok { ok := *; }
    }

    /** An operation of a target's type, which may fail with any error code. */
    method Operate() returns (ret: int)
      ensures ret >= 0 && (!faulty ==> ret == SUCCESS)
    {
      ret := SUCCESS;
      if faulty {
        ret :| ret >= 0;
      }
    }

    /** umfMemtargetClone. */
    method TargetClone(h: nat) returns (ret: int, h': nat)
      requires h in targets
      modifies `targets
      ensures ret >= 0 && (!faulty ==> ret == SUCCESS)
      ensures ret == SUCCESS ==> h' != 0 && h' !in old(targets)
                                 && targets == old(targets)[h' := old(targets)[h]]
      ensures ret != SUCCESS ==> targets == old(targets)
    {
      h' := 0;
      var ok := Allocate(1);
      if !ok {
        return OUT_OF_HOST_MEMORY, 0;
      }
      ret := Operate();
      if ret != SUCCESS {
        return;
      }
      Unbounded(targets.Keys);
      h' :| h' != 0 && h' !in targets.Keys;
      targets := targets[h' := targets[h]];
    }

    /** umfMemtargetDestroy; destroying a target twice does not meet the precondition. */
    method TargetDestroy(h: nat)
      requires h in targets
      modifies `targets
      ensures targets == old(targets) - {h}
    {
      targets := targets - {h};
    }

    /** umfMemtargetCompare: 0 if equal, negative for different types, otherwise 1. */
    method Compare(a: nat, b: nat) returns (ret: int, cmp: int)
      requires a in targets && b in targets
      ensures ret >= 0 && (!faulty ==> ret == SUCCESS)
      ensures ret == SUCCESS ==> (cmp == 0 <==> targets[a].SameAs(targets[b]))
      ensures ret == SUCCESS ==> (cmp < 0 <==> targets[a].kind != targets[b].kind)
    {
      cmp := 0;
      ret := Operate();
      if ret != SUCCESS {
        return;
      }
      if targets[a].kind != targets[b].kind {
        return SUCCESS, -1;
      }
      ret := Operate();
      cmp := if targets[a].identity != targets[b].identity then 1 else 0;
    }

    /** The user's umfMemtargetCreate. */
    method CreateTarget(t: Target) returns (ret: int, h: nat)
      requires Valid()
      modifies this
      ensures Valid() && spaces == old(spaces) && ret >= 0 && (!faulty ==> ret == SUCCESS)
      ensures ret == SUCCESS ==> h != 0 && h !in old(targets) && targets == old(targets)[h := t]
                                 && created == old(created) + {h}
      ensures ret != SUCCESS ==> targets == old(targets) && created == old(created)
    {
      h := 0;
      ret := Operate();
      if ret != SUCCESS {
        return;
      }
      Unbounded(targets.Keys);
      h :| h != 0 && h !in targets.Keys;
      targets, created := targets[h := t], created + {h};
      SoundCreated(old(targets), targets, spaces, old(created), created, owner);
    }

    /** The user's umfMemtargetDestroy, of a target the user made. */
    method DestroyTarget(h: nat)
      requires Valid() && h in created
      modifies this
      ensures Valid() && spaces == old(spaces)
      ensures targets == old(targets) - {h} && created == old(created) - {h}
    {
      TargetDestroy(h);
      created := created - {h};
      SoundCreated(old(targets), targets, spaces, old(created), created, owner);
    }

    // ---------- Whole memspaces ----------

    /** Gives memspace `id` its node array. */
    method SetNodes(id: nat, nodes: seq<nat>, ghost was: map<nat, Target>)
      requires Sound(was, spaces, created, owner) && id != 0 && 0 !in targets
      requires Distinct(nodes) && Coherent(nodes, targets)
      requires Members(nodes) !! was.Keys - Members(NodesOf(spaces, id))
      requires targets.Keys == was.Keys - Members(NodesOf(spaces, id)) + Members(nodes)
      requires forall h :: h in was.Keys - Members(NodesOf(spaces, id)) ==> targets[h] == was[h]
      modifies `spaces, `owner
      ensures Valid() && spaces == old(spaces)[id := nodes]
    {
      SoundReplace(was, targets, spaces, created, owner, id, nodes);
      owner := Reowned(owner, NodesOf(spaces, id), nodes, id);
      spaces := spaces[id := nodes];
    }

    /** umfMemspaceNew. */
    method New() returns (ret: int, id: nat)
      requires Valid()
      modifies this
      ensures Valid() && created == old(created) && targets == old(targets)
      ensures ret == SUCCESS ==> id != 0 && id !in old(spaces) && spaces == old(spaces)[id := []]
      ensures ret != SUCCESS ==> ret > 0 && spaces == old(spaces)
      ensures !faulty ==> ret == SUCCESS
    {
      id := 0;
      var ok := Allocate(1);
      if !ok {
        return OUT_OF_HOST_MEMORY, 0;
      }
      ret := SUCCESS;
      Unbounded(spaces.Keys);
      id :| id != 0 && id !in spaces.Keys;
      SetNodes(id, [], targets);
    }

    /** umfMemspaceDestroy: its targets are destroyed, each once, and nothing else is. */
    method Destroy(id: nat)
      requires Valid() && id in spaces
      modifies this
      ensures Valid() && created == old(created)
      ensures spaces == old(spaces) - {id}
      ensures targets == old(targets) - Members(old(spaces)[id])
    {
      var nodes := spaces[id];
      for i := 0 to |nodes|
        invariant targets == old(targets) - Members(nodes[..i])
        invariant spaces == old(spaces) && created == old(created) && owner == old(owner)
      {
        assert nodes[..i + 1] == nodes[..i] + [nodes[i]];
        TargetDestroy(nodes[i]);
      }
      assert nodes[..|nodes|] == nodes;
      SoundWithout(old(targets), spaces, created, owner, id);
      spaces := spaces - {id};
      owner := owner - Members(nodes);
    }

    /** The cloning loop of umfMemspaceClone and umfMemspaceFilter, with its cleanup. */
    method CloneAll(handles: seq<nat>) returns (ret: int, clones: seq<nat>)
      requires 0 !in targets && forall h :: h in handles ==> h in targets
      modifies `targets
      ensures ret >= 0 && (!faulty ==> ret == SUCCESS)
      ensures ret == SUCCESS ==> Cloned(old(targets), targets, handles, clones)
      ensures ret != SUCCESS ==> targets == old(targets)
    {
      ret, clones := SUCCESS, [];
      while |clones| < |handles|
        invariant |clones| <= |handles| && ret == SUCCESS
        invariant Cloned(old(targets), targets, handles[..|clones|], clones)
        decreases |handles| - |clones|
      {
        ghost var before, n := targets, |clones|;
        var h: nat;
        ret, h := TargetClone(handles[|clones|]);
        if ret != SUCCESS {
          CleanUp(clones, old(targets), handles[..n]);
          return;
        }
        assert handles[..n + 1] == handles[..n] + [handles[n]];
        OneMoreCloned(old(targets), before, handles[..n], clones, handles[n], h);
        clones := clones + [h];
      }
      assert handles[..|clones|] == handles;
    }

    /** The cleanup destroys the clones made so far, last first. */
    method CleanUp(clones: seq<nat>, ghost was: map<nat, Target>, ghost handles: seq<nat>)
      requires Cloned(was, targets, handles, clones)
      modifies `targets
      ensures targets == was
    {
      var i := |clones|;
      ghost var cs, hs := clones, handles;
      while i != 0
        invariant 0 <= i == |cs| == |hs| && cs <= clones
        invariant Cloned(was, targets, hs, cs)
      {
        i := i - 1;
        LastCloneGone(was, targets, hs, cs);
        TargetDestroy(clones[i]);
        cs, hs := cs[..i], hs[..i];
      }
    }

    /** Makes a memspace of freshly cloned targets. */
    method Publish(clones: seq<nat>, ghost was: map<nat, Target>, ghost handles: seq<nat>)
      returns (id: nat)
      requires Sound(was, spaces, created, owner) && Coherent(handles, was)
      requires Cloned(was, targets, handles, clones)
      modifies `spaces, `owner
      ensures Valid() && id != 0 && id !in old(spaces) && spaces == old(spaces)[id := clones]
    {
      Unbounded(spaces.Keys);
      id :| id != 0 && id !in spaces.Keys;
      ClonesCoherent(was, targets, handles, clones);
      SetNodes(id, clones, was);
    }

    /** The common part of umfMemspaceClone and umfMemspaceFilter: a new memspace with
        clones of `handles`, or no change at all. Without handles it never succeeds. */
    method MakeClones(handles: seq<nat>) returns (ret: int, id': nat)
      requires Valid() && Coherent(handles, targets)
      modifies this
      ensures Valid() && created == old(created) && ret >= 0
      ensures ret == SUCCESS ==>
                && id' != 0 && id' !in old(spaces) && spaces == old(spaces)[id' := NodesOf(spaces, id')]
                && Cloned(old(targets), targets, handles, NodesOf(spaces, id'))
      ensures ret != SUCCESS ==> spaces == old(spaces) && targets == old(targets)
      ensures handles == [] ==> ret == OUT_OF_HOST_MEMORY
      ensures handles != [] && !faulty ==> ret == SUCCESS
    {
      id' := 0;
      var ok := Allocate(1);
      if !ok {
        return OUT_OF_HOST_MEMORY, 0;
      }
      ok := Allocate(|handles|);
      if !ok {
        return OUT_OF_HOST_MEMORY, 0;
      }
      var clones: seq<nat>;
      ret, clones := CloneAll(handles);
      if ret != SUCCESS {
        return;
      }
      id' := Publish(clones, old(targets), handles);
    }

    /** umfMemspaceClone. */
    method Clone(id: nat) returns (ret: int, id': nat)
      requires Valid() && (id == 0 || id in spaces)
      modifies this
      ensures Valid() && created == old(created)
      ensures ret == SUCCESS ==>
                && id != 0 && id' != 0 && id' !in old(spaces)
                && spaces == old(spaces)[id' := NodesOf(spaces, id')]
                && Cloned(old(targets), targets, old(spaces)[id], NodesOf(spaces, id'))
      ensures ret >= 0
      ensures ret != SUCCESS ==> spaces == old(spaces) && targets == old(targets)
      ensures id == 0 ==> ret == INVALID_ARGUMENT
      ensures id != 0 && old(spaces)[id] == [] ==> ret == OUT_OF_HOST_MEMORY
      ensures id != 0 && old(spaces)[id] != [] && !faulty ==> ret == SUCCESS
    {
      if id == 0 {
        return INVALID_ARGUMENT, 0;
      }
      ret, id' := MakeClones(spaces[id]);
    }

    // ---------- Single targets ----------

    /** The loop of umfMemspaceMemtargetAdd over the targets already there. */
    method Vet(nodes: seq<nat>, h: nat) returns (ret: int)
      requires h in targets && forall n :: n in nodes ==> n in targets
      ensures ret >= 0 && (ret == SUCCESS ==> Addable(nodes, targets, targets[h]))
      ensures !faulty ==> ret == if Addable(nodes, targets, targets[h]) then SUCCESS else INVALID_ARGUMENT
    {
      for i := 0 to |nodes|
        invariant forall j :: 0 <= j < i ==> targets[nodes[j]].kind == targets[h].kind
                                             && targets[nodes[j]].identity != targets[h].identity
      {
        var cmp: int;
        ret, cmp := Compare(nodes[i], h);
        if ret != SUCCESS {
          return;
        }
        if cmp <= 0 {
          return INVALID_ARGUMENT;
        }
      }
      ret := SUCCESS;
    }

    /** The loop of umfMemspaceMemtargetRemove. */
    method Find(nodes: seq<nat>, h: nat) returns (ret: int, i: nat)
      requires h in targets && forall n :: n in nodes ==> n in targets
      ensures ret >= 0 && (!faulty ==> ret == SUCCESS)
      ensures ret == SUCCESS ==> i == Match(nodes, targets, targets[h])
    {
      i, ret := 0, SUCCESS;
      while i < |nodes|
        invariant i <= |nodes| && ret == SUCCESS
        invariant forall j :: 0 <= j < i ==> !targets[nodes[j]].SameAs(targets[h])
      {
        var cmp: int;
        ret, cmp := Compare(nodes[i], h);
        if ret != SUCCESS || cmp == 0 {
          return;
        }
        i := i + 1;
      }
    }

    /** umfMemspaceMemtargetAdd: a clone of `h` goes to the end, unless the memspace holds an
        equal target or one of another type. */
    method Add(id: nat, h: nat) returns (ret: int)
      requires Valid() && (id == 0 || id in spaces) && (h == 0 || h in targets)
      modifies this
      ensures Valid() && created == old(created) && ret >= 0
      ensures ret == SUCCESS ==>
                && id != 0 && h != 0 && id in spaces && |spaces[id]| > 0
                && var h' := spaces[id][|spaces[id]| - 1];
                   && h' !in old(targets) && targets == old(targets)[h' := old(targets)[h]]
                   && spaces == old(spaces)[id := old(spaces)[id] + [h']]
      ensures ret != SUCCESS ==> spaces == old(spaces) && targets == old(targets)
      ensures ret == SUCCESS ==> Addable(old(spaces)[id], old(targets), old(targets)[h])
      ensures id == 0 || h == 0 ==> ret == INVALID_ARGUMENT
      ensures !faulty && id != 0 && h != 0 ==>
                ret == if Addable(old(spaces)[id], old(targets), old(targets)[h]) then SUCCESS
                       else INVALID_ARGUMENT
    {
      if id == 0 || h == 0 {
        return INVALID_ARGUMENT;
      }
      var nodes := spaces[id];
      ret := Vet(nodes, h);
      if ret != SUCCESS {
        return;
      }
      var ok := Allocate(|nodes| + 1);
      if !ok {
        return OUT_OF_HOST_MEMORY;
      }
      var h': nat;
      ret, h' := TargetClone(h);
      if ret != SUCCESS {
        return;
      }
      MembersOfOneMore(nodes, h');
      SetNodes(id, nodes + [h'], old(targets));
    }

    /** umfMemspaceMemtargetRemove: the first target equal to `h` goes. The last remaining
        target cannot be removed. */
    method Remove(id: nat, h: nat) returns (ret: int)
      requires Valid() && (id == 0 || id in spaces) && (h == 0 || h in targets)
      modifies this
      ensures Valid() && created == old(created) && ret >= 0
      ensures ret == SUCCESS ==>
                && id != 0 && h != 0 && |old(spaces)[id]| >= 2
                && var nodes := old(spaces)[id];
                   var k := Match(nodes, old(targets), old(targets)[h]);
                   && k < |nodes| && targets == old(targets) - {nodes[k]}
                   && spaces == old(spaces)[id := Cut(nodes, k)]
      ensures ret != SUCCESS ==> spaces == old(spaces) && targets == old(targets)
      ensures id == 0 || h == 0 ==> ret == INVALID_ARGUMENT
      ensures !faulty && id != 0 && h != 0 ==>
                var nodes := old(spaces)[id];
                ret == if Match(nodes, old(targets), old(targets)[h]) == |nodes| then INVALID_ARGUMENT
                       else if |nodes| == 1 then OUT_OF_HOST_MEMORY
                       else SUCCESS
    {
      if id == 0 || h == 0 {
        return INVALID_ARGUMENT;
      }
      var nodes := spaces[id];
      var i: nat;
      ret, i := Find(nodes, h);
      if ret != SUCCESS {
        return;
      }
      if i == |nodes| {
        return INVALID_ARGUMENT;
      }
      var ok := Allocate(|nodes| - 1);
      if !ok {
        return OUT_OF_HOST_MEMORY;
      }
      var newNodes := Cut(nodes, i);
      TargetDestroy(nodes[i]);
      Shortened(nodes, old(targets), i);
      SetNodes(id, newNodes, old(targets));
      ret := SUCCESS;
    }
  }

  ghost predicate Addable(nodes: seq<nat>, targets: map<nat, Target>, t: Target)
    requires forall h :: h in nodes ==> h in targets
  {
    forall h :: h in nodes ==> targets[h].kind == t.kind && targets[h].identity != t.identity
  }

  lemma Shortened(nodes: seq<nat>, targets: map<nat, Target>, k: nat)
    requires Distinct(nodes) && Coherent(nodes, targets) && k < |nodes|
    ensures var rest := Cut(nodes, k);
            && Distinct(rest) && Coherent(rest, targets - {nodes[k]})
            && Members(rest) == Members(nodes) - {nodes[k]}
  {
  }
}
