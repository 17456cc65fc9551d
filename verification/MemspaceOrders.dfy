/** Deriving one memspace from another, and sorting
    (unified-memory-framework/src/memspace.c:186-320). */
module MemspaceOrders {
  import opened NodeLists
  import opened Memspaces

  /** What a callback yields for a target: a value, or a failure with a positive code. */
  datatype Reply = Value(value: nat) | Failed(code: int)

  ghost function FirstFailed(replies: seq<Reply>): (k: nat)
    ensures k <= |replies| && (k < |replies| ==> replies[k].Failed?)
    ensures forall j :: 0 <= j < k ==> replies[j].Value?
  {
    if replies == [] then 0
    else
      var k := FirstFailed(replies[..|replies| - 1]);
      if k < |replies| - 1 || replies[|replies| - 1].Failed? then k else |replies|
  }

  /** The code with which a call ends when no resource runs out. */
  ghost function CodeFor(replies: seq<Reply>): int {
    if replies == [] then OUT_OF_HOST_MEMORY
    else if FirstFailed(replies) < |replies| then replies[FirstFailed(replies)].code
    else SUCCESS
  }

  // ---------- The deriving filter ----------

  /** The nodes that the replies of `getTarget` point to. */
  ghost function Picked(nodes: seq<nat>, replies: seq<Reply>): (p: seq<nat>)
    requires |replies| == |nodes| && PicksFrom(nodes, replies) && FirstFailed(replies) == |replies|
    ensures |p| == |nodes| && forall i :: 0 <= i < |p| ==> p[i] == nodes[replies[i].value]
  {
    seq(|nodes|, i requires 0 <= i < |nodes| => nodes[replies[i].value])
  }

  /** `getTarget` yields one of the nodes it is given, here named by its index. */
  ghost predicate PicksFrom(nodes: seq<nat>, replies: seq<Reply>) {
    forall i :: 0 <= i < |replies| ==>
      if replies[i].Value? then replies[i].value < |nodes| else replies[i].code > SUCCESS
  }

  /** The first loop of umfMemspaceFilter: the distinct picks, in a buffer as long as the
      memspace. */
  method DistinctPicks(nodes: seq<nat>, replies: seq<Reply>) returns (ret: int, picks: seq<nat>)
    requires |replies| == |nodes| && PicksFrom(nodes, replies)
    ensures ret == if FirstFailed(replies) < |replies| then replies[FirstFailed(replies)].code else SUCCESS
    ensures ret == SUCCESS ==> FirstFailed(replies) == |replies|
                               && picks == FirstOccurrences(Picked(nodes, replies))
  {
    var uniqueBestNodes := new nat[|nodes|];
    var numUniqueBestNodes := 0;
    ghost var picked: seq<nat> := [];
    for i := 0 to |nodes|
      invariant 0 <= numUniqueBestNodes <= i == |picked|
      invariant forall j :: 0 <= j < i ==> replies[j].Value? && picked[j] == nodes[replies[j].value]
      invariant uniqueBestNodes[..numUniqueBestNodes] == FirstOccurrences(picked)
    {
      if replies[i].Failed? {
        return replies[i].code, [];
      }
      var target := nodes[replies[i].value];
      assert (picked + [target])[..i] == picked;
      picked := picked + [target];
      var known := Occurs(uniqueBestNodes, numUniqueBestNodes, target);
      if !known {
        uniqueBestNodes[numUniqueBestNodes] := target;
        numUniqueBestNodes := numUniqueBestNodes + 1;
      }
    }
    ret, picks := SUCCESS, uniqueBestNodes[..numUniqueBestNodes];
    assert picked == Picked(nodes, replies);
  }

  /** The inner loop: whether `target` is among the first `n` nodes of the buffer. */
  method Occurs(buffer: array<nat>, n: nat, target: nat) returns (known: bool)
    requires n <= buffer.Length
    ensures known <==> target in buffer[..n]
  {
    var i := 0;
    while i < n
      invariant 0 <= i <= n && target !in buffer[..i]
    {
      if buffer[i] == target {
        assert buffer[..n][i] == target;
        return true;
      }
      i := i + 1;
    }
    known := false;
  }

  lemma {:induction false} SubsetCoherent(nodes: seq<nat>, picks: seq<nat>, targets: map<nat, Target>)
    requires Coherent(nodes, targets) && Distinct(picks) && Members(picks) <= Members(nodes)
    ensures Coherent(picks, targets)
  {
    forall h | h in picks ensures h in nodes {
      assert h in Members(picks);
    }
    forall i, j | 0 <= i < j < |picks|
      ensures targets[picks[i]].kind == targets[picks[j]].kind
      ensures targets[picks[i]].identity != targets[picks[j]].identity
    {
      assert picks[i] in nodes && picks[j] in nodes;
      var a :| 0 <= a < |nodes| && nodes[a] == picks[i];
      var b :| 0 <= b < |nodes| && nodes[b] == picks[j];
    }
  }

  lemma {:induction false} PicksCoherent(nodes: seq<nat>, replies: seq<Reply>, targets: map<nat, Target>)
    requires Coherent(nodes, targets) && nodes != []
    requires |replies| == |nodes| && PicksFrom(nodes, replies) && FirstFailed(replies) == |replies|
    ensures var picks := FirstOccurrences(Picked(nodes, replies));
            picks != [] && Coherent(picks, targets)
  {
    var picked := Picked(nodes, replies);
    FirstOccurrencesFacts(picked);
    assert picked[0] in picked;
    forall i | 0 <= i < |picked| ensures picked[i] in nodes {
      assert replies[i].value < |nodes|;
    }
    SubsetCoherent(nodes, FirstOccurrences(picked), targets);
  }

  /** umfMemspaceFilter: a new memspace with clones of the distinct picks, in the order in
      which they were first picked; the given memspace never changes. */
  method Filter(lib: Library, id: nat, replies: seq<Reply>) returns (ret: int, id': nat)
    requires lib.Valid() && (id == 0 || id in lib.spaces)
    requires |replies| == |NodesOf(lib.spaces, id)| && PicksFrom(NodesOf(lib.spaces, id), replies)
    modifies lib
    ensures lib.Valid() && lib.created == old(lib.created)
    ensures ret == SUCCESS ==>
              && id != 0 && FirstFailed(replies) == |replies| && id' != 0 && id' !in old(lib.spaces)
              && lib.spaces == old(lib.spaces)[id' := NodesOf(lib.spaces, id')]
              && Cloned(old(lib.targets), lib.targets,
                        FirstOccurrences(Picked(old(lib.spaces)[id], replies)), NodesOf(lib.spaces, id'))
    ensures ret != SUCCESS ==> lib.spaces == old(lib.spaces) && lib.targets == old(lib.targets)
    ensures id == 0 ==> ret == INVALID_ARGUMENT
    ensures id != 0 && !lib.faulty ==> ret == CodeFor(replies)
  {
    id' := 0;
    if id == 0 {
      return INVALID_ARGUMENT, 0;
    }
    var nodes := lib.spaces[id];
    var ok := lib.Allocate(|nodes|);
    if !ok {
      return OUT_OF_HOST_MEMORY, 0;
    }
    var picks: seq<nat>;
    ret, picks := DistinctPicks(nodes, replies);
    if ret != SUCCESS {
      return;
    }
    PicksCoherent(nodes, replies, lib.targets);
    ret, id' := lib.MakeClones(picks);
  }

  // ---------- Sorting ----------

  datatype Entry = Entry(property: nat, node: nat)

  /** propertyCmp: the entry with the larger property comes first. */
  function PropertyCmp(a: Entry, b: Entry): int {
    if a.property < b.property then 1 else if a.property > b.property then -1 else 0
  }

  ghost predicate InOrder(s: seq<Entry>) {
    forall i, j :: 0 <= i < j < |s| ==> PropertyCmp(s[i], s[j]) <= 0
  }

  /** Stands for `qsort`: an ordered permutation. Nothing more is promised of it; entries
      with equal properties may come in any order. */
  method Qsort(entries: seq<Entry>) returns (sorted: seq<Entry>)
    ensures InOrder(sorted) && multiset(sorted) == multiset(entries)
  {
    sorted := [];
    for n := 0 to |entries|
      invariant InOrder(sorted) && multiset(sorted) == multiset(entries[..n])
    {
      sorted := InsertEntry(sorted, entries[n]);
      assert entries[..n + 1] == entries[..n] + [entries[n]];
    }
    assert entries[..|entries|] == entries;
  }

  method InsertEntry(sorted: seq<Entry>, e: Entry) returns (r: seq<Entry>)
    requires InOrder(sorted)
    ensures InOrder(r) && multiset(r) == multiset(sorted) + multiset{e}
  {
    var k := |sorted|;
    while k > 0 && PropertyCmp(sorted[k - 1], e) > 0
      invariant 0 <= k <= |sorted|
      invariant forall j :: k <= j < |sorted| ==> PropertyCmp(sorted[j], e) > 0
    {
      k := k - 1;
    }
    r := sorted[..k] + [e] + sorted[k..];
    assert r == sorted[..k] + ([e] + sorted[k..]);
    InsertedInOrder(sorted, e, k);
    assert sorted == sorted[..k] + sorted[k..];
  }

  lemma InsertedInOrder(sorted: seq<Entry>, e: Entry, k: nat)
    requires InOrder(sorted) && k <= |sorted|
    requires k > 0 ==> PropertyCmp(sorted[k - 1], e) <= 0
    requires forall j :: k <= j < |sorted| ==> PropertyCmp(sorted[j], e) > 0
    ensures InOrder(sorted[..k] + [e] + sorted[k..])
  {
  }

  ghost function EntriesFor(nodes: seq<nat>, replies: seq<Reply>): (es: seq<Entry>)
    requires |replies| == |nodes| && FirstFailed(replies) == |replies|
    ensures |es| == |nodes|
    ensures forall i :: 0 <= i < |es| ==> es[i] == Entry(replies[i].value, nodes[i])
  {
    seq(|nodes|, i requires 0 <= i < |nodes| => Entry(replies[i].value, nodes[i]))
  }

  ghost function NodesIn(entries: seq<Entry>): (s: seq<nat>)
    ensures |s| == |entries| && forall i :: 0 <= i < |s| ==> s[i] == entries[i].node
  {
    seq(|entries|, i requires 0 <= i < |entries| => entries[i].node)
  }

  lemma {:induction false} TakenOut<T>(s: seq<T>, k: nat)
    requires k < |s|
    ensures multiset(s) == multiset(s[..k] + s[k + 1..]) + multiset{s[k]}
    ensures multiset(s[..k] + s[k + 1..]) == multiset(s) - multiset{s[k]}
  {
    assert s == s[..k] + ([s[k]] + s[k + 1..]);
    assert multiset(s) == multiset(s[..k]) + multiset([s[k]] + s[k + 1..]);
  }

  lemma {:induction false} CountedOnce<T>(s: seq<T>, x: T)
    requires forall i, j :: 0 <= i < j < |s| ==> s[i] != s[j]
    ensures multiset(s)[x] <= 1
  {
    if s != [] {
      CountedOnce(s[1..], x);
      assert s == [s[0]] + s[1..];
    }
  }

  /** A permutation of distinct elements has distinct elements. */
  lemma {:induction false} PermutationDistinct<T>(s: seq<T>, t: seq<T>, i: nat, j: nat)
    requires forall i, j :: 0 <= i < j < |s| ==> s[i] != s[j]
    requires multiset(s) == multiset(t) && i < j < |t|
    ensures t[i] != t[j]
  {
    CountedOnce(s, t[j]);
    TakenOut(t, j);
    assert t[i] == (t[..j] + t[j + 1..])[i];
    assert t[i] in multiset(t[..j] + t[j + 1..]);
  }

  /** `now` holds the nodes `was`, each once, those with larger properties first. */
  ghost predicate DescendingPermutation(was: seq<nat>, replies: seq<Reply>, now: seq<nat>)
    requires |replies| == |was| && FirstFailed(replies) == |replies|
  {
    && |now| == |was| && Distinct(now) && Members(now) == Members(was)
    && (forall i, j, a, b :: 0 <= i < j < |now| && 0 <= a < |was| && 0 <= b < |was|
                             && now[i] == was[a] && now[j] == was[b]
          ==> replies[a].value >= replies[b].value)
  }

  /** The position in `nodes` of the node at position `i` after sorting. */
  ghost function Origin(nodes: seq<nat>, replies: seq<Reply>, sorted: seq<Entry>, i: nat): (a: nat)
    requires |replies| == |nodes| && FirstFailed(replies) == |replies|
    requires multiset(sorted) == multiset(EntriesFor(nodes, replies)) && i < |sorted|
    ensures a < |nodes| && sorted[i] == Entry(replies[a].value, nodes[a])
  {
    var entries := EntriesFor(nodes, replies);
    assert sorted[i] in multiset(entries);
    var a :| 0 <= a < |entries| && entries[a] == sorted[i];
    a
  }

  lemma {:induction false} SortedNodes(nodes: seq<nat>, replies: seq<Reply>, sorted: seq<Entry>)
    requires Distinct(nodes) && |replies| == |nodes| && FirstFailed(replies) == |replies|
    requires InOrder(sorted) && multiset(sorted) == multiset(EntriesFor(nodes, replies))
    ensures DescendingPermutation(nodes, replies, NodesIn(sorted))
  {
    var entries, now := EntriesFor(nodes, replies), NodesIn(sorted);
    assert |multiset(sorted)| == |multiset(entries)|;
    forall i, j | 0 <= i < j < |now| ensures now[i] != now[j] {
      PermutationDistinct(entries, sorted, i, j);
      var a, b := Origin(nodes, replies, sorted, i), Origin(nodes, replies, sorted, j);
    }
    SameMembers(nodes, replies, sorted);
    forall i, j, a, b | 0 <= i < j < |now| && 0 <= a < |nodes| && 0 <= b < |nodes|
                        && now[i] == nodes[a] && now[j] == nodes[b]
      ensures replies[a].value >= replies[b].value
    {
      assert a == Origin(nodes, replies, sorted, i) && b == Origin(nodes, replies, sorted, j);
      assert PropertyCmp(sorted[i], sorted[j]) <= 0;
    }
  }

  lemma {:induction false} SameMembers(nodes: seq<nat>, replies: seq<Reply>, sorted: seq<Entry>)
    requires |replies| == |nodes| && FirstFailed(replies) == |replies|
    requires multiset(sorted) == multiset(EntriesFor(nodes, replies))
    ensures Members(NodesIn(sorted)) == Members(nodes)
  {
    forall h | h in NodesIn(sorted) ensures h in nodes {
      var i :| 0 <= i < |sorted| && NodesIn(sorted)[i] == h;
      assert nodes[Origin(nodes, replies, sorted, i)] == h;
    }
    forall h | h in nodes ensures h in NodesIn(sorted) {
      var a :| 0 <= a < |nodes| && nodes[a] == h;
      assert EntriesFor(nodes, replies)[a] in multiset(sorted);
      var i :| 0 <= i < |sorted| && sorted[i] == EntriesFor(nodes, replies)[a];
      assert NodesIn(sorted)[i] == h;
    }
  }

  /** The loop that fills the entries. */
  method ReadProperties(nodes: seq<nat>, replies: seq<Reply>) returns (ret: int, entries: seq<Entry>)
    requires |replies| == |nodes|
    ensures ret == if FirstFailed(replies) < |replies| then replies[FirstFailed(replies)].code else SUCCESS
    ensures FirstFailed(replies) == |replies| ==> entries == EntriesFor(nodes, replies)
  {
    entries := [];
    for i := 0 to |nodes|
      invariant |entries| == i
      invariant forall j :: 0 <= j < i ==> replies[j].Value? && entries[j] == Entry(replies[j].value, nodes[j])
    {
      if replies[i].Failed? {
        return replies[i].code, [];
      }
      entries := entries + [Entry(replies[i].value, nodes[i])];
    }
    ret := SUCCESS;
  }

  /** umfMemspaceSortDesc: the same targets, by descending property. On any failure, and so
      for a memspace without targets, nothing changes. */
  method SortDesc(lib: Library, id: nat, replies: seq<Reply>) returns (ret: int)
    requires lib.Valid() && (id == 0 || id in lib.spaces)
    requires |replies| == |NodesOf(lib.spaces, id)|
    requires forall i :: 0 <= i < |replies| && replies[i].Failed? ==> replies[i].code > SUCCESS
    modifies lib
    ensures lib.Valid() && lib.created == old(lib.created) && lib.targets == old(lib.targets)
    ensures ret == SUCCESS ==>
              && id in lib.spaces && FirstFailed(replies) == |replies|
              && lib.spaces == old(lib.spaces)[id := lib.spaces[id]]
              && DescendingPermutation(old(lib.spaces)[id], replies, lib.spaces[id])
    ensures ret != SUCCESS ==> lib.spaces == old(lib.spaces)
    ensures id == 0 ==> ret == INVALID_ARGUMENT
    ensures id != 0 && !lib.faulty ==> ret == CodeFor(replies)
  {
    if id == 0 {
      return INVALID_ARGUMENT;
    }
    var nodes := lib.spaces[id];
    var ok := lib.Allocate(|nodes|);
    if !ok {
      return OUT_OF_HOST_MEMORY;
    }
    var entries: seq<Entry>;
    ret, entries := ReadProperties(nodes, replies);
    if ret != SUCCESS {
      return;
    }
    var sorted := Qsort(entries);
    var ordered := seq(|sorted|, i requires 0 <= i < |sorted| => sorted[i].node);
    assert ordered == NodesIn(sorted);
    SortedNodes(nodes, replies, sorted);
    SubsetCoherent(nodes, ordered, lib.targets);
    lib.SetNodes(id, ordered, lib.targets);
    ret := SUCCESS;
  }
}
