/** Chains of linked nodes in memory, for any type `N` of nodes. The original queue and list
    and the generated ones share these facts; each maps its own node type to a heap. */
module LinkedHeaps {

  datatype Option<+T> = None | Some(value: T)

  datatype Item<N> = Item(data: int, link: Option<N>)

  type Heap<N> = map<N, Item<N>>

  ghost function Get<N>(s: seq<N>, i: int): Option<N> {
    if 0 <= i < |s| then Some(s[i]) else None
  }

  ghost predicate Apart<N>(s: seq<N>, i: int, j: int) {
    0 <= i < |s| && 0 <= j < |s| ==> s[i] != s[j]
  }

  ghost predicate Distinct<N>(s: seq<N>) {
    forall i, j :: 0 <= i < j < |s| ==> Apart(s, i, j)
  }

  ghost function Members<N>(s: seq<N>): set<N> {
    set n | n in s
  }

  /** Following the links of `h` from the first node of `s` visits exactly `s`, finds the
      data `d`, and ends at null. */
  ghost predicate Chain<N>(h: Heap<N>, s: seq<N>, d: seq<int>) {
    && |s| == |d| && Distinct(s)
    && forall i {:trigger s[i] in h} :: 0 <= i < |s| ==> s[i] in h && h[s[i]] == Item(d[i], Get(s, i + 1))
  }

  /** The sequence with `x` put in before position `i`. */
  ghost function Spliced<T>(s: seq<T>, i: nat, x: T): (t: seq<T>)
    requires i <= |s|
    ensures |t| == |s| + 1
    ensures forall k :: 0 <= k <= |s| ==> t[k] == if k < i then s[k] else if k == i then x else s[k - 1]
  {
    s[..i] + [x] + s[i..]
  }

  lemma SplicedMembers<N>(s: seq<N>, i: nat, n: N)
    requires i <= |s|
    ensures Members(Spliced(s, i, n)) == Members(s) + {n}
  {
    assert s == s[..i] + s[i..];
    assert forall m :: m in s <==> m in s[..i] || m in s[i..];
  }

  lemma SplicedDistinct<N>(s: seq<N>, i: nat, n: N)
    requires i <= |s| && n !in s && Distinct(s)
    ensures Distinct(Spliced(s, i, n))
  {
    var t := Spliced(s, i, n);
    forall j, k | 0 <= j < k < |t| ensures Apart(t, j, k) {
      assert j != i && k != i ==> Apart(s, if j < i then j else j - 1, if k < i then k else k - 1);
    }
  }

  /** From `h` to `h'` at most the nodes of `changed` changed or went. */
  ghost predicate SameBut<N>(h: Heap<N>, h': Heap<N>, changed: set<N>) {
    forall m :: m in h && m !in changed ==> m in h' && h'[m] == h[m]
  }

  ghost predicate Holds<N>(h: Heap<N>, n: N, item: Item<N>) {
    n in h && h[n] == item
  }

  /** Splicing keeps the chain when the new node points to the rest, the node before the gap
      points to the new node, and no other node changed. */
  lemma SplicedChain<N>(h: Heap<N>, h': Heap<N>, s: seq<N>, d: seq<int>, i: nat, n: N, x: int)
    requires Chain(h, s, d) && i <= |s| && n !in s
    requires Holds(h', n, Item(x, Get(s, i)))
    requires i > 0 ==> Holds(h', s[i - 1], Item(d[i - 1], Some(n)))
    requires SameBut(h, h', if i > 0 then {s[i - 1]} else {})
    ensures Chain(h', Spliced(s, i, n), Spliced(d, i, x))
  {
    SplicedDistinct(s, i, n);
    var t, e := Spliced(s, i, n), Spliced(d, i, x);
    forall k | 0 <= k < |t| ensures t[k] in h' && h'[t[k]] == Item(e[k], Get(t, k + 1)) {
      if k < i {
        assert s[k] in h && (i > 0 && k < i - 1 ==> Apart(s, k, i - 1));
      } else if k > i {
        assert s[k - 1] in h && (i > 0 ==> Apart(s, i - 1, k - 1));
      }
    }
  }

  /** A new node behind the one before position `i`. */
  lemma Inserted<N>(h: Heap<N>, h': Heap<N>, s: seq<N>, d: seq<int>, i: nat, n: N, x: int)
    requires Chain(h, s, d) && 0 < i <= |s| && n !in s
    requires Holds(h', n, Item(x, Get(s, i))) && Holds(h', s[i - 1], Item(d[i - 1], Some(n)))
    requires SameBut(h, h', {s[i - 1]})
    ensures Chain(h', s[..i] + [n] + s[i..], d[..i] + [x] + d[i..])
    ensures Members(s[..i] + [n] + s[i..]) == Members(s) + {n}
    ensures Get(s[..i] + [n] + s[i..], 0) == Get(s, 0)
  {
    SplicedChain(h, h', s, d, i, n, x);
    SplicedMembers(s, i, n);
  }

  /** A new last node, to which the former last one points. */
  lemma Appended<N>(h: Heap<N>, h': Heap<N>, s: seq<N>, d: seq<int>, n: N, x: int)
    requires s != [] && Chain(h, s, d) && n !in s
    requires Holds(h', n, Item(x, None)) && Holds(h', s[|s| - 1], Item(d[|s| - 1], Some(n)))
    requires SameBut(h, h', {s[|s| - 1]})
    ensures Chain(h', s + [n], d + [x]) && Members(s + [n]) == Members(s) + {n}
  {
    Inserted(h, h', s, d, |s|, n, x);
    assert s[..|s|] + [n] + s[|s|..] == s + [n] && d[..|s|] + [x] + d[|s|..] == d + [x];
  }

  /** A new first node, which points to the former first one. */
  lemma Prepended<N>(h: Heap<N>, h': Heap<N>, s: seq<N>, d: seq<int>, n: N, x: int)
    requires Chain(h, s, d) && n !in s
    requires Holds(h', n, Item(x, Get(s, 0))) && SameBut(h, h', {})
    ensures Chain(h', [n] + s, [x] + d) && Members([n] + s) == Members(s) + {n}
  {
    SplicedChain(h, h', s, d, 0, n, x);
    SplicedMembers(s, 0, n);
    assert Spliced(s, 0, n) == [n] + s && Spliced(d, 0, x) == [x] + d;
  }

  lemma TailNodes<N>(s: seq<N>)
    requires s != [] && Distinct(s)
    ensures Distinct(s[1..]) && Members(s[1..]) == Members(s) - {s[0]}
  {
    var t := s[1..];
    assert s == [s[0]] + t;
    forall j, k | 0 <= j < k < |t| ensures Apart(t, j, k) {
      assert Apart(s, j + 1, k + 1);
    }
    forall k | 0 <= k < |t| ensures t[k] != s[0] {
      assert Apart(s, 0, k + 1);
    }
  }

  /** Without its first node a chain is a chain. */
  lemma TailChain<N>(h: Heap<N>, h': Heap<N>, s: seq<N>, d: seq<int>)
    requires s != [] && Chain(h, s, d) && SameBut(h, h', {s[0]})
    ensures Chain(h', s[1..], d[1..]) && Members(s[1..]) == Members(s) - {s[0]}
    ensures Holds(h, s[0], Item(d[0], Get(s[1..], 0))) && d == [d[0]] + d[1..]
  {
    TailNodes(s);
    var t := s[1..];
    assert s[0] in h;
    forall k | 0 <= k < |t| ensures t[k] in h' && h'[t[k]] == Item(d[1..][k], Get(t, k + 1)) {
      assert s[k + 1] in h && Apart(s, 0, k + 1);
    }
  }

  lemma FrontNodes<N>(s: seq<N>)
    requires s != [] && Distinct(s)
    ensures var n := |s| - 1; Distinct(s[..n]) && Members(s[..n]) == Members(s) - {s[n]}
  {
    var n := |s| - 1;
    var t := s[..n];
    assert s == t + [s[n]];
    forall j, k | 0 <= j < k < |t| ensures Apart(t, j, k) {
      assert Apart(s, j, k);
    }
    forall k | 0 <= k < |t| ensures t[k] != s[n] {
      assert Apart(s, k, n);
    }
  }

  /** Without its last node, and with null in the node before it, a chain is a chain. */
  lemma FrontChain<N>(h: Heap<N>, h': Heap<N>, s: seq<N>, d: seq<int>)
    requires |s| >= 2 && Chain(h, s, d)
    requires var n := |s| - 1;
             && Holds(h', s[n - 1], Item(d[n - 1], None)) && SameBut(h, h', {s[n], s[n - 1]})
    ensures var n := |s| - 1;
            && Chain(h', s[..n], d[..n]) && Members(s[..n]) == Members(s) - {s[n]}
            && d == d[..n] + [d[n]] && Get(s[..n], 0) == Get(s, 0)
  {
    FrontNodes(s);
    var n := |s| - 1;
    var t := s[..n];
    forall k | 0 <= k < |t| ensures t[k] in h' && h'[t[k]] == Item(d[..n][k], Get(t, k + 1)) {
      assert s[k] in h && Apart(s, k, n) && (k < n - 1 ==> Apart(s, k, n - 1));
    }
  }
}
