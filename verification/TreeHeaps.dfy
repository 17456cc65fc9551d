/** Binary trees linked in memory, for any type `N` of nodes: the shapes that pointers form
    and what hanging a leaf does to them. The original tree class and the generated one
    share these facts; each maps its own node type to a heap. */
module TreeHeaps {
  import opened SearchTrees

  datatype Option<+T> = None | Some(value: T)

  /** What a node holds: its key and its two child pointers. */
  datatype Item<N> = Item(key: int, left: Option<N>, right: Option<N>)

  type Heap<N> = map<N, Item<N>>

  /** The nodes reachable from a pointer, with their keys, in the shape in which they are
      linked. */
  datatype Shape<N> = Nil | At(left: Shape<N>, node: N, key: int, right: Shape<N>)

  ghost function Nodes<N>(sh: Shape<N>): set<N> {
    match sh
    case Nil => {}
    case At(l, n, _, r) => Nodes(l) + {n} + Nodes(r)
  }

  ghost predicate Distinct<N>(sh: Shape<N>) {
    match sh
    case Nil => true
    case At(l, n, _, r) =>
      Distinct(l) && Distinct(r) && n !in Nodes(l) && n !in Nodes(r) && Nodes(l) !! Nodes(r)
  }

  ghost function Value<N>(sh: Shape<N>): Tree {
    match sh
    case Nil => Leaf
    case At(l, _, k, r) => Node(Value(l), k, Value(r))
  }

  /** Following the links of `h` from `p` finds exactly the shape `sh`. */
  ghost predicate Linked<N>(h: Heap<N>, p: Option<N>, sh: Shape<N>)
    decreases sh
  {
    match sh
    case Nil => p == None
    case At(l, x, k, r) =>
      p == Some(x) && x in h && h[x].key == k && Linked(h, h[x].left, l) && Linked(h, h[x].right, r)
  }

  lemma {:induction false} LinkedFrame<N>(h: Heap<N>, h': Heap<N>, p: Option<N>, sh: Shape<N>)
    requires Linked(h, p, sh)
    requires forall x :: x in Nodes(sh) && x in h ==> x in h' && h'[x] == h[x]
    ensures Linked(h', p, sh)
    decreases sh
  {
    match sh
    case Nil =>
    case At(l, x, _, r) =>
      LinkedFrame(h, h', h[x].left, l);
      LinkedFrame(h, h', h[x].right, r);
  }

  // ---------- Hanging a leaf ----------

  /** The search for `k` ends on a node that holds it. */
  ghost predicate Found<N>(sh: Shape<N>, k: int) {
    match sh
    case Nil => false
    case At(l, _, x, r) =>
      if k < x then Found(l, k) else if k > x then Found(r, k) else true
  }

  /** The shape after hanging `leaf`, with key `k`, where the search for `k` falls off. */
  ghost function Graft<N>(sh: Shape<N>, k: int, leaf: N): Shape<N> {
    match sh
    case Nil => At(Nil, leaf, k, Nil)
    case At(l, n, x, r) =>
      if k < x then At(Graft(l, k, leaf), n, x, r)
      else if k > x then At(l, n, x, Graft(r, k, leaf))
      else sh
  }

  /** The last shape, and the node at its top, on the search path of `k`. */
  ghost function LastShape<N>(sh: Shape<N>, k: int): (last: Shape<N>)
    requires sh.At?
    ensures last.At? && last.node in Nodes(sh)
  {
    if k < sh.key && sh.left.At? then LastShape(sh.left, k)
    else if k > sh.key && sh.right.At? then LastShape(sh.right, k)
    else sh
  }

  lemma {:induction false} GraftFacts<N>(sh: Shape<N>, k: int, leaf: N)
    requires leaf !in Nodes(sh) && Distinct(sh) && !Found(sh, k)
    ensures Value(Graft(sh, k, leaf)) == Insert(Value(sh), k)
    ensures Nodes(Graft(sh, k, leaf)) == Nodes(sh) + {leaf}
    ensures Distinct(Graft(sh, k, leaf))
  {
    if sh.At? {
      if k < sh.key { GraftFacts(sh.left, k, leaf); }
      else { GraftFacts(sh.right, k, leaf); }
    }
  }

  lemma {:induction false} FoundMeansUnchanged<N>(sh: Shape<N>, k: int)
    requires Found(sh, k)
    ensures Insert(Value(sh), k) == Value(sh)
  {
    if k < sh.key { FoundMeansUnchanged(sh.left, k); }
    else if k > sh.key { FoundMeansUnchanged(sh.right, k); }
  }

  /** What a node holds after `leaf` became its child on the side of `k`. */
  ghost function WithLeaf<N>(item: Item<N>, k: int, leaf: N): Item<N> {
    if k < item.key then item.(left := Some(leaf)) else item.(right := Some(leaf))
  }

  /** Hanging the leaf below the last node of the search path, on the side of `k`, links
      the grafted shape. */
  lemma {:induction false} GraftLinked<N>(h: Heap<N>, h': Heap<N>, sh: Shape<N>, k: int, leaf: N)
    requires sh.At? && Linked(h, Some(sh.node), sh) && Distinct(sh) && !Found(sh, k)
    requires leaf !in Nodes(sh) && leaf in h' && h'[leaf] == Item(k, None, None)
    requires forall x :: x in Nodes(sh) && x != LastShape(sh, k).node && x in h ==> x in h' && h'[x] == h[x]
    requires LastShape(sh, k).node in h && LastShape(sh, k).node in h'
    requires h'[LastShape(sh, k).node] == WithLeaf(h[LastShape(sh, k).node], k, leaf)
    ensures Linked(h', Some(sh.node), Graft(sh, k, leaf))
  {
    var n := sh.node;
    if k < sh.key {
      if sh.left.At? { GraftLinked(h, h', sh.left, k, leaf); }
      LinkedFrame(h, h', h[n].right, sh.right);
    } else {
      if sh.right.At? { GraftLinked(h, h', sh.right, k, leaf); }
      LinkedFrame(h, h', h[n].left, sh.left);
    }
  }
}
