/** Binary search trees as values: what the pointer code of
    Exprs/include/BinarySearch.hpp computes, branch by branch, and what that means for
    the set of keys. The pointer classes and the transaction engine are specified by
    these functions. */
module SearchTrees {

  datatype Tree = Leaf | Node(left: Tree, key: int, right: Tree)

  function Keys(t: Tree): set<int> {
    match t
    case Leaf => {}
    case Node(l, k, r) => Keys(l) + {k} + Keys(r)
  }

  /** Ordered and free of duplicates. */
  ghost predicate Ordered(t: Tree) {
    match t
    case Leaf => true
    case Node(l, k, r) =>
      && Ordered(l) && Ordered(r)
      && (forall x <- Keys(l) :: x < k)
      && (forall x <- Keys(r) :: k < x)
  }

  /** The tree `insert` leaves behind. */
  function Insert(t: Tree, k: int): Tree {
    match t
    case Leaf => Node(Leaf, k, Leaf)
    case Node(l, x, r) =>
      if k < x then Node(Insert(l, k), x, r)
      else if k > x then Node(l, x, Insert(r, k))
      else t
  }

  /** The number of edges the search for `k` follows: what `lookup` and `insert` return. */
  function Level(t: Tree, k: int): nat {
    match t
    case Leaf => 0
    case Node(l, x, r) =>
      if k == x then 0 else if k < x then 1 + Level(l, k) else 1 + Level(r, k)
  }

  function Max(a: nat, b: nat): nat {
    if a < b then b else a
  }

  function Depth(t: Tree): nat {
    match t
    case Leaf => 0
    case Node(l, _, r) => Max(Depth(l), Depth(r)) + 1
  }

  /** A deletion either leaves a tree or touches a node it has already deleted. */
  datatype Deletion = Kept(tree: Tree) | FreedAccess

  /** `deleteHelper`: its two-child branch deletes the matched node, then writes through
      it and returns it. */
  function DeleteHelper(t: Tree, k: int): Deletion {
    match t
    case Leaf => Kept(Leaf)
    case Node(l, x, r) =>
      if k < x then
        match DeleteHelper(l, k)
        case Kept(l') => Kept(Node(l', x, r))
        case FreedAccess => FreedAccess
      else if k > x then
        match DeleteHelper(r, k)
        case Kept(r') => Kept(Node(l, x, r'))
        case FreedAccess => FreedAccess
      else if l.Leaf? then Kept(r)
      else if r.Leaf? then Kept(l)
      else FreedAccess
  }

  /** `remove`: a match at the root drops the whole tree, a root below `k` sends the
      search to the left, and for a root above `k` neither comparison holds. */
  function Remove(t: Tree, k: int): Deletion {
    match t
    case Leaf => Kept(Leaf)
    case Node(l, x, r) =>
      if x == k then Kept(Leaf)
      else if x < k then
        match DeleteHelper(l, k)
        case Kept(l') => Kept(Node(l', x, r))
        case FreedAccess => FreedAccess
      else Kept(t)
  }

  lemma {:induction false} InsertKeys(t: Tree, k: int)
    ensures Keys(Insert(t, k)) == Keys(t) + {k}
  {
    match t
    case Leaf =>
    case Node(l, _, r) =>
      InsertKeys(l, k);
      InsertKeys(r, k);
  }

  lemma {:induction false} InsertOrdered(t: Tree, k: int)
    requires Ordered(t)
    ensures Ordered(Insert(t, k))
  {
    match t
    case Leaf =>
    case Node(l, _, r) =>
      InsertOrdered(l, k);
      InsertOrdered(r, k);
      InsertKeys(l, k);
      InsertKeys(r, k);
  }

  /** Insertion is idempotent, and on an ordered tree it changes nothing exactly when the
      key is already there. */
  lemma {:induction false} InsertChangesIffAbsent(t: Tree, k: int)
    requires Ordered(t)
    ensures Insert(t, k) == t <==> k in Keys(t)
  {
    match t
    case Leaf =>
    case Node(l, _, r) =>
      InsertChangesIffAbsent(l, k);
      InsertChangesIffAbsent(r, k);
  }

  /** Below all of `t`'s keys lies nothing to delete: `deleteHelper` walks the right spine
      and rewrites every link with its old value. */
  lemma {:induction false} DeleteAbove(t: Tree, k: int)
    requires forall x <- Keys(t) :: x < k
    ensures DeleteHelper(t, k) == Kept(t)
  {
    match t
    case Leaf =>
    case Node(_, x, r) =>
      assert x in Keys(t) && Keys(r) <= Keys(t);
      DeleteAbove(r, k);
  }

  /** On ordered trees `remove` never reaches the freed node, and either empties the tree
      (the key is at the root) or leaves it as it was. */
  lemma RemoveExactly(t: Tree, k: int)
    requires Ordered(t)
    ensures Remove(t, k) == Kept(if t.Node? && t.key == k then Leaf else t)
  {
    if t.Node? && t.key < k {
      DeleteAbove(t.left, k);
    }
  }

  /** `remove` takes out exactly the key, as its name promises, if and only if the key is
      absent or the tree is that key alone. */
  lemma RemoveMeetsIntentIff(t: Tree, k: int)
    requires Ordered(t)
    ensures Remove(t, k).Kept?
    ensures Keys(Remove(t, k).tree) == Keys(t) - {k}
       <==> (k !in Keys(t) || t == Node(Leaf, k, Leaf))
  {
    RemoveExactly(t, k);
    if k in Keys(t) && t.key == k {
      var l, r := t.left, t.right;
      if l.Node? { assert l.key in Keys(t) - {k}; }
      if r.Node? { assert r.key in Keys(t) - {k}; }
    }
  }

  /** Without order the freed node can be reached: the left subtree may hold a larger key
      with two children. */
  lemma FreedAccessOnUnorderedTree()
    ensures exists t, k :: Remove(t, k) == FreedAccess
  {
    var seven := Node(Node(Leaf, 6, Leaf), 7, Node(Leaf, 8, Leaf));
    assert Remove(Node(seven, 5, Leaf), 7) == FreedAccess;
  }
}
