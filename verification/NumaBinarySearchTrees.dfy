/** The generated tree `numa<BinarySearchTree,N>` of Output/Exprs/include/BinarySearch.hpp
    over the generated nodes `numa<BinaryNode,N>` of Output/Exprs/include/BinaryNode.hpp: a
    class of its own, whose members are cells and whose nodes all come from NUMA node N. */
module NumaBinarySearchTrees {
  import opened SearchTrees
  import opened TreePaths
  import opened TreeHeaps
  import opened TreeHistories
  import opened NumaCells
  import Original = BinarySearchTrees

  /** `numa<BinaryNode,N>`: `operator new` takes its memory from NUMA node N, and the three
      members are cells. `setData` assigns its parameter to itself here as well. */
  class NumaBinaryNode {
    const home: nat
    const data: Cell<int>
    var leftChild: Cell<NumaBinaryNode?>
    var rightChild: Cell<NumaBinaryNode?>

    constructor (node: nat, data: int)
      ensures home == node && GetData() == data
      ensures GetLeftChild() == null && GetRightChild() == null
    {
      home := node;
      this.data := Cell(data);
      leftChild, rightChild := Cell(null), Cell(null);
    }

    function GetData(): int {
      data.Load()
    }

    function GetLeftChild(): NumaBinaryNode?
      reads this
    {
      leftChild.Load()
    }

    function GetRightChild(): NumaBinaryNode?
      reads this
    {
      rightChild.Load()
    }
  }

  ghost function Ptr(n: NumaBinaryNode?): Option<NumaBinaryNode> {
    if n == null then None else var x: NumaBinaryNode := n; Some(x)
  }

  ghost function ItemOf(x: NumaBinaryNode): Item<NumaBinaryNode>
    reads x
  {
    Item(x.GetData(), Ptr(x.GetLeftChild()), Ptr(x.GetRightChild()))
  }

  ghost function HeapOf(s: set<NumaBinaryNode>): (h: Heap<NumaBinaryNode>)
    reads s
    ensures h.Keys == s && forall x :: x in s ==> h[x] == ItemOf(x)
  {
    map x | x in s :: ItemOf(x)
  }

  /** In the current heap, `n` heads the shape `sh`. */
  ghost predicate Heads(n: NumaBinaryNode?, sh: Shape<NumaBinaryNode>)
    reads Nodes(sh)
  {
    Linked(HeapOf(Nodes(sh)), Ptr(n), sh)
  }

  lemma Split(n: NumaBinaryNode?, sh: Shape<NumaBinaryNode>)
    requires Heads(n, sh)
    ensures n == null <==> sh.Nil?
    ensures n != null ==> sh.node == n && sh.key == n.GetData()
                          && Heads(n.GetLeftChild(), sh.left) && Heads(n.GetRightChild(), sh.right)
  {
    if n != null {
      LinkedFrame(HeapOf(Nodes(sh)), HeapOf(Nodes(sh.left)), Ptr(n.GetLeftChild()), sh.left);
      LinkedFrame(HeapOf(Nodes(sh)), HeapOf(Nodes(sh.right)), Ptr(n.GetRightChild()), sh.right);
    }
  }

  lemma Join(l: Shape<NumaBinaryNode>, n: NumaBinaryNode, r: Shape<NumaBinaryNode>)
    requires Heads(n.GetLeftChild(), l) && Heads(n.GetRightChild(), r)
    ensures Heads(n, At(l, n, n.GetData(), r))
  {
    var sh := At(l, n, n.GetData(), r);
    LinkedFrame(HeapOf(Nodes(l)), HeapOf(Nodes(sh)), Ptr(n.GetLeftChild()), l);
    LinkedFrame(HeapOf(Nodes(r)), HeapOf(Nodes(sh)), Ptr(n.GetRightChild()), r);
  }

  class NumaBinarySearchTree {
    /** The template argument N. */
    const numaNode: nat
    var root: Cell<NumaBinaryNode?>
    ghost var shape: Shape<NumaBinaryNode>
    ghost var repr: set<NumaBinaryNode>

    ghost predicate Valid()
      reads this, repr
    {
      && repr == Nodes(shape) && Distinct(shape) && Heads(root.Load(), shape)
      && Ordered(Contents())
      && (forall n :: n in repr ==> n.home == numaNode)
    }

    ghost function Contents(): Tree
      reads this
    {
      Value(shape)
    }

    /** The generated constructor has an empty body: `root` is what its cell's default
        constructor stores. */
    constructor (numaNode: nat)
      ensures Valid() && Contents() == Leaf && repr == {} && this.numaNode == numaNode
    {
      this.numaNode := numaNode;
      root := Zeroed(null);
      shape, repr := Nil, {};
    }

    method Insert(data: int) returns (level: nat)
      requires Valid()
      modifies this, repr
      ensures Valid() && fresh(repr - old(repr))
      ensures Contents() == SearchTrees.Insert(old(Contents()), data)
      ensures level == Level(old(Contents()), data) && SearchTakes(old(Contents()), data, level)
    {
      LevelIsTaken(Contents(), data);
      ghost var h := HeapOf(repr);
      var leaf := new NumaBinaryNode(numaNode, data);
      if root.Load() == null {
        root := root.Store(leaf);
        shape, repr := At(Nil, leaf, data, Nil), {leaf};
        return 0;
      }
      var current := root.Load();
      var parent: NumaBinaryNode? := null;
      ghost var cur := shape;
      level := 0;
      while current != null
        invariant Linked(h, Ptr(current), cur) && Nodes(cur) <= Nodes(shape)
        invariant level + Level(Value(cur), data) == Level(Value(shape), data)
        invariant Found(cur, data) == Found(shape, data)
        invariant current != null ==> LastShape(cur, data) == LastShape(shape, data)
        invariant current == null ==> parent == LastShape(shape, data).node
        decreases cur
      {
        parent := current;
        if data < current.GetData() {
          current := current.GetLeftChild();
          level := level + 1;
          cur := cur.left;
        } else if data > current.GetData() {
          current := current.GetRightChild();
          level := level + 1;
          cur := cur.right;
        } else {
          FoundMeansUnchanged(shape, data);
          return;
        }
      }
      Hang(parent, leaf);
    }

    static method Adopt(parent: NumaBinaryNode, leaf: NumaBinaryNode)
      modifies parent
      ensures ItemOf(parent) == WithLeaf(old(ItemOf(parent)), leaf.GetData(), leaf)
    {
      if leaf.GetData() < parent.GetData() {
        parent.leftChild := parent.leftChild.Store(leaf);
      } else {
        parent.rightChild := parent.rightChild.Store(leaf);
      }
    }

    /** The last statement of `insert`: `leaf` becomes a child of the last node visited. */
    method Hang(parent: NumaBinaryNode, leaf: NumaBinaryNode)
      requires Valid() && shape.At? && !Found(shape, leaf.GetData())
      requires parent == LastShape(shape, leaf.GetData()).node
      requires leaf !in repr && leaf.home == numaNode && leaf.GetLeftChild() == null && leaf.GetRightChild() == null
      modifies this, parent
      ensures Valid() && repr == old(repr) + {leaf}
      ensures Contents() == SearchTrees.Insert(old(Contents()), leaf.GetData())
    {
      ghost var h, sh := HeapOf(repr), shape;
      GraftFacts(sh, leaf.GetData(), leaf);
      InsertOrdered(Value(sh), leaf.GetData());
      shape, repr := Graft(sh, leaf.GetData(), leaf), repr + {leaf};
      assert repr == Nodes(shape);
      Adopt(parent, leaf);
      GraftLinked(h, HeapOf(repr), sh, leaf.GetData(), leaf);
    }

    method Lookup(data: int) returns (level: nat)
      requires Valid()
      ensures level == Level(Contents(), data) && SearchTakes(Contents(), data, level)
    {
      LevelIsTaken(Contents(), data);
      if root.Load() == null {
        return 0;
      }
      var current := root.Load();
      ghost var h, cur := HeapOf(repr), shape;
      level := 0;
      while current != null
        invariant Linked(h, Ptr(current), cur) && Nodes(cur) <= Nodes(shape)
        invariant level + Level(Value(cur), data) == Level(Value(shape), data)
        decreases cur
      {
        if current.GetData() == data {
          return;
        }
        if data < current.GetData() {
          current := current.GetLeftChild();
          level := level + 1;
          cur := cur.left;
        } else {
          current := current.GetRightChild();
          level := level + 1;
          cur := cur.right;
        }
      }
    }

    method GetDepth() returns (depth: nat)
      requires Valid()
      ensures depth == Depth(Contents()) && Longest(Contents(), depth)
    {
      DepthIsLongestPath(Contents());
      depth := GetDepthHelper(root.Load(), shape);
    }

    method GetDepthHelper(node: NumaBinaryNode?, ghost sh: Shape<NumaBinaryNode>) returns (depth: nat)
      requires Valid()
      requires Linked(HeapOf(repr), Ptr(node), sh)
      ensures depth == Depth(Value(sh))
      decreases sh
    {
      if node == null {
        return 0;
      }
      var leftDepth := GetDepthHelper(node.GetLeftChild(), sh.left);
      var rightDepth := GetDepthHelper(node.GetRightChild(), sh.right);
      depth := Max(leftDepth, rightDepth) + 1;
    }

    /** Deletes `key` below `node`. A match with two children is deleted and then written
        through: that is reported as `freed`, and nothing is claimed after it. `Remove` never
        comes there. */
    method DeleteHelper(node: NumaBinaryNode?, key: int, ghost sh: Shape<NumaBinaryNode>)
      returns (result: NumaBinaryNode?, freed: bool, ghost sh': Shape<NumaBinaryNode>)
      requires Distinct(sh) && Heads(node, sh)
      modifies Nodes(sh)
      ensures freed <==> SearchTrees.DeleteHelper(Value(sh), key).FreedAccess?
      ensures !freed ==>
                && Nodes(sh') <= Nodes(sh) && Distinct(sh') && Heads(result, sh')
                && SearchTrees.DeleteHelper(Value(sh), key) == Kept(Value(sh'))
      decreases sh, 1
    {
      Split(node, sh);
      if node == null {
        return null, false, Nil;
      }
      if key < node.GetData() {
        freed, sh' := DeleteInLeft(node, key, sh);
        result := node;
      } else if key > node.GetData() {
        freed, sh' := DeleteInRight(node, key, sh);
        result := node;
      } else if node.GetLeftChild() == null {
        result, freed, sh' := node.GetRightChild(), false, sh.right;
      } else if node.GetRightChild() == null {
        result, freed, sh' := node.GetLeftChild(), false, sh.left;
      } else {
        result, freed, sh' := node, true, sh;
      }
    }

    method SetLeftChild(node: NumaBinaryNode, child: NumaBinaryNode?, ghost l: Shape<NumaBinaryNode>,
                        ghost r: Shape<NumaBinaryNode>)
      requires node !in Nodes(l) + Nodes(r) && Heads(child, l) && Heads(node.GetRightChild(), r)
      modifies node`leftChild
      ensures Heads(node, At(l, node, node.GetData(), r))
    {
      node.leftChild := node.leftChild.Store(child);
      Join(l, node, r);
    }

    method SetRightChild(node: NumaBinaryNode, child: NumaBinaryNode?, ghost l: Shape<NumaBinaryNode>,
                         ghost r: Shape<NumaBinaryNode>)
      requires node !in Nodes(l) + Nodes(r) && Heads(node.GetLeftChild(), l) && Heads(child, r)
      modifies node`rightChild
      ensures Heads(node, At(l, node, node.GetData(), r))
    {
      node.rightChild := node.rightChild.Store(child);
      Join(l, node, r);
    }

    /** Deletes in the left subtree and makes the result the left child. */
    method DeleteInLeft(node: NumaBinaryNode, key: int, ghost sh: Shape<NumaBinaryNode>)
      returns (freed: bool, ghost sh': Shape<NumaBinaryNode>)
      requires sh.At? && Distinct(sh) && Heads(node, sh)
      modifies Nodes(sh)
      ensures freed <==> SearchTrees.DeleteHelper(Value(sh.left), key).FreedAccess?
      ensures !freed ==>
                && Nodes(sh') <= Nodes(sh) && Distinct(sh') && Heads(node, sh')
                && Value(sh') == Node(SearchTrees.DeleteHelper(Value(sh.left), key).tree, node.GetData(),
                                    Value(sh.right))
      decreases sh, 0
    {
      Split(node, sh);
      ghost var l';
      var child: NumaBinaryNode?;
      child, freed, l' := DeleteHelper(node.GetLeftChild(), key, sh.left);
      if freed {
        return true, sh;
      }
      assert HeapOf(Nodes(sh.right)) == old(HeapOf(Nodes(sh.right)));
      SetLeftChild(node, child, l', sh.right);
      sh' := At(l', node, node.GetData(), sh.right);
    }

    /** Deletes in the right subtree and makes the result the right child. */
    method DeleteInRight(node: NumaBinaryNode, key: int, ghost sh: Shape<NumaBinaryNode>)
      returns (freed: bool, ghost sh': Shape<NumaBinaryNode>)
      requires sh.At? && Distinct(sh) && Heads(node, sh)
      modifies Nodes(sh)
      ensures freed <==> SearchTrees.DeleteHelper(Value(sh.right), key).FreedAccess?
      ensures !freed ==>
                && Nodes(sh') <= Nodes(sh) && Distinct(sh') && Heads(node, sh')
                && Value(sh') == Node(Value(sh.left), node.GetData(),
                                    SearchTrees.DeleteHelper(Value(sh.right), key).tree)
      decreases sh, 0
    {
      Split(node, sh);
      ghost var r';
      var child: NumaBinaryNode?;
      child, freed, r' := DeleteHelper(node.GetRightChild(), key, sh.right);
      if freed {
        return true, sh;
      }
      assert HeapOf(Nodes(sh.left)) == old(HeapOf(Nodes(sh.left)));
      SetRightChild(node, child, sh.left, r');
      sh' := At(sh.left, node, node.GetData(), r');
    }

    /** Whatever the key, the tree afterwards is the one before, or empty if the key was at
        the root. */
    method Remove(data: int)
      requires Valid()
      modifies this, repr
      ensures Valid() && repr <= old(repr)
      ensures SearchTrees.Remove(old(Contents()), data) == Kept(Contents())
      ensures Contents() == var t := old(Contents());
                            if t.Node? && t.key == data then Leaf else t
    {
      RemoveExactly(Contents(), data);
      if root.Load() == null {
        return;
      }
      if root.Load().GetData() == data {
        root := root.Store(null);
        shape, repr := Nil, {};
      } else if root.Load().GetData() < data {
        var freed;
        freed, shape := DeleteInLeft(root.Load(), data, shape);
        assert !freed;
        repr := Nodes(shape);
      }
      // The last test of the source repeats this one and cannot hold here.
    }

    method Perform(op: Op) returns (answer: nat)
      requires Valid()
      modifies this, repr
      ensures Valid() && fresh(repr - old(repr))
      ensures Contents() == Effect(old(Contents()), op)
      ensures answer == Answer(old(Contents()), op)
    {
      match op
      case InsertOp(k) => answer := Insert(k);
      case LookupOp(k) => answer := Lookup(k);
      case RemoveOp(k) =>
        Remove(k);
        answer := 0;
      case DepthOp => answer := GetDepth();
    }

    /** Over every operation sequence the answers and the contents are those of the tree
        value. */
    method Run(ops: seq<Op>) returns (answers: seq<nat>)
      requires Valid()
      modifies this, repr
      ensures Valid() && fresh(repr - old(repr))
      ensures Contents() == EffectOf(old(Contents()), ops)
      ensures answers == AnswersTo(old(Contents()), ops)
    {
      answers := [];
      for i := 0 to |ops|
        invariant Valid() && fresh(repr - old(repr))
        invariant Contents() == EffectOf(old(Contents()), ops[..i])
        invariant answers == AnswersTo(old(Contents()), ops[..i])
      {
        OneMore(old(Contents()), ops, i);
        var answer := Perform(ops[i]);
        answers := answers + [answer];
      }
      assert ops[..|ops|] == ops;
    }
  }

  // ---------- Simulation of the original class ----------

  /** Running one tree leaves the other as it is. */
  method RunPlain(plain: Original.BinarySearchTree, placed: NumaBinarySearchTree, ops: seq<Op>)
    returns (answers: seq<nat>)
    requires plain.Valid() && placed.Valid()
    modifies plain, plain.repr
    ensures plain.Valid() && plain.Contents() == EffectOf(old(plain.Contents()), ops)
    ensures answers == AnswersTo(old(plain.Contents()), ops)
    ensures placed.Valid() && placed.Contents() == old(placed.Contents()) && placed.repr == old(placed.repr)
  {
    answers := plain.Run(ops);
  }

  method RunPlaced(plain: Original.BinarySearchTree, placed: NumaBinarySearchTree, ops: seq<Op>)
    returns (answers: seq<nat>)
    requires plain.Valid() && placed.Valid()
    modifies placed, placed.repr
    ensures placed.Valid() && placed.Contents() == EffectOf(old(placed.Contents()), ops)
    ensures answers == AnswersTo(old(placed.Contents()), ops)
    ensures plain.Valid() && plain.Contents() == old(plain.Contents())
  {
    answers := placed.Run(ops);
  }

  /** Driven by the same operations from equal contents, an original tree and one generated
      for NUMA node N give the same answers and keep equal contents, and every node of the
      generated tree is on node N. */
  method RunBoth(plain: Original.BinarySearchTree, placed: NumaBinarySearchTree, ops: seq<Op>)
    returns (answers: seq<nat>, placedAnswers: seq<nat>)
    requires plain.Valid() && placed.Valid() && plain.Contents() == placed.Contents()
    modifies plain, placed, plain.repr, placed.repr
    ensures plain.Valid() && placed.Valid()
    ensures placed.Contents() == plain.Contents() == EffectOf(old(plain.Contents()), ops)
    ensures placedAnswers == answers == AnswersTo(old(plain.Contents()), ops)
    ensures forall n :: n in placed.repr ==> n.home == placed.numaNode
  {
    answers := RunPlain(plain, placed, ops);
    placedAnswers := RunPlaced(plain, placed, ops);
  }
}
