/** The pointer tree of Exprs/include/BinarySearch.hpp over the nodes of
    Exprs/include/BinaryNode.hpp. */
module BinarySearchTrees {
  import opened SearchTrees
  import opened TreePaths
  import opened TreeHeaps
  import opened TreeHistories

  class BinaryNode {
    /** Constant: `setData` assigns its parameter to itself. */
    const data: int
    var leftChild: BinaryNode?
    var rightChild: BinaryNode?

    constructor (data: int)
      ensures this.data == data && leftChild == null && rightChild == null
    {
      this.data := data;
      leftChild, rightChild := null, null;
    }
  }

  ghost function Ptr(n: BinaryNode?): Option<BinaryNode> {
    if n == null then None else var x: BinaryNode := n; Some(x)
  }

  ghost function ItemOf(x: BinaryNode): Item<BinaryNode>
    reads x
  {
    Item(x.data, Ptr(x.leftChild), Ptr(x.rightChild))
  }

  ghost function HeapOf(s: set<BinaryNode>): (h: Heap<BinaryNode>)
    reads s
    ensures h.Keys == s && forall x :: x in s ==> h[x] == ItemOf(x)
  {
    map x | x in s :: ItemOf(x)
  }

  /** In the current heap, `n` heads the shape `sh`. */
  ghost predicate Heads(n: BinaryNode?, sh: Shape<BinaryNode>)
    reads Nodes(sh)
  {
    Linked(HeapOf(Nodes(sh)), Ptr(n), sh)
  }

  lemma Split(n: BinaryNode?, sh: Shape<BinaryNode>)
    requires Heads(n, sh)
    ensures n == null <==> sh.Nil?
    ensures n != null ==> sh.node == n && sh.key == n.data
                          && Heads(n.leftChild, sh.left) && Heads(n.rightChild, sh.right)
  {
    if n != null {
      LinkedFrame(HeapOf(Nodes(sh)), HeapOf(Nodes(sh.left)), Ptr(n.leftChild), sh.left);
      LinkedFrame(HeapOf(Nodes(sh)), HeapOf(Nodes(sh.right)), Ptr(n.rightChild), sh.right);
    }
  }

  lemma Join(l: Shape<BinaryNode>, n: BinaryNode, r: Shape<BinaryNode>)
    requires Heads(n.leftChild, l) && Heads(n.rightChild, r)
    ensures Heads(n, At(l, n, n.data, r))
  {
    var sh := At(l, n, n.data, r);
    LinkedFrame(HeapOf(Nodes(l)), HeapOf(Nodes(sh)), Ptr(n.leftChild), l);
    LinkedFrame(HeapOf(Nodes(r)), HeapOf(Nodes(sh)), Ptr(n.rightChild), r);
  }

  class BinarySearchTree {
    var root: BinaryNode?
    ghost var shape: Shape<BinaryNode>
    ghost var repr: set<BinaryNode>

    ghost predicate Valid()
      reads this, repr
    {
      && repr == Nodes(shape) && Distinct(shape) && Heads(root, shape)
      && Ordered(Contents())
    }

    ghost function Contents(): Tree
      reads this
    {
      Value(shape)
    }

    constructor ()
      ensures Valid() && Contents() == Leaf && repr == {}
    {
      root := null;
      shape, repr := Nil, {};
    }

    method Insert(data: int) returns (level: nat)
      requires Valid()
      modifies this, repr
      ensures Valid() && fresh(repr - old(repr))
      ensures Contents() == SearchTrees.Insert(old(Contents()), data)
      ensures level == Level(old(Contents()), data) && SearchTakes(old(Contents()), data, level)
    {
      LevelIsTaken(Contents(), data);
      ghost var h := HeapOf(repr);
      var leaf := new BinaryNode(data);
      if root == null {
        root := leaf;
        shape, repr := At(Nil, leaf, data, Nil), {leaf};
        return 0;
      }
      var current := root;
      var parent: BinaryNode? := null;
      ghost var cur := shape;
      level := 0;
      while current != null
        invariant Linked(h, Ptr(current), cur) && Nodes(cur) <= Nodes(shape)
        invariant level + Level(Value(cur), data) == Level(Value(shape), data)
        invariant Found(cur, data) == Found(shape, data)
        invariant current != null ==> LastShape(cur, data) == LastShape(shape, data)
        invariant current == null ==> parent == LastShape(shape, data).node
        decreases cur
      {
        parent := current;
        if data < current.data {
          current := current.leftChild;
          level := level + 1;
          cur := cur.left;
        } else if data > current.data {
          current := current.rightChild;
          level := level + 1;
          cur := cur.right;
        } else {
          FoundMeansUnchanged(shape, data);
          return;
        }
      }
      Hang(parent, leaf);
    }

    static method Adopt(parent: BinaryNode, leaf: BinaryNode)
      modifies parent
      ensures ItemOf(parent) == WithLeaf(old(ItemOf(parent)), leaf.data, leaf)
    {
      if leaf.data < parent.data {
        parent.leftChild := leaf;
      } else {
        parent.rightChild := leaf;
      }
    }

    /** The last statement of `insert`: `leaf` becomes a child of the last node visited. */
    method Hang(parent: BinaryNode, leaf: BinaryNode)
      requires Valid() && shape.At? && !Found(shape, leaf.data)
      requires parent == LastShape(shape, leaf.data).node
      requires leaf !in repr && leaf.leftChild == null && leaf.rightChild == null
      modifies this, parent
      ensures Valid() && repr == old(repr) + {leaf}
      ensures Contents() == SearchTrees.Insert(old(Contents()), leaf.data)
    {
      ghost var h, sh := HeapOf(repr), shape;
      GraftFacts(sh, leaf.data, leaf);
      InsertOrdered(Value(sh), leaf.data);
      shape, repr := Graft(sh, leaf.data, leaf), repr + {leaf};
      assert repr == Nodes(shape);
      Adopt(parent, leaf);
      GraftLinked(h, HeapOf(repr), sh, leaf.data, leaf);
    }

    method Lookup(data: int) returns (level: nat)
      requires Valid()
      ensures level == Level(Contents(), data) && SearchTakes(Contents(), data, level)
    {
      LevelIsTaken(Contents(), data);
      if root == null {
        return 0;
      }
      var current := root;
      ghost var h, cur := HeapOf(repr), shape;
      level := 0;
      while current != null
        invariant Linked(h, Ptr(current), cur) && Nodes(cur) <= Nodes(shape)
        invariant level + Level(Value(cur), data) == Level(Value(shape), data)
        decreases cur
      {
        if current.data == data {
          return;
        }
        if data < current.data {
          current := current.leftChild;
          level := level + 1;
          cur := cur.left;
        } else {
          current := current.rightChild;
          level := level + 1;
          cur := cur.right;
        }
      }
    }

    method GetDepth() returns (depth: nat)
      requires Valid()
      ensures depth == Depth(Contents()) && Longest(Contents(), depth)
    {
      DepthIsLongestPath(Contents());
      depth := GetDepthHelper(root, shape);
    }

    method GetDepthHelper(node: BinaryNode?, ghost sh: Shape<BinaryNode>) returns (depth: nat)
      requires Valid()
      requires Linked(HeapOf(repr), Ptr(node), sh)
      ensures depth == Depth(Value(sh))
      decreases sh
    {
      if node == null {
        return 0;
      }
      var leftDepth := GetDepthHelper(node.leftChild, sh.left);
      var rightDepth := GetDepthHelper(node.rightChild, sh.right);
      depth := Max(leftDepth, rightDepth) + 1;
    }

    /** Deletes `key` below `node`. A match with two children is deleted and then written
        through: that is reported as `freed`, and nothing is claimed after it. `Remove` never
        comes there. */
    method DeleteHelper(node: BinaryNode?, key: int, ghost sh: Shape<BinaryNode>)
      returns (result: BinaryNode?, freed: bool, ghost sh': Shape<BinaryNode>)
      requires Distinct(sh) && Heads(node, sh)
      modifies Nodes(sh)
      ensures freed <==> SearchTrees.DeleteHelper(Value(sh), key).FreedAccess?
      ensures !freed ==>
                && Nodes(sh') <= Nodes(sh) && Distinct(sh') && Heads(result, sh')
                && SearchTrees.DeleteHelper(Value(sh), key) == Kept(Value(sh'))
      decreases sh, 1
    {
      Split(node, sh);
      if node == null {
        return null, false, Nil;
      }
      if key < node.data {
        freed, sh' := DeleteInLeft(node, key, sh);
        result := node;
      } else if key > node.data {
        freed, sh' := DeleteInRight(node, key, sh);
        result := node;
      } else if node.leftChild == null {
        result, freed, sh' := node.rightChild, false, sh.right;
      } else if node.rightChild == null {
        result, freed, sh' := node.leftChild, false, sh.left;
      } else {
        result, freed, sh' := node, true, sh;
      }
    }

    method SetLeftChild(node: BinaryNode, child: BinaryNode?, ghost l: Shape<BinaryNode>,
                        ghost r: Shape<BinaryNode>)
      requires node !in Nodes(l) + Nodes(r) && Heads(child, l) && Heads(node.rightChild, r)
      modifies node`leftChild
      ensures Heads(node, At(l, node, node.data, r))
    {
      node.leftChild := child;
      Join(l, node, r);
    }

    method SetRightChild(node: BinaryNode, child: BinaryNode?, ghost l: Shape<BinaryNode>,
                         ghost r: Shape<BinaryNode>)
      requires node !in Nodes(l) + Nodes(r) && Heads(node.leftChild, l) && Heads(child, r)
      modifies node`rightChild
      ensures Heads(node, At(l, node, node.data, r))
    {
      node.rightChild := child;
      Join(l, node, r);
    }

    /** Deletes in the left subtree and makes the result the left child. */
    method DeleteInLeft(node: BinaryNode, key: int, ghost sh: Shape<BinaryNode>)
      returns (freed: bool, ghost sh': Shape<BinaryNode>)
      requires sh.At? && Distinct(sh) && Heads(node, sh)
      modifies Nodes(sh)
      ensures freed <==> SearchTrees.DeleteHelper(Value(sh.left), key).FreedAccess?
      ensures !freed ==>
                && Nodes(sh') <= Nodes(sh) && Distinct(sh') && Heads(node, sh')
                && Value(sh') == Node(SearchTrees.DeleteHelper(Value(sh.left), key).tree, node.data,
                                    Value(sh.right))
      decreases sh, 0
    {
      Split(node, sh);
      ghost var l';
      var child: BinaryNode?;
      child, freed, l' := DeleteHelper(node.leftChild, key, sh.left);
      if freed {
        return true, sh;
      }
      assert HeapOf(Nodes(sh.right)) == old(HeapOf(Nodes(sh.right)));
      SetLeftChild(node, child, l', sh.right);
      sh' := At(l', node, node.data, sh.right);
    }

    /** Deletes in the right subtree and makes the result the right child. */
    method DeleteInRight(node: BinaryNode, key: int, ghost sh: Shape<BinaryNode>)
      returns (freed: bool, ghost sh': Shape<BinaryNode>)
      requires sh.At? && Distinct(sh) && Heads(node, sh)
      modifies Nodes(sh)
      ensures freed <==> SearchTrees.DeleteHelper(Value(sh.right), key).FreedAccess?
      ensures !freed ==>
                && Nodes(sh') <= Nodes(sh) && Distinct(sh') && Heads(node, sh')
                && Value(sh') == Node(Value(sh.left), node.data,
                                    SearchTrees.DeleteHelper(Value(sh.right), key).tree)
      decreases sh, 0
    {
      Split(node, sh);
      ghost var r';
      var child: BinaryNode?;
      child, freed, r' := DeleteHelper(node.rightChild, key, sh.right);
      if freed {
        return true, sh;
      }
      assert HeapOf(Nodes(sh.left)) == old(HeapOf(Nodes(sh.left)));
      SetRightChild(node, child, sh.left, r');
      sh' := At(sh.left, node, node.data, r');
    }

    /** Whatever the key, the tree afterwards is the one before, or empty if the key was at
        the root. */
    method Remove(data: int)
      requires Valid()
      modifies this, repr
      ensures Valid() && repr <= old(repr)
      ensures SearchTrees.Remove(old(Contents()), data) == Kept(Contents())
      ensures Contents() == var t := old(Contents());
                            if t.Node? && t.key == data then Leaf else t
    {
      RemoveExactly(Contents(), data);
      if root == null {
        return;
      }
      if root.data == data {
        root := null;
        shape, repr := Nil, {};
      } else if root.data < data {
        var freed;
        freed, shape := DeleteInLeft(root, data, shape);
        assert !freed;
        repr := Nodes(shape);
      }
      // The last test of the source repeats this one and cannot hold here.
    }

    method Perform(op: Op) returns (answer: nat)
      requires Valid()
      modifies this, repr
      ensures Valid() && fresh(repr - old(repr))
      ensures Contents() == Effect(old(Contents()), op)
      ensures answer == Answer(old(Contents()), op)
    {
      match op
      case InsertOp(k) => answer := Insert(k);
      case LookupOp(k) => answer := Lookup(k);
      case RemoveOp(k) =>
        Remove(k);
        answer := 0;
      case DepthOp => answer := GetDepth();
    }

    /** Over every operation sequence the answers and the contents are those of the tree
        value. */
    method Run(ops: seq<Op>) returns (answers: seq<nat>)
      requires Valid()
      modifies this, repr
      ensures Valid() && fresh(repr - old(repr))
      ensures Contents() == EffectOf(old(Contents()), ops)
      ensures answers == AnswersTo(old(Contents()), ops)
    {
      answers := [];
      for i := 0 to |ops|
        invariant Valid() && fresh(repr - old(repr))
        invariant Contents() == EffectOf(old(Contents()), ops[..i])
        invariant answers == AnswersTo(old(Contents()), ops[..i])
      {
        OneMore(old(Contents()), ops, i);
        var answer := Perform(ops[i]);
        answers := answers + [answer];
      }
      assert ops[..|ops|] == ops;
    }
  }
}
