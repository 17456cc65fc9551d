/** The queue of Exprs/include/Queue.hpp. */
module Queues {
  import opened LinkedHeaps
  import opened LinkedNodes
  import opened QueueHistories

  class Queue {
    var front: Node?
    var rear: Node?
    /** The reachable nodes in link order, their data, and the nodes allocated and not yet
        deleted. */
    ghost var nodes: seq<Node>
    ghost var contents: seq<int>
    ghost var live: set<Node>

    ghost predicate Valid()
      reads this, live
    {
      && Chain(HeapOf(live), nodes, contents) && live == Members(nodes)
      && Ptr(front) == Get(nodes, 0) && Ptr(rear) == Get(nodes, |nodes| - 1)
    }

    constructor ()
      ensures Valid() && contents == [] && live == {}
    {
      front, rear := null, null;
      nodes, contents, live := [], [], {};
    }

    method Add(initData: int)
      requires Valid()
      modifies this, live
      ensures Valid() && fresh(live - old(live))
      ensures contents == old(contents) + [initData]
    {
      if front == null {
        var first := new Node(initData);
        front := first;
        front.link := rear;
        rear := front;
        nodes, contents, live := [front], [initData], {front};
        return;
      }
      var newNode := new Node(initData);
      LinkLast(newNode);
    }

    /** The last statements of `add`, for a queue that is not empty. */
    method LinkLast(newNode: Node)
      requires Valid() && front != null && newNode !in live
      modifies this, live, newNode
      ensures Valid() && live == old(live) + {newNode}
      ensures contents == old(contents) + [newNode.data]
    {
      ghost var h, s, d := HeapOf(live), nodes, contents;
      nodes, contents, live := s + [newNode], d + [newNode.data], live + {newNode};
      rear.link := newNode;
      newNode.link := null;
      rear := newNode;
      Appended(h, HeapOf(live), s, d, newNode, newNode.data);
    }

    method Del() returns (data: int)
      requires Valid()
      modifies this
      ensures Valid() && live <= old(live)
      ensures old(contents) == [] ==> data == -1 && contents == []
      ensures old(contents) != [] ==> old(contents) == [data] + contents
    {
      if front == null {
        return -1;
      }
      ghost var h, s, d := HeapOf(live), nodes, contents;
      var temp := front;
      front := front.link;
      data := temp.data;
      nodes, contents, live := s[1..], d[1..], live - {temp};
      if front == null {
        rear := null;
      }
      TailChain(h, HeapOf(live), s, d);
    }

    /** The destructor: every node is deleted, once. */
    method Destroy()
      requires Valid()
      modifies this
      ensures front == null && live == {}
    {
      while front != null
        invariant Chain(HeapOf(live), nodes, contents) && live == Members(nodes)
        invariant Ptr(front) == Get(nodes, 0)
        decreases |nodes|
      {
        ghost var h, s, d := HeapOf(live), nodes, contents;
        var temp := front;
        front := front.link;
        assert temp in live;
        nodes, contents, live := s[1..], d[1..], live - {temp};
        TailChain(h, HeapOf(live), s, d);
      }
    }

    method Perform(op: Op) returns (answer: int)
      requires Valid()
      modifies this, live
      ensures Valid() && fresh(live - old(live))
      ensures contents == Effect(old(contents), op)
      ensures answer == Answer(old(contents), op)
      ensures front == null <==> rear == null
    {
      match op
      case Add(x) =>
        Add(x);
        answer := 0;
      case Del => answer := Del();
    }

    /** Over every operation sequence the answers and the contents are those of the
        sequence operations. */
    method Run(ops: seq<Op>) returns (answers: seq<int>)
      requires Valid()
      modifies this, live
      ensures Valid() && fresh(live - old(live))
      ensures contents == EffectOf(old(contents), ops)
      ensures answers == AnswersTo(old(contents), ops)
    {
      answers := [];
      for i := 0 to |ops|
        invariant Valid() && fresh(live - old(live))
        invariant contents == EffectOf(old(contents), ops[..i])
        invariant answers == AnswersTo(old(contents), ops[..i])
      {
        OneMore(old(contents), ops, i);
        var answer := Perform(ops[i]);
        answers := answers + [answer];
      }
      assert ops[..|ops|] == ops;
    }
  }
}
