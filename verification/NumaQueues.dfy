/** The generated queue `numa<Queue,N>` of Output/Exprs/include/Queue.hpp: a class of its
    own, whose members are cells and whose nodes all come from NUMA node N. */
module NumaQueues {
  import opened LinkedHeaps
  import opened NumaNodes
  import opened QueueHistories
  import opened NumaCells
  import Original = Queues

  class NumaQueue {
    /** The template argument N. */
    const numaNode: nat
    var front: Cell<NumaNode?>
    var rear: Cell<NumaNode?>
    /** The reachable nodes in link order, their data, and the nodes allocated and not yet
        deleted. */
    ghost var nodes: seq<NumaNode>
    ghost var contents: seq<int>
    ghost var live: set<NumaNode>

    ghost predicate Valid()
      reads this, live
    {
      && Chain(HeapOf(live), nodes, contents) && live == Members(nodes)
      && Ptr(front.Load()) == Get(nodes, 0) && Ptr(rear.Load()) == Get(nodes, |nodes| - 1)
      && forall n :: n in live ==> n.home == numaNode
    }

    constructor (numaNode: nat)
      ensures Valid() && contents == [] && live == {} && this.numaNode == numaNode
    {
      this.numaNode := numaNode;
      front, rear := Zeroed(null).Store(null), Zeroed(null).Store(null);
      nodes, contents, live := [], [], {};
    }

    method Add(initData: int)
      requires Valid()
      modifies this, live
      ensures Valid() && fresh(live - old(live))
      ensures contents == old(contents) + [initData]
    {
      if front.Load() == null {
        var first := new NumaNode(numaNode, initData);
        front := front.Store(first);
        first.link := first.link.Store(rear.Load());
        rear := rear.Store(front.Load());
        nodes, contents, live := [first], [initData], {first};
        return;
      }
      var newNode := new NumaNode(numaNode, initData);
      LinkLast(newNode);
    }

    /** The last statements of `add`, for a queue that is not empty. */
    method LinkLast(newNode: NumaNode)
      requires Valid() && front.Load() != null && newNode !in live && newNode.home == numaNode
      modifies this, live, newNode
      ensures Valid() && live == old(live) + {newNode}
      ensures contents == old(contents) + [newNode.GetData()]
    {
      ghost var h, s, d := HeapOf(live), nodes, contents;
      var last := rear.Load();
      assert s[|s| - 1] in h;
      nodes, contents, live := s + [newNode], d + [newNode.GetData()], live + {newNode};
      last.link := last.link.Store(newNode);
      newNode.link := newNode.link.Store(null);
      rear := rear.Store(newNode);
      Appended(h, HeapOf(live), s, d, newNode, newNode.GetData());
      assert Ptr(front.Load()) == Get(nodes, 0) && Ptr(rear.Load()) == Get(nodes, |nodes| - 1);
    }

    method Del() returns (data: int)
      requires Valid()
      modifies this
      ensures Valid() && live <= old(live)
      ensures old(contents) == [] ==> data == -1 && contents == []
      ensures old(contents) != [] ==> old(contents) == [data] + contents
    {
      if front.Load() == null {
        return -1;
      }
      ghost var h, s, d := HeapOf(live), nodes, contents;
      var temp := front.Load();
      front := front.Store(front.Load().GetLink());
      data := temp.GetData();
      nodes, contents, live := s[1..], d[1..], live - {temp};
      if front.Load() == null {
        rear := rear.Store(null);
      }
      TailChain(h, HeapOf(live), s, d);
    }

    /** The destructor: every node is deleted, once. */
    method Destroy()
      requires Valid()
      modifies this
      ensures front.Load() == null && live == {}
    {
      while front.Load() != null
        invariant Chain(HeapOf(live), nodes, contents) && live == Members(nodes)
        invariant Ptr(front.Load()) == Get(nodes, 0)
        decreases |nodes|
      {
        ghost var h, s, d := HeapOf(live), nodes, contents;
        var temp := front.Load();
        front := front.Store(front.Load().GetLink());
        assert temp in live;
        nodes, contents, live := s[1..], d[1..], live - {temp};
        TailChain(h, HeapOf(live), s, d);
      }
    }

    method Perform(op: Op) returns (answer: int)
      requires Valid()
      modifies this, live
      ensures Valid() && fresh(live - old(live))
      ensures contents == Effect(old(contents), op)
      ensures answer == Answer(old(contents), op)
      ensures front.Load() == null <==> rear.Load() == null
    {
      match op
      case Add(x) =>
        Add(x);
        answer := 0;
      case Del => answer := Del();
    }

    /** Over every operation sequence the answers and the contents are those of the
        sequence operations. */
    method Run(ops: seq<Op>) returns (answers: seq<int>)
      requires Valid()
      modifies this, live
      ensures Valid() && fresh(live - old(live))
      ensures contents == EffectOf(old(contents), ops)
      ensures answers == AnswersTo(old(contents), ops)
    {
      answers := [];
      for i := 0 to |ops|
        invariant Valid() && fresh(live - old(live))
        invariant contents == EffectOf(old(contents), ops[..i])
        invariant answers == AnswersTo(old(contents), ops[..i])
      {
        OneMore(old(contents), ops, i);
        var answer := Perform(ops[i]);
        answers := answers + [answer];
      }
      assert ops[..|ops|] == ops;
    }
  }

  /** Driven by the same operations from equal contents, an original queue and one generated
      for NUMA node N give the same answers and keep equal contents, and every node of the
      generated queue is on node N. */
  method RunBoth(plain: Original.Queue, placed: NumaQueue, ops: seq<Op>)
    returns (answers: seq<int>, placedAnswers: seq<int>)
    requires plain.Valid() && placed.Valid() && plain.contents == placed.contents
    modifies plain, placed, plain.live, placed.live
    ensures plain.Valid() && placed.Valid()
    ensures placed.contents == plain.contents == EffectOf(old(plain.contents), ops)
    ensures placedAnswers == answers == AnswersTo(old(plain.contents), ops)
    ensures forall n :: n in placed.live ==> n.home == placed.numaNode
  {
    answers := plain.Run(ops);
    placedAnswers := placed.Run(ops);
  }
}
