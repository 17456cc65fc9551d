/** The list of Exprs/include/LinkedList.hpp. Two operations can write through a null
    pointer; they report `Crashed`. */
module LinkedLists {
  import opened LinkedHeaps
  import opened LinkedNodes
  import opened ListHistories

  class LinkedList {
    var head: Node?
    var length: int
    /** Set to null by the constructor and never used again. */
    var tail: Node?
    /** The reachable nodes in link order, their data, and the nodes allocated and not yet
        deleted. */
    ghost var nodes: seq<Node>
    ghost var contents: seq<int>
    ghost var live: set<Node>

    ghost predicate Valid()
      reads this, live
    {
      && Chain(HeapOf(live), nodes, contents) && live == Members(nodes)
      && Ptr(head) == Get(nodes, 0) && length == |nodes|
    }

    constructor ()
      ensures Valid() && contents == [] && live == {}
    {
      head, tail, length := null, null, 0;
      nodes, contents, live := [], [], {};
    }

    /** The statements, repeated in the source, that make a new node the head. */
    method PutFirst(newData: int)
      requires Valid()
      modifies this
      ensures Valid() && fresh(live - old(live))
      ensures contents == [newData] + old(contents)
    {
      var newNode := new Node(newData);
      ghost var h, s, d := HeapOf(live), nodes, contents;
      nodes, contents, live := [newNode] + s, [newData] + d, live + {newNode};
      newNode.link := head;
      head := newNode;
      length := length + 1;
      Prepended(h, HeapOf(live), s, d, newNode, newData);
    }

    /** A new node behind `prev`, the node in front of position `i`. */
    method PutAfter(prev: Node, newData: int, ghost i: nat)
      requires Valid() && 0 < i <= |nodes| && prev == nodes[i - 1]
      modifies this, prev
      ensures Valid() && fresh(live - old(live))
      ensures contents == old(contents)[..i] + [newData] + old(contents)[i..]
    {
      var newNode := NewBehind(prev, newData, live, nodes, contents, i);
      nodes, live := nodes[..i] + [newNode] + nodes[i..], live + {newNode};
      contents := contents[..i] + [newData] + contents[i..];
      length := length + 1;
    }

    /** The statements of `removeTail` at the last node, `current`. */
    method DropLast(prev: Node, current: Node)
      requires Valid() && |nodes| >= 2 && prev == nodes[|nodes| - 2] && current == nodes[|nodes| - 1]
      modifies this, prev
      ensures Valid() && live == old(live) - {current}
      ensures old(contents) == contents + [current.data]
    {
      CutBehind(prev, live, nodes, contents);
      ghost var n := |nodes| - 1;
      ghost var h := HeapOf(live - {current});
      nodes, contents, live := nodes[..n], contents[..n], live - {current};
      length := length - 1;
      assert HeapOf(live) == h && Ptr(head) == Get(nodes, 0);
    }

    method RemoveHead() returns (data: int)
      requires Valid()
      modifies this
      ensures Valid() && live <= old(live)
      ensures old(contents) == [] ==> data == -1 && contents == []
      ensures old(contents) != [] ==> old(contents) == [data] + contents
    {
      if head == null {
        return -1;
      }
      ghost var h, s, d := HeapOf(live), nodes, contents;
      var temp := head;
      head := head.link;
      data := temp.data;
      nodes, contents, live := s[1..], d[1..], live - {temp};
      length := length - 1;
      TailChain(h, HeapOf(live), s, d);
    }

    method Append(data: int)
      requires Valid()
      modifies this, live
      ensures Valid() && fresh(live - old(live))
      ensures contents == old(contents) + [data]
    {
      if head == null {
        PutFirst(data);
        return;
      }
      var temp := head;
      ghost var i := 0;
      while temp.link != null
        invariant i < |nodes| && Ptr(temp) == Get(nodes, i)
        decreases |nodes| - i
      {
        assert nodes[i] in HeapOf(live);
        temp, i := temp.link, i + 1;
      }
      assert nodes[i] in HeapOf(live);
      PutAfter(temp, data, |nodes|);
    }

    method Prepend(data: int)
      requires Valid()
      modifies this
      ensures Valid() && fresh(live - old(live))
      ensures contents == [data] + old(contents)
    {
      PutFirst(data);
    }

    /** On the empty list the datum is inserted although nothing precedes it; on a list that
        does not hold `existData` nothing happens. */
    method InsertAfter(existData: int, newData: int)
      requires Valid()
      modifies this, live
      ensures Valid() && fresh(live - old(live))
      ensures contents == var s := old(contents);
                            var i := IndexOf(s, existData);
                            if s == [] then [newData]
                            else if i == |s| then s
                            else s[..i + 1] + [newData] + s[i + 1..]
    {
      if head == null {
        PutFirst(newData);
        return;
      }
      var temp := head;
      ghost var i := 0;
      while temp != null
        invariant i <= |nodes| && Ptr(temp) == Get(nodes, i)
        invariant existData !in contents[..i]
        decreases |nodes| - i
      {
        assert nodes[i] in HeapOf(live);
        if temp.data == existData {
          assert i == IndexOf(contents, existData);
          PutAfter(temp, newData, i + 1);
          return;
        }
        assert contents[..i + 1] == contents[..i] + [temp.data];
        temp, i := temp.link, i + 1;
      }
      assert contents[..i] == contents;
      assert IndexOf(contents, existData) == |contents|;
    }

    /** Works for lists of two or more; a list of one crashes, because the node before the
        last is null. */
    method RemoveTail() returns (r: Outcome)
      requires Valid()
      modifies this, live
      ensures Valid() && live <= old(live)
      ensures r.Crashed? <==> |old(contents)| == 1
      ensures old(contents) == [] ==> r == Done(-1)
      ensures |old(contents)| < 2 ==> contents == old(contents)
      ensures |old(contents)| >= 2 ==> r.Done? && old(contents) == contents + [r.value]
    {
      if head == null {
        return Done(-1);
      }
      var current := head;
      var prev: Node? := null;
      ghost var i := 0;
      while current.link != null
        invariant i < |nodes| && Ptr(current) == Get(nodes, i) && Ptr(prev) == Get(nodes, i - 1)
        decreases |nodes| - i
      {
        assert nodes[i] in HeapOf(live);
        prev, current, i := current, current.link, i + 1;
      }
      assert nodes[i] in HeapOf(live);
      if prev == null {
        return Crashed;
      }
      DropLast(prev, current);
      r := Done(current.data);
    }

    /** Inserts in front of position `index` for 1 <= index < length. Position 0 of a
        non-empty list crashes; a negative index does nothing, except that on an empty list
        it inserts. */
    method InsertAtIndex(index: int, newData: int) returns (r: Outcome)
      requires Valid()
      modifies this, live
      ensures Valid() && fresh(live - old(live))
      ensures r == if index == 0 && old(contents) != [] then Crashed else Done(0)
      ensures contents == var s := old(contents);
                            if s == [] && index < 0 then [newData]
                            else if 1 <= index < |s| then s[..index] + [newData] + s[index..]
                            else s
    {
      r := Done(0);
      if index + 1 > length {
        return;
      }
      if head == null {
        PutFirst(newData);
        return;
      }
      var temp := head;
      var prev: Node? := null;
      var i := 0;
      while temp != null
        invariant 0 <= i <= |nodes| && Ptr(temp) == Get(nodes, i) && Ptr(prev) == Get(nodes, i - 1)
        invariant 0 <= index ==> i <= index
        decreases |nodes| - i
      {
        if i == index {
          if prev == null {
            return Crashed;
          }
          PutAfter(prev, newData, i);
          return;
        }
        assert nodes[i] in HeapOf(live);
        prev, temp, i := temp, temp.link, i + 1;
      }
    }

    method LookUp(data: int) returns (found: bool)
      requires Valid()
      ensures found <==> data in contents
    {
      var temp := head;
      ghost var i := 0;
      while temp != null
        invariant i <= |nodes| && Ptr(temp) == Get(nodes, i)
        invariant data !in contents[..i]
        decreases |nodes| - i
      {
        assert nodes[i] in HeapOf(live);
        if temp.data == data {
          assert contents[i] == data;
          return true;
        }
        assert contents[..i + 1] == contents[..i] + [temp.data];
        temp, i := temp.link, i + 1;
      }
      assert contents[..i] == contents;
      return false;
    }

    /** The destructor: every node is deleted, once, and the length ends at 0. */
    method Destroy()
      requires Valid()
      modifies this
      ensures head == null && live == {} && length == 0
    {
      var temp := head;
      while temp != null
        invariant Chain(HeapOf(live), nodes, contents) && live == Members(nodes)
        invariant length == |nodes| && temp == head && Ptr(head) == Get(nodes, 0)
        decreases |nodes|
      {
        ghost var h, s, d := HeapOf(live), nodes, contents;
        head := head.link;
        assert temp in live;
        nodes, contents, live := s[1..], d[1..], live - {temp};
        temp := head;
        length := length - 1;
        TailChain(h, HeapOf(live), s, d);
      }
    }

    method Perform(op: Op) returns (r: Outcome)
      requires Valid()
      modifies this, live
      ensures Valid() && fresh(live - old(live))
      ensures r == Answer(old(contents), op)
      ensures contents == Effect(old(contents), op)
    {
      r := Done(0);
      match op
      case Append(x) => Append(x);
      case Prepend(x) => Prepend(x);
      case InsertAfter(x, y) => InsertAfter(x, y);
      case InsertAtIndex(i, y) => r := InsertAtIndex(i, y);
      case RemoveHead =>
        var v := RemoveHead();
        r := Done(v);
      case RemoveTail => r := RemoveTail();
      case LookUp(x) =>
        var b := LookUp(x);
        r := Done(if b then 1 else 0);
      case GetLength => r := Done(length);
    }

    /** Over every operation sequence the outcomes and the contents are those of the sequence
        operations. The run stops after its first crash. */
    method Run(ops: seq<Op>) returns (outcomes: seq<Outcome>)
      requires Valid()
      modifies this, live
      ensures Valid() && fresh(live - old(live))
      ensures Stopped(ops, outcomes)
      ensures contents == EffectOf(old(contents), ops[..|outcomes|])
      ensures outcomes == AnswersTo(old(contents), ops[..|outcomes|])
    {
      outcomes := [];
      var n, crashed := 0, false;
      while n < |ops| && !crashed
        invariant Valid() && fresh(live - old(live)) && n == |outcomes| <= |ops|
        invariant contents == EffectOf(old(contents), ops[..n])
        invariant outcomes == AnswersTo(old(contents), ops[..n])
        invariant forall k :: 0 <= k < n - 1 ==> outcomes[k].Done?
        invariant if n == 0 then !crashed else crashed == outcomes[n - 1].Crashed?
        decreases |ops| - n
      {
        OneMore(old(contents), ops, n);
        var outcome := Perform(ops[n]);
        outcomes, crashed, n := outcomes + [outcome], outcome.Crashed?, n + 1;
      }
    }
  }
}
