/** The nodes of Exprs/include/Node.hpp. */
module LinkedNodes {
  import opened LinkedHeaps

  class Node {
    /** Constant: neither the queue nor the list calls `setData`. */
    const data: int
    /** Not initialised by `Node(int)`; the structures set it after the allocation. */
    var link: Node?

    constructor (initData: int)
      ensures data == initData
    {
      data := initData;
    }
  }

  ghost function Ptr(n: Node?): Option<Node> {
    if n == null then None else var x: Node := n; Some(x)
  }

  ghost function HeapOf(s: set<Node>): (h: Heap<Node>)
    reads s
    ensures h.Keys == s && forall x {:trigger h[x]} :: x in s ==> h[x] == Item(x.data, Ptr(x.link))
  {
    map x | x in s :: Item(x.data, Ptr(x.link))
  }

  /** The statements, repeated in the list's code, that link a new node behind `prev`, the
      node in front of position `i` of the chain `s`. */
  method NewBehind(prev: Node, newData: int, ghost live: set<Node>, ghost s: seq<Node>, ghost d: seq<int>,
                   ghost i: nat)
    returns (newNode: Node)
    requires Chain(HeapOf(live), s, d) && live == Members(s) && 0 < i <= |s| && prev == s[i - 1]
    modifies prev
    ensures fresh(newNode) && newNode.data == newData
    ensures Chain(HeapOf(live + {newNode}), s[..i] + [newNode] + s[i..], d[..i] + [newData] + d[i..])
    ensures Members(s[..i] + [newNode] + s[i..]) == live + {newNode}
    ensures Get(s[..i] + [newNode] + s[i..], 0) == Get(s, 0)
  {
    ghost var h := HeapOf(live);
    assert s[i - 1] in h;
    newNode := new Node(newData);
    newNode.link := prev.link;
    prev.link := newNode;
    Inserted(h, HeapOf(live + {newNode}), s, d, i, newNode, newData);
  }

  /** Makes `prev`, the last node but one, the last node of the chain. */
  method CutBehind(prev: Node, ghost live: set<Node>, ghost s: seq<Node>, ghost d: seq<int>)
    requires Chain(HeapOf(live), s, d) && live == Members(s) && |s| >= 2 && prev == s[|s| - 2]
    modifies prev
    ensures var n := |s| - 1;
            && Chain(HeapOf(live - {s[n]}), s[..n], d[..n]) && Members(s[..n]) == live - {s[n]}
            && d == d[..n] + [d[n]] && Get(s[..n], 0) == Get(s, 0)
            && d[n] == s[n].data
  {
    ghost var h, n := HeapOf(live), |s| - 1;
    assert s[n] in h && s[n - 1] in h && Apart(s, n - 1, n);
    prev.link := null;
    FrontChain(h, HeapOf(live - {s[n]}), s, d);
  }
}
