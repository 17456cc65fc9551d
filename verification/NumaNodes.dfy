/** The generated nodes `numa<Node,N>` of Output/Exprs/include/Node.hpp. */
module NumaNodes {
  import opened LinkedHeaps
  import opened NumaCells

  /** `operator new` takes its memory from NUMA node N. Both members are cells, so the link,
      which `numa(int)` does not mention, starts as null. */
  class NumaNode {
    const home: nat
    const data: Cell<int>
    var link: Cell<NumaNode?>

    constructor (node: nat, initData: int)
      ensures home == node && GetData() == initData && GetLink() == null
    {
      home := node;
      data := Zeroed(0).Store(initData);
      link := Zeroed(null);
    }

    function GetData(): int {
      data.Load()
    }

    function GetLink(): NumaNode?
      reads this
    {
      link.Load()
    }
  }

  ghost function Ptr(n: NumaNode?): Option<NumaNode> {
    if n == null then None else var x: NumaNode := n; Some(x)
  }

  ghost function HeapOf(s: set<NumaNode>): (h: Heap<NumaNode>)
    reads s
    ensures h.Keys == s && forall x {:trigger h[x]} :: x in s ==> h[x] == Item(x.data.Load(), Ptr(x.link.Load()))
  {
    map x | x in s :: Item(x.data.Load(), Ptr(x.link.Load()))
  }

  /** The statements, repeated in the list's code, that link a new node behind `prev`, the
      node in front of position `i` of the chain `s`. */
  method NewBehind(home: nat, prev: NumaNode, newData: int, ghost live: set<NumaNode>,
                   ghost s: seq<NumaNode>, ghost d: seq<int>, ghost i: nat)
    returns (newNode: NumaNode)
    requires Chain(HeapOf(live), s, d) && live == Members(s) && 0 < i <= |s| && prev == s[i - 1]
    modifies prev
    ensures fresh(newNode) && newNode.home == home && newNode.GetData() == newData
    ensures Chain(HeapOf(live + {newNode}), s[..i] + [newNode] + s[i..], d[..i] + [newData] + d[i..])
    ensures Members(s[..i] + [newNode] + s[i..]) == live + {newNode}
    ensures Get(s[..i] + [newNode] + s[i..], 0) == Get(s, 0)
  {
    ghost var h := HeapOf(live);
    assert s[i - 1] in h;
    newNode := new NumaNode(home, newData);
    newNode.link := newNode.link.Store(prev.GetLink());
    prev.link := prev.link.Store(newNode);
    Inserted(h, HeapOf(live + {newNode}), s, d, i, newNode, newData);
  }

  /** Makes `prev`, the last node but one, the last node of the chain. */
  method CutBehind(prev: NumaNode, ghost live: set<NumaNode>, ghost s: seq<NumaNode>, ghost d: seq<int>)
    requires Chain(HeapOf(live), s, d) && live == Members(s) && |s| >= 2 && prev == s[|s| - 2]
    modifies prev
    ensures var n := |s| - 1;
            && Chain(HeapOf(live - {s[n]}), s[..n], d[..n]) && Members(s[..n]) == live - {s[n]}
            && d == d[..n] + [d[n]] && Get(s[..n], 0) == Get(s, 0)
            && d[n] == s[n].GetData()
  {
    ghost var h, n := HeapOf(live), |s| - 1;
    assert s[n] in h && s[n - 1] in h && Apart(s, n - 1, n);
    prev.link := prev.link.Store(null);
    FrontChain(h, HeapOf(live - {s[n]}), s, d);
  }
}
