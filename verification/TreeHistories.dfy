/** Sequences of operations on a search tree, and what they do to its value. */
module TreeHistories {
  import opened SearchTrees

  datatype Op = InsertOp(key: int) | LookupOp(key: int) | RemoveOp(key: int) | DepthOp

  ghost function Effect(t: Tree, op: Op): Tree {
    match op
    case InsertOp(k) => Insert(t, k)
    case RemoveOp(k) => if t.Node? && t.key == k then Leaf else t
    case _ => t
  }

  /** What an operation returns; `remove` returns nothing, written 0. */
  ghost function Answer(t: Tree, op: Op): nat {
    match op
    case InsertOp(k) => Level(t, k)
    case LookupOp(k) => Level(t, k)
    case RemoveOp(_) => 0
    case DepthOp => Depth(t)
  }

  ghost function EffectOf(t: Tree, ops: seq<Op>): Tree {
    if ops == [] then t else Effect(EffectOf(t, ops[..|ops| - 1]), ops[|ops| - 1])
  }

  ghost function AnswersTo(t: Tree, ops: seq<Op>): seq<nat> {
    if ops == [] then []
    else AnswersTo(t, ops[..|ops| - 1]) + [Answer(EffectOf(t, ops[..|ops| - 1]), ops[|ops| - 1])]
  }

  lemma OneMore(t: Tree, ops: seq<Op>, n: nat)
    requires n < |ops|
    ensures EffectOf(t, ops[..n + 1]) == Effect(EffectOf(t, ops[..n]), ops[n])
    ensures AnswersTo(t, ops[..n + 1]) == AnswersTo(t, ops[..n]) + [Answer(EffectOf(t, ops[..n]), ops[n])]
  {
    assert ops[..n + 1][..n] == ops[..n];
  }
}
