/** Sequences of operations on a queue, and what they do to its contents. */
module QueueHistories {

  datatype Op = Add(data: int) | Del

  ghost function Effect(s: seq<int>, op: Op): seq<int> {
    match op
    case Add(x) => s + [x]
    case Del => if s == [] then [] else s[1..]
  }

  /** What `del` returns; an `add` returns nothing, written 0. */
  ghost function Answer(s: seq<int>, op: Op): int {
    if op.Add? then 0 else if s == [] then -1 else s[0]
  }

  ghost function EffectOf(s: seq<int>, ops: seq<Op>): seq<int> {
    if ops == [] then s else Effect(EffectOf(s, ops[..|ops| - 1]), ops[|ops| - 1])
  }

  ghost function AnswersTo(s: seq<int>, ops: seq<Op>): seq<int> {
    if ops == [] then []
    else AnswersTo(s, ops[..|ops| - 1]) + [Answer(EffectOf(s, ops[..|ops| - 1]), ops[|ops| - 1])]
  }

  lemma OneMore(s: seq<int>, ops: seq<Op>, n: nat)
    requires n < |ops|
    ensures EffectOf(s, ops[..n + 1]) == Effect(EffectOf(s, ops[..n]), ops[n])
    ensures AnswersTo(s, ops[..n + 1]) == AnswersTo(s, ops[..n]) + [Answer(EffectOf(s, ops[..n]), ops[n])]
  {
    assert ops[..n + 1][..n] == ops[..n];
  }

  /** The values added, in order. */
  ghost function Added(ops: seq<Op>): seq<int> {
    if ops == [] then []
    else Added(ops[..|ops| - 1]) + (if ops[|ops| - 1].Add? then [ops[|ops| - 1].data] else [])
  }

  /** The answers of those `del`s that found the queue non-empty, in order. */
  ghost function Served(s: seq<int>, ops: seq<Op>): seq<int> {
    if ops == [] then []
    else
      var before := EffectOf(s, ops[..|ops| - 1]);
      var served := Served(s, ops[..|ops| - 1]);
      if ops[|ops| - 1].Del? && before != [] then served + [Answer(before, Del)] else served
  }

  lemma FifoStep(served: seq<int>, before: seq<int>, op: Op)
    ensures op.Add? ==> served + Effect(before, op) == (served + before) + [op.data]
    ensures op.Del? && before != [] ==>
              (served + [Answer(before, op)]) + Effect(before, op) == served + before
    ensures op.Del? && before == [] ==> Effect(before, op) == before
  {
  }

  /** First in, first out, over every history: what was served, followed by what is still
      queued, is what was queued at first followed by what was added. */
  lemma {:induction false} FirstInFirstOut(s: seq<int>, ops: seq<Op>)
    ensures Served(s, ops) + EffectOf(s, ops) == s + Added(ops)
  {
    if ops == [] {
    } else {
      var rest, op := ops[..|ops| - 1], ops[|ops| - 1];
      FirstInFirstOut(s, rest);
      FifoStep(Served(s, rest), EffectOf(s, rest), op);
    }
  }
}
