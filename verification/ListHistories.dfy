/** The operations of a linked list on sequences, and sequences of them. Two operations of
    the list can write through a null pointer; they end in `Crashed`. */
module ListHistories {

  datatype Outcome = Done(value: int) | Crashed

  /** Where `x` first occurs in `s`, or `|s|`. */
  ghost function IndexOf(s: seq<int>, x: int): (i: nat)
    ensures i <= |s| && x !in s[..i] && (i < |s| ==> s[i] == x)
  {
    if s == [] || s[0] == x then 0
    else
      var i := IndexOf(s[1..], x) + 1;
      assert s[..i] == [s[0]] + s[1..][..i - 1];
      i
  }

  datatype Op =
    | Append(data: int)
    | Prepend(data: int)
    | InsertAfter(existData: int, newData: int)
    | InsertAtIndex(index: int, newData: int)
    | RemoveHead
    | RemoveTail
    | LookUp(data: int)
    | GetLength

  ghost function Effect(s: seq<int>, op: Op): seq<int> {
    match op
    case Append(x) => s + [x]
    case Prepend(x) => [x] + s
    case InsertAfter(x, y) =>
      var i := IndexOf(s, x);
      if s == [] then [y] else if i == |s| then s else s[..i + 1] + [y] + s[i + 1..]
    case InsertAtIndex(i, y) =>
      if s == [] && i < 0 then [y] else if 1 <= i < |s| then s[..i] + [y] + s[i..] else s
    case RemoveHead => if s == [] then s else s[1..]
    case RemoveTail => if |s| < 2 then s else s[..|s| - 1]
    case LookUp(_) => s
    case GetLength => s
  }

  /** What an operation returns; 0 for those that return nothing, 1 and 0 for a bool. */
  ghost function Answer(s: seq<int>, op: Op): Outcome {
    match op
    case InsertAtIndex(i, _) => if i == 0 && s != [] then Crashed else Done(0)
    case RemoveHead => Done(if s == [] then -1 else s[0])
    case RemoveTail => if |s| == 1 then Crashed else Done(if s == [] then -1 else s[|s| - 1])
    case LookUp(x) => Done(if x in s then 1 else 0)
    case GetLength => Done(|s|)
    case _ => Done(0)
  }

  ghost function EffectOf(s: seq<int>, ops: seq<Op>): seq<int> {
    if ops == [] then s else Effect(EffectOf(s, ops[..|ops| - 1]), ops[|ops| - 1])
  }

  ghost function AnswersTo(s: seq<int>, ops: seq<Op>): seq<Outcome> {
    if ops == [] then []
    else AnswersTo(s, ops[..|ops| - 1]) + [Answer(EffectOf(s, ops[..|ops| - 1]), ops[|ops| - 1])]
  }

  lemma OneMore(s: seq<int>, ops: seq<Op>, n: nat)
    requires n < |ops|
    ensures EffectOf(s, ops[..n + 1]) == Effect(EffectOf(s, ops[..n]), ops[n])
    ensures AnswersTo(s, ops[..n + 1]) == AnswersTo(s, ops[..n]) + [Answer(EffectOf(s, ops[..n]), ops[n])]
  {
    assert ops[..n + 1][..n] == ops[..n];
  }

  /** How a run ends: it stops after its first crash. */
  ghost predicate Stopped(ops: seq<Op>, outcomes: seq<Outcome>) {
    && |outcomes| <= |ops|
    && (forall i :: 0 <= i < |outcomes| - 1 ==> outcomes[i].Done?)
    && (|outcomes| < |ops| ==> outcomes != [] && outcomes[|outcomes| - 1].Crashed?)
  }

  /** The outcomes of a run are determined by the contents at its start. */
  lemma {:induction false} OneOutcome(s: seq<int>, ops: seq<Op>, a: seq<Outcome>, b: seq<Outcome>)
    requires Stopped(ops, a) && Stopped(ops, b) && |a| <= |b|
    requires a == AnswersTo(s, ops[..|a|]) && b == AnswersTo(s, ops[..|b|])
    ensures a == b
  {
    assert ops[..|b|][..|a|] == ops[..|a|];
    AnswersPrefix(s, ops[..|b|], |a|);
  }

  lemma {:induction false} AnswersPrefix(s: seq<int>, ops: seq<Op>, n: nat)
    requires n <= |ops|
    ensures |AnswersTo(s, ops)| == |ops| && AnswersTo(s, ops)[..n] == AnswersTo(s, ops[..n])
    decreases |ops|
  {
    if ops == [] {
    } else if n == |ops| {
      AnswersPrefix(s, ops[..n - 1], n - 1);
      assert ops[..n] == ops;
    } else {
      AnswersPrefix(s, ops[..|ops| - 1], n);
      assert ops[..|ops| - 1][..n] == ops[..n];
    }
  }
}
