/** Search trees by the paths through them: a path is the sequence of turns taken from the
    root. What the search, the insertion, the depth and the deletion of `SearchTrees` mean is
    said here in terms of paths. */
module TreePaths {
  import opened SearchTrees

  /** The subtree below the turns, where true is a turn to the left; a leaf if the tree ends
      before the turns do. */
  function Below(t: Tree, turns: seq<bool>): Tree {
    if t.Leaf? || turns == [] then t else Below(if turns[0] then t.left else t.right, turns[1..])
  }

  /** The path of the search for `k`: to the left where the key is smaller, to the right
      where it is larger, and to the end at the key or at a missing child. */
  ghost predicate SearchPath(t: Tree, k: int, turns: seq<bool>) {
    && (forall i :: 0 <= i < |turns| ==>
          var at := Below(t, turns[..i]); at.Node? && k != at.key && (turns[i] <==> k < at.key))
    && (Below(t, turns).Leaf? || Below(t, turns).key == k)
  }

  /** The search for `k` takes `n` turns. */
  ghost predicate SearchTakes(t: Tree, k: int, n: nat) {
    exists turns :: SearchPath(t, k, turns) && |turns| == n
  }

  lemma FirstTurn(t: Tree, k: int, turns: seq<bool>)
    requires t.Node?
    ensures SearchPath(t, k, turns) <==>
            if k == t.key then turns == []
            else turns != [] && (turns[0] <==> k < t.key)
                 && SearchPath(if k < t.key then t.left else t.right, k, turns[1..])
  {
    assert Below(t, turns[..0]) == t;
    if turns != [] && k != t.key && (turns[0] <==> k < t.key) {
      var child := if k < t.key then t.left else t.right;
      forall i | 0 <= i < |turns[1..]| ensures Below(child, turns[1..][..i]) == Below(t, turns[..i + 1]) {
        assert turns[..i + 1][1..] == turns[1..][..i];
      }
      assert forall i :: 0 <= i < |turns[1..]| ==> turns[1..][i] == turns[i + 1];
      assert forall i :: 1 <= i < |turns| ==> turns[i] == turns[1..][i - 1]
                                              && Below(t, turns[..i]) == Below(child, turns[1..][..i - 1]);
    }
  }

  lemma NoTurnsInLeaf(k: int, turns: seq<bool>)
    ensures SearchPath(Leaf, k, turns) <==> turns == []
  {
    assert turns != [] ==> Below(Leaf, turns[..0]).Leaf?;
  }

  /** Every search follows exactly one path, and its level is the number of turns. */
  lemma {:induction false} LevelCountsTurns(t: Tree, k: int) returns (turns: seq<bool>)
    ensures SearchPath(t, k, turns) && |turns| == Level(t, k)
    ensures forall other :: SearchPath(t, k, other) ==> other == turns
  {
    if t.Leaf? {
      turns := [];
      NoTurnsInLeaf(k, turns);
      forall other | SearchPath(t, k, other) ensures other == [] { NoTurnsInLeaf(k, other); }
    } else if k == t.key {
      turns := [];
      forall other | SearchPath(t, k, other) ensures other == [] { FirstTurn(t, k, other); }
      FirstTurn(t, k, []);
    } else {
      var rest := LevelCountsTurns(if k < t.key then t.left else t.right, k);
      turns := [k < t.key] + rest;
      assert turns[1..] == rest;
      FirstTurn(t, k, turns);
      forall other | SearchPath(t, k, other) ensures other == turns {
        FirstTurn(t, k, other);
        assert other == [other[0]] + other[1..];
      }
    }
  }

  lemma LevelIsTaken(t: Tree, k: int)
    ensures SearchTakes(t, k, Level(t, k))
  {
    var turns := LevelCountsTurns(t, k);
  }

  /** On an ordered tree the search ends at the key if and only if the tree holds it. */
  lemma {:induction false} SearchFinds(t: Tree, k: int, turns: seq<bool>)
    requires Ordered(t) && SearchPath(t, k, turns)
    ensures k in Keys(t) <==> Below(t, turns).Node?
    decreases t
  {
    if t.Node? {
      FirstTurn(t, k, turns);
      if k != t.key { SearchFinds(if k < t.key then t.left else t.right, k, turns[1..]); }
    }
  }

  /** An insertion reports the level at which the key was, or would have been, looked up
      before: the length of the search path. A lookup afterwards takes the same path, inside
      the new depth. */
  lemma {:induction false} InsertLevels(t: Tree, k: int, turns: seq<bool>)
    requires SearchPath(t, k, turns)
    ensures SearchPath(Insert(t, k), k, turns)
    ensures Level(Insert(t, k), k) == Level(t, k) == |turns| < Depth(Insert(t, k))
    ensures Depth(t) <= Depth(Insert(t, k)) <= Depth(t) + 1
    decreases t
  {
    if t.Leaf? {
      NoTurnsInLeaf(k, turns);
      FirstTurn(Insert(t, k), k, []);
    } else {
      FirstTurn(t, k, turns);
      if k != t.key {
        FirstTurn(Insert(t, k), k, turns);
        InsertLevels(if k < t.key then t.left else t.right, k, turns[1..]);
      }
    }
  }

  ghost predicate KeyAt(t: Tree, turns: seq<bool>, x: int) {
    Below(t, turns).Node? && Below(t, turns).key == x
  }

  /** Insertion puts the key at the end of its search path, and leaves the key at every
      other path as it was. */
  lemma {:induction false} InsertAtPath(t: Tree, k: int, turns: seq<bool>, other: seq<bool>, x: int)
    requires SearchPath(t, k, turns)
    ensures KeyAt(Insert(t, k), turns, k)
    ensures other != turns ==> (KeyAt(Insert(t, k), other, x) <==> KeyAt(t, other, x))
    decreases t
  {
    if t.Leaf? {
      NoTurnsInLeaf(k, turns);
      if other != [] { assert Below(Leaf, other[1..]).Leaf?; }
    } else {
      FirstTurn(t, k, turns);
      if k != t.key {
        var child := if k < t.key then t.left else t.right;
        assert turns == [turns[0]] + turns[1..];
        if other != [] && other[0] == turns[0] {
          assert other == [other[0]] + other[1..];
          InsertAtPath(child, k, turns[1..], other[1..], x);
        } else {
          InsertAtPath(child, k, turns[1..], [], x);
        }
      }
    }
  }

  /** Some path of `n` nodes leads down the tree and no longer one does. */
  ghost predicate Longest(t: Tree, n: nat) {
    && (t.Leaf? <==> n == 0)
    && (forall turns :: Below(t, turns).Node? ==> |turns| < n)
    && (t.Node? ==> exists turns :: Below(t, turns).Node? && |turns| + 1 == n)
  }

  /** The depth is the number of nodes on a longest path. */
  lemma {:induction false} DepthIsLongestPath(t: Tree)
    ensures Longest(t, Depth(t))
  {
    if t.Node? {
      DepthIsLongestPath(t.left);
      DepthIsLongestPath(t.right);
      forall turns | Below(t, turns).Node? ensures |turns| < Depth(t) {
        if turns != [] {
          assert Below(if turns[0] then t.left else t.right, turns[1..]).Node?;
        }
      }
      var left := Depth(t.left) >= Depth(t.right);
      var deeper := if left then t.left else t.right;
      if deeper.Leaf? {
        assert Below(t, []).Node?;
      } else {
        var turns :| Below(deeper, turns).Node? && |turns| + 1 == Depth(deeper);
        assert ([left] + turns)[1..] == turns;
        assert Below(t, [left] + turns).Node?;
      }
    }
  }

  /** On an ordered tree the deletion takes out exactly its key and keeps the order, except
      where the key has two children: there it writes through the node it deleted. */
  lemma {:induction false} DeleteTakesOut(t: Tree, k: int, turns: seq<bool>)
    requires Ordered(t) && SearchPath(t, k, turns)
    ensures var at := Below(t, turns);
            DeleteHelper(t, k).FreedAccess? <==> at.Node? && at.left.Node? && at.right.Node?
    ensures DeleteHelper(t, k).Kept? ==>
              Ordered(DeleteHelper(t, k).tree) && Keys(DeleteHelper(t, k).tree) == Keys(t) - {k}
    decreases t
  {
    if t.Node? {
      FirstTurn(t, k, turns);
      if k != t.key {
        DeleteTakesOut(if k < t.key then t.left else t.right, k, turns[1..]);
      }
    }
  }
}
