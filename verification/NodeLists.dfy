/** The arrays of memory-target handles that a memspace holds, as sequences. */
module NodeLists {

  ghost predicate Distinct(s: seq<nat>) {
    forall i, j :: 0 <= i < j < |s| ==> s[i] != s[j]
  }

  ghost function Members(s: seq<nat>): set<nat> {
    set h | h in s
  }

  /** `s` with the elements of `drop` left out, in order. */
  ghost function Without(s: seq<nat>, drop: set<nat>): seq<nat> {
    if s == [] then []
    else
      var rest, h := Without(s[..|s| - 1], drop), s[|s| - 1];
      if h in drop then rest else rest + [h]
  }

  /** `s` without its element at position `k`. */
  function Cut(s: seq<nat>, k: nat): (r: seq<nat>)
    requires k < |s|
    ensures |r| == |s| - 1
  {
    s[..k] + s[k + 1..]
  }

  /** The elements whose verdict is positive, and those whose verdict is zero, in order. */
  ghost function Kept(s: seq<nat>, verdicts: seq<int>): seq<nat>
    requires |s| == |verdicts|
  {
    if s == [] then []
    else
      var n := |s| - 1;
      Kept(s[..n], verdicts[..n]) + (if verdicts[n] > 0 then [s[n]] else [])
  }

  ghost function Dropped(s: seq<nat>, verdicts: seq<int>): seq<nat>
    requires |s| == |verdicts|
  {
    if s == [] then []
    else
      var n := |s| - 1;
      Dropped(s[..n], verdicts[..n]) + (if verdicts[n] == 0 then [s[n]] else [])
  }

  /** Each value of `s` at its first occurrence. */
  ghost function FirstOccurrences(s: seq<nat>): seq<nat> {
    if s == [] then []
    else
      var rest, h := FirstOccurrences(s[..|s| - 1]), s[|s| - 1];
      if h in rest then rest else rest + [h]
  }

  lemma MembersOfOneMore(s: seq<nat>, h: nat)
    ensures Members(s + [h]) == Members(s) + {h}
  {
  }

  lemma {:induction false} WithoutMembers(s: seq<nat>, drop: set<nat>)
    requires Distinct(s)
    ensures Distinct(Without(s, drop)) && Members(Without(s, drop)) == Members(s) - drop
  {
    if s != [] {
      var t, h := s[..|s| - 1], s[|s| - 1];
      WithoutMembers(t, drop);
      assert s == t + [h];
      MembersOfOneMore(t, h);
      MembersOfOneMore(Without(t, drop), h);
      assert h !in t;
      assert h !in Members(Without(t, drop));
    }
  }

  lemma {:induction false} WithoutTwice(s: seq<nat>, a: set<nat>, b: set<nat>)
    ensures Without(Without(s, a), b) == Without(s, a + b)
  {
    if s != [] {
      var t, h := s[..|s| - 1], s[|s| - 1];
      WithoutTwice(t, a, b);
      if h !in a {
        assert (Without(t, a) + [h])[..|Without(t, a)|] == Without(t, a);
      }
    }
  }

  lemma {:induction false} WithoutNothing(s: seq<nat>, drop: set<nat>)
    requires forall h :: h in s ==> h !in drop
    ensures Without(s, drop) == s
  {
    if s != [] {
      WithoutNothing(s[..|s| - 1], drop);
    }
  }

  lemma {:induction false} WithoutOne(s: seq<nat>, k: nat)
    requires Distinct(s) && k < |s|
    ensures Without(s, {s[k]}) == Cut(s, k)
    decreases |s|
  {
    var n := |s| - 1;
    if k == n {
      WithoutNothing(s[..n], {s[k]});
    } else {
      WithoutOne(s[..n], k);
      assert s[..n][k + 1..] + [s[n]] == s[k + 1..];
    }
  }

  lemma {:induction false} DroppedMembers(s: seq<nat>, verdicts: seq<int>)
    requires |s| == |verdicts| && Distinct(s)
    ensures Distinct(Dropped(s, verdicts)) && Members(Dropped(s, verdicts)) <= Members(s)
    ensures |Dropped(s, verdicts)| <= |s|
    ensures forall i :: 0 <= i < |s| ==> (s[i] in Dropped(s, verdicts) <==> verdicts[i] == 0)
  {
    if s != [] {
      var n := |s| - 1;
      var t, v, h := s[..n], verdicts[..n], s[n];
      DroppedMembers(t, v);
      assert s == t + [h];
      MembersOfOneMore(t, h);
      MembersOfOneMore(Dropped(t, v), h);
      assert h !in t;
      assert h !in Members(Dropped(t, v));
      forall i | 0 <= i < |s| ensures s[i] in Dropped(s, verdicts) <==> verdicts[i] == 0 {
        if i < n { assert t[i] == s[i] && v[i] == verdicts[i]; }
      }
    }
  }

  /** Leaving out the dropped elements leaves the kept ones. */
  lemma {:induction false} WithoutDropped(s: seq<nat>, verdicts: seq<int>, drop: set<nat>)
    requires |s| == |verdicts| && forall i :: 0 <= i < |s| ==> verdicts[i] >= 0
    requires forall i :: 0 <= i < |s| ==> (s[i] in drop <==> verdicts[i] == 0)
    ensures Without(s, drop) == Kept(s, verdicts)
    ensures |Kept(s, verdicts)| + |Dropped(s, verdicts)| == |s|
  {
    if s != [] {
      WithoutDropped(s[..|s| - 1], verdicts[..|s| - 1], drop);
    }
  }

  lemma {:induction false} FirstOccurrencesFacts(s: seq<nat>)
    ensures Distinct(FirstOccurrences(s)) && |FirstOccurrences(s)| <= |s|
    ensures forall h :: h in FirstOccurrences(s) <==> h in s
  {
    if s != [] {
      var t, h := s[..|s| - 1], s[|s| - 1];
      FirstOccurrencesFacts(t);
      assert s == t + [h];
    }
  }

  /** First occurrences come in the order in which their values first occur. */
  lemma {:induction false} FirstOccurrencesOrder(s: seq<nat>, i: nat, j: nat)
    requires i < j < |FirstOccurrences(s)|
    ensures exists a :: 0 <= a < |s| && s[a] == FirstOccurrences(s)[i] && FirstOccurrences(s)[j] !in s[..a + 1]
  {
    var n := |s| - 1;
    var t, f := s[..n], FirstOccurrences(s);
    var g := FirstOccurrences(t);
    FirstOccurrencesFacts(s);
    if j < |g| {
      FirstOccurrencesOrder(t, i, j);
      var a :| 0 <= a < |t| && t[a] == g[i] && g[j] !in t[..a + 1];
      assert t[..a + 1] == s[..a + 1];
    } else {
      FirstOccurrencesFacts(t);
      assert g[i] in t;
      var a :| 0 <= a < |t| && t[a] == g[i];
      assert f[j] == s[n] && s[n] !in t;
      assert forall x :: x in s[..a + 1] ==> x in t by { assert s[..a + 1] == t[..a + 1]; }
      assert s[a] == f[i];
    }
  }
}
