/** The benchmark filter `ubench_should_filter`
    (unified-memory-framework/benchmark/ubench.h:447-512): a two-pointer wildcard matcher
    that resets the filter pointer after a mismatch. Strings stand for C strings without
    their terminator, so a pointer at the terminator is an index at the length. */
module GlobMatcher {

  datatype Option<T> = None | Some(value: T)

  /** The glob language: `*` stands for any string. */
  predicate Matches(f: string, n: string)
    decreases |f| + |n|
  {
    if f == "" then n == ""
    else if f[0] == '*' then Matches(f[1..], n) || (n != "" && Matches(f, n[1..]))
    else n != "" && n[0] == f[0] && Matches(f[1..], n[1..])
  }

  // ---------- The matcher as a function of its two pointers ----------

  /** The outer loop's exit test: the whole filter is used up, and the whole name too
      unless the filter's last character is a wildcard. */
  predicate Final(f: string, n: string, fc: nat, bc: nat)
    requires fc <= |f| && bc <= |n|
  {
    fc == |f| && (bc == |n| || (fc > 0 && f[fc - 1] == '*'))
  }

  predicate Outer(f: string, n: string, fc: nat, bc: nat)
    requires fc <= |f| && bc <= |n|
    decreases |n| - bc, |f| - fc, 0
  {
    if fc < |f| && bc < |n| then
      if f[fc] == '*' then Inner(f, n, fc, fc + 1, bc)
      else n[bc] == f[fc] && Outer(f, n, fc + 1, bc + 1)
    else Final(f, n, fc, bc)
  }

  predicate Inner(f: string, n: string, w: nat, fc: nat, bc: nat)
    requires w < fc <= |f| && bc <= |n|
    decreases |n| - bc, |f| - fc, 1
  {
    if fc < |f| && bc < |n| && f[fc] != '*' then
      Inner(f, n, w, if f[fc] != n[bc] then w + 1 else fc + 1, bc + 1)
    else if bc == |n| then fc == |f|
    else Outer(f, n, fc, bc)
  }

  /** Returns 0 to run the benchmark, 1 to skip it. */
  method ShouldFilter(filter: Option<string>, benchmark: string) returns (r: int)
    ensures r == 0 || r == 1
    ensures filter.None? ==> r == 0
    ensures filter.Some? ==> (r == 0 <==> Outer(filter.value, benchmark, 0, 0))
    ensures filter.Some? ==> (r == 0 <==> Lets(filter.value, benchmark))
  {
    if filter.Some? {
      var f, n := filter.value, benchmark;
      LetsWhatIsDescribed(f, n);
      var fc, bc := 0, 0;
      while fc < |f| && bc < |n|
        invariant fc <= |f| && bc <= |n|
        invariant Outer(f, n, fc, bc) == Outer(f, n, 0, 0)
        decreases |n| - bc, |f| - fc
      {
        if f[fc] == '*' {
          var wildcard := fc;
          ghost var bc0 := bc;
          fc := fc + 1;
          while fc < |f| && bc < |n|
            invariant wildcard < fc <= |f| && bc0 <= bc <= |n|
            invariant Inner(f, n, wildcard, fc, bc) == Outer(f, n, 0, 0)
            decreases |n| - bc
          {
            if f[fc] == '*' {
              break;
            } else if f[fc] != n[bc] {
              fc := wildcard;
            }
            bc := bc + 1;
            fc := fc + 1;
          }
          if fc == |f| && bc == |n| {
            return 0;
          }
          if bc == |n| {
            return 1;
          }
        } else if n[bc] != f[fc] {
          return 1;
        } else {
          bc := bc + 1;
          fc := fc + 1;
        }
      }
      if fc != |f| || (bc != |n| && (fc == 0 || f[fc - 1] != '*')) {
        return 1;
      }
    }
    return 0;
  }

  // ---------- Soundness ----------

  lemma {:induction false} StarAbsorbs(f: string, n: string, j: nat)
    requires f != "" && f[0] == '*' && j <= |n| && Matches(f, n[j..])
    ensures Matches(f, n)
    decreases j
  {
    if j == 0 {
      assert n[0..] == n;
    } else {
      assert n[1..][j - 1..] == n[j..];
      StarAbsorbs(f, n[1..], j - 1);
    }
  }

  /** A wildcard stands for any string: what follows it matches some rest of the name. */
  lemma {:induction false} StarStandsForAny(f: string, n: string)
    ensures Matches("*" + f, n) <==> exists j :: 0 <= j <= |n| && Matches(f, n[j..])
  {
    assert ("*" + f)[1..] == f && n[0..] == n;
    if j: nat :| j <= |n| && Matches(f, n[j..]) {
      if j == 0 {
        assert Matches("*" + f, n);
      } else {
        StarTakesOne(f, n[j..]);
        StarAbsorbs("*" + f, n, j);
      }
    }
    if Matches("*" + f, n) && !Matches(f, n) {
      StarStandsForAny(f, n[1..]);
      var j :| 0 <= j <= |n[1..]| && Matches(f, n[1..][j..]);
      assert n[1..][j..] == n[j + 1..];
    }
  }

  lemma StarTakesOne(f: string, n: string)
    requires Matches(f, n)
    ensures Matches("*" + f, n)
  {
    assert ("*" + f)[1..] == f;
  }

  predicate StarFree(s: string) {
    forall i :: 0 <= i < |s| ==> s[i] != '*'
  }

  /** A literal segment followed by a match is a match. */
  lemma {:induction false} LiteralThen(s: string, f: string, n: string)
    requires StarFree(s)
    ensures Matches(s + f, s + n) == Matches(f, n)
  {
    if s == "" {
      assert s + f == f && s + n == n;
    } else {
      assert (s + f)[1..] == s[1..] + f && (s + n)[1..] == s[1..] + n;
      LiteralThen(s[1..], f, n);
    }
  }

  /** The part of the filter that an accepting state of the outer loop still has to match:
      from `fc`, or from a wildcard just passed. */
  function Pending(f: string, fc: nat): string
    requires fc <= |f|
  {
    if fc > 0 && f[fc - 1] == '*' then f[fc - 1..] else f[fc..]
  }

  lemma {:induction false} OuterSound(f: string, n: string, fc: nat, bc: nat)
    requires fc <= |f| && bc <= |n| && Outer(f, n, fc, bc)
    ensures Matches(Pending(f, fc), n[bc..])
    decreases |n| - bc, |f| - fc, 0
  {
    if fc < |f| && bc < |n| {
      if f[fc] == '*' {
        InnerSound(f, n, fc, fc + 1, bc);
        assert n[bc - 0..] == n[bc..] && Matches(f[fc..], n[bc..]);
      } else {
        OuterSound(f, n, fc + 1, bc + 1);
        assert f[fc..][1..] == f[fc + 1..] && n[bc..][1..] == n[bc + 1..];
        assert Matches(f[fc..], n[bc..]);
      }
      if fc > 0 && f[fc - 1] == '*' {
        assert f[fc - 1..][1..] == f[fc..];
      }
    } else if fc > 0 && f[fc - 1] == '*' {
      assert f[fc - 1..] == "*" && "*"[1..] == "";
      assert n[bc..][|n| - bc..] == "";
      StarAbsorbs("*", n[bc..], |n| - bc);
    }
  }

  lemma StarAbsorbsUpTo(f: string, n: string, w: nat, b: nat, c: nat)
    requires w < |f| && f[w] == '*' && b <= c <= |n| && Matches(f[w..], n[c..])
    ensures Matches(f[w..], n[b..])
  {
    assert n[b..][c - b..] == n[c..];
    StarAbsorbs(f[w..], n[b..], c - b);
  }

  lemma SegmentGrows(f: string, n: string, w: nat, fc: nat, b: nat, bc: nat)
    requires w < fc < |f| && b <= bc < |n| && f[fc] == n[bc] && f[fc] != '*'
    requires StarFree(f[w + 1..fc]) && f[w + 1..fc] == n[b..bc]
    ensures StarFree(f[w + 1..fc + 1]) && f[w + 1..fc + 1] == n[b..bc + 1]
  {
    assert f[w + 1..fc + 1] == f[w + 1..fc] + [f[fc]];
    assert n[b..bc + 1] == n[b..bc] + [n[bc]];
  }

  /** The inner loop has matched the segment after the wildcard against the characters
      just before `bc`. */
  lemma {:induction false} InnerSound(f: string, n: string, w: nat, fc: nat, bc: nat)
    requires w < fc <= |f| && bc <= |n| && f[w] == '*' && Inner(f, n, w, fc, bc)
    requires fc - (w + 1) <= bc && StarFree(f[w + 1..fc])
    requires f[w + 1..fc] == n[bc - (fc - (w + 1))..bc]
    ensures Matches(f[w..], n[bc - (fc - (w + 1))..])
    decreases |n| - bc, |f| - fc, 1
  {
    var b := bc - (fc - (w + 1));
    if fc < |f| && bc < |n| && f[fc] != '*' {
      if f[fc] != n[bc] {
        InnerSound(f, n, w, w + 1, bc + 1);
        StarAbsorbsUpTo(f, n, w, b, bc + 1);
      } else {
        SegmentGrows(f, n, w, fc, b, bc);
        InnerSound(f, n, w, fc + 1, bc + 1);
      }
    } else {
      if bc < |n| { OuterSound(f, n, fc, bc); }
      SegmentEnds(f, n, w, fc, bc);
    }
  }

  /** The segment after the wildcard at `w` is complete, and the rest matches. */
  lemma SegmentEnds(f: string, n: string, w: nat, fc: nat, bc: nat)
    requires w < fc <= |f| && bc <= |n| && f[w] == '*'
    requires fc - (w + 1) <= bc && StarFree(f[w + 1..fc])
    requires f[w + 1..fc] == n[bc - (fc - (w + 1))..bc]
    requires if bc == |n| then fc == |f| else Matches(Pending(f, fc), n[bc..])
    ensures Matches(f[w..], n[bc - (fc - (w + 1))..])
  {
    if bc == |n| {
      assert f[fc..] == "" && n[bc..] == "";
      SegmentThen(f, n, w, fc, bc);
    } else if fc > w + 1 {
      assert f[fc - 1] == f[w + 1..fc][fc - 1 - (w + 1)];
      SegmentThen(f, n, w, fc, bc);
    }
  }

  /** The wildcard at `w` stands for nothing, its segment for the characters before `bc`. */
  lemma SegmentThen(f: string, n: string, w: nat, fc: nat, bc: nat)
    requires w < fc <= |f| && bc <= |n| && f[w] == '*'
    requires fc - (w + 1) <= bc && StarFree(f[w + 1..fc])
    requires f[w + 1..fc] == n[bc - (fc - (w + 1))..bc]
    requires Matches(f[fc..], n[bc..])
    ensures Matches(f[w..], n[bc - (fc - (w + 1))..])
  {
    var b, s := bc - (fc - (w + 1)), f[w + 1..fc];
    LiteralThen(s, f[fc..], n[bc..]);
    assert f[w..][1..] == s + f[fc..] && n[b..] == s + n[bc..];
  }

  /** A benchmark the filter lets through belongs to the filter's glob language. */
  lemma Sound(f: string, n: string)
    requires Outer(f, n, 0, 0)
    ensures Matches(f, n)
  {
    OuterSound(f, n, 0, 0);
    assert f[0..] == f && n[0..] == n;
  }

  // ---------- Where the matcher is exact ----------

  lemma {:induction false} StarFreeMatches(f: string, n: string)
    requires StarFree(f)
    ensures Matches(f, n) <==> f == n
  {
    if f != "" && n != "" {
      StarFreeMatches(f[1..], n[1..]);
      assert f == [f[0]] + f[1..] && n == [n[0]] + n[1..];
    }
  }

  /** Matching a wildcard-free stretch of the filter that starts at `fc`. */
  lemma {:induction false} OuterLiteral(f: string, n: string, fc: nat, bc: nat, len: nat)
    requires fc + len <= |f| && bc <= |n| && StarFree(f[fc..fc + len])
    ensures bc + len <= |n| && f[fc..fc + len] == n[bc..bc + len] ==>
              Outer(f, n, fc, bc) == Outer(f, n, fc + len, bc + len)
    ensures !(bc + len <= |n| && f[fc..fc + len] == n[bc..bc + len]) ==> !Outer(f, n, fc, bc)
    decreases len
  {
    if len > 0 {
      assert f[fc..fc + len][0] == f[fc];
      if bc < |n| && n[bc] == f[fc] {
        assert f[fc..fc + len][1..] == f[fc + 1..fc + len];
        OuterLiteral(f, n, fc + 1, bc + 1, len - 1);
        if bc + len <= |n| {
          assert f[fc..fc + len] == [f[fc]] + f[fc + 1..fc + len];
          assert n[bc..bc + len] == [n[bc]] + n[bc + 1..bc + len];
        }
      } else if bc + len <= |n| {
        assert n[bc..bc + len][0] == n[bc];
      }
    }
  }

  /** Without wildcards the filter accepts exactly its own text. */
  lemma ExactWithoutStar(f: string, n: string)
    requires StarFree(f)
    ensures Outer(f, n, 0, 0) <==> f == n
  {
    assert f[0..|f|] == f;
    OuterLiteral(f, n, 0, 0, |f|);
    if |f| <= |n| {
      assert |f| > 0 ==> f[|f| - 1] != '*';
      assert f == n[0..|f|] && |f| == |n| ==> f == n;
      assert n[0..|n|] == n;
    }
  }

  /** The name agrees with the first `i` characters of `s` from position `b` on. */
  predicate Agrees(s: string, n: string, b: nat, i: nat) {
    i <= |s| && b + i <= |n| && forall k :: 0 <= k < i ==> n[b + k] == s[k]
  }

  /** An attempt at `s` from position `b` on fails at its character `j`. */
  predicate FailsAt(s: string, n: string, b: nat, j: nat) {
    j < |s| && b + j < |n| && Agrees(s, n, b, j) && n[b + j] != s[j]
  }

  /** From position `b` the scan for the literal `s` ends behind it at `e`: after any number
      of failed attempts, each a proper prefix of `s` and then a character other than the
      next one, comes `s` itself. The character that ends an attempt is not tried again as
      the first of the next one. */
  predicate Reaches(s: string, n: string, b: nat, e: nat)
    decreases |n| - b
  {
    || (Agrees(s, n, b, |s|) && e == b + |s|)
    || exists j :: 0 <= j < |s| && FailsAt(s, n, b, j) && Reaches(s, n, b + j + 1, e)
  }

  /** An attempt fails at one place only. */
  lemma FailsOnce(s: string, n: string, b: nat, i: nat, j: nat)
    requires FailsAt(s, n, b, i) && FailsAt(s, n, b, j)
    ensures i == j
  {
  }

  /** The first mismatch decides where the next attempt starts. */
  lemma AttemptFails(s: string, n: string, b: nat, i: nat, e: nat)
    requires FailsAt(s, n, b, i)
    ensures Reaches(s, n, b, e) <==> Reaches(s, n, b + i + 1, e)
  {
    if Reaches(s, n, b, e) {
      assert !Agrees(s, n, b, |s|);
      var j :| 0 <= j < |s| && FailsAt(s, n, b, j) && Reaches(s, n, b + j + 1, e);
      FailsOnce(s, n, b, i, j);
    }
  }

  /** Without a mismatch the scan ends behind this attempt, or not at all. */
  lemma AttemptEnds(s: string, n: string, b: nat, i: nat, e: nat)
    requires Agrees(s, n, b, i) && (i == |s| || b + i == |n|)
    ensures Reaches(s, n, b, e) <==> i == |s| && e == b + i
  {
    assert forall j :: 0 <= j < |s| ==> !FailsAt(s, n, b, j);
  }

  /** One step of the inner loop, for the literal `s` between the wildcard at `w` and `rest`,
      which is empty or starts with the next wildcard. */
  lemma InnerStep(f: string, n: string, w: nat, fc: nat, bc: nat, i: nat, s: string, rest: string)
    requires fc == w + 1 + i <= |f| && i <= |s| && bc <= |n| && f[w] == '*'
    requires f[w + 1..] == s + rest && StarFree(s) && (rest == "" || rest[0] == '*')
    ensures |f| == w + 1 + |s| + |rest|
    ensures Inner(f, n, w, fc, bc) ==
            if i < |s| && bc < |n| then
              if s[i] != n[bc] then Inner(f, n, w, w + 1, bc + 1) else Inner(f, n, w, fc + 1, bc + 1)
            else if bc == |n| then i == |s| && rest == ""
            else Outer(f, n, fc, bc)
  {
    if i < |s| {
      assert f[fc] == f[w + 1..][i] == s[i];
    } else if rest != "" {
      assert f[fc] == f[w + 1..][i] == rest[0];
    }
  }

  /** Behind a literal that ended at `e`: the name is at its end and so is the filter, or the
      outer loop accepts. */
  predicate Onward(f: string, n: string, fc: nat, e: nat) {
    fc <= |f| && e <= |n| && if e == |n| then fc == |f| else Outer(f, n, fc, e)
  }

  ghost predicate ReachesOnward(f: string, n: string, s: string, b: nat, fc: nat) {
    exists e :: b <= e <= |n| && Reaches(s, n, b, e) && Onward(f, n, fc, e)
  }

  lemma OnwardFails(f: string, n: string, s: string, b: nat, fc: nat, i: nat)
    requires FailsAt(s, n, b, i)
    ensures ReachesOnward(f, n, s, b, fc) <==> ReachesOnward(f, n, s, b + i + 1, fc)
  {
    if ReachesOnward(f, n, s, b, fc) {
      var e :| b <= e <= |n| && Reaches(s, n, b, e) && Onward(f, n, fc, e);
      AttemptFails(s, n, b, i, e);
      ReachesForward(s, n, b + i + 1, e);
    }
    if ReachesOnward(f, n, s, b + i + 1, fc) {
      var e :| b + i + 1 <= e <= |n| && Reaches(s, n, b + i + 1, e) && Onward(f, n, fc, e);
      AttemptFails(s, n, b, i, e);
    }
  }

  lemma {:induction false} ReachesForward(s: string, n: string, b: nat, e: nat)
    requires Reaches(s, n, b, e)
    ensures b + |s| <= e <= |n|
    decreases |n| - b
  {
    if !(Agrees(s, n, b, |s|) && e == b + |s|) {
      var j :| 0 <= j < |s| && FailsAt(s, n, b, j) && Reaches(s, n, b + j + 1, e);
      ReachesForward(s, n, b + j + 1, e);
    }
  }

  lemma OnwardEnds(f: string, n: string, s: string, b: nat, fc: nat, i: nat)
    requires Agrees(s, n, b, i) && (i == |s| || b + i == |n|)
    ensures ReachesOnward(f, n, s, b, fc) <==> i == |s| && Onward(f, n, fc, b + i)
  {
    AttemptEnds(s, n, b, i, b + i);
    if ReachesOnward(f, n, s, b, fc) {
      var e :| b <= e <= |n| && Reaches(s, n, b, e) && Onward(f, n, fc, e);
      AttemptEnds(s, n, b, i, e);
    }
  }

  /** Within an attempt that began at `b` and has matched `i` characters, the inner loop
      accepts exactly if the scan from `b` on reaches the literal and the rest is accepted
      behind it. */
  lemma {:induction false} InnerAttempts(f: string, n: string, w: nat, fc: nat, bc: nat, i: nat, b: nat,
                                         s: string, rest: string)
    requires fc == w + 1 + i <= |f| && bc == b + i && f[w] == '*' && Agrees(s, n, b, i)
    requires f[w + 1..] == s + rest && StarFree(s) && (rest == "" || rest[0] == '*')
    ensures Inner(f, n, w, fc, bc) <==> ReachesOnward(f, n, s, b, w + 1 + |s|)
    decreases |n| - bc
  {
    InnerStep(f, n, w, fc, bc, i, s, rest);
    if i < |s| && bc < |n| {
      if s[i] != n[bc] {
        OnwardFails(f, n, s, b, w + 1 + |s|, i);
        InnerAttempts(f, n, w, w + 1, bc + 1, 0, bc + 1, s, rest);
      } else {
        InnerAttempts(f, n, w, fc + 1, bc + 1, i + 1, b, s, rest);
      }
    } else {
      OnwardEnds(f, n, s, b, w + 1 + |s|, i);
    }
  }

  // ---------- What every filter accepts ----------

  /** The filter made of `segments`, each behind a wildcard. */
  function Stars(segments: seq<string>): string {
    if segments == [] then "" else "*" + segments[0] + Stars(segments[1..])
  }

  predicate AllStarFree(segments: seq<string>) {
    forall i :: 0 <= i < |segments| ==> StarFree(segments[i])
  }

  /** What `segments`, each behind a wildcard, accept of a name from position `b` on. A
      trailing wildcard accepts anything. The last segment has to be reached at the very end
      of the name, every other one before it, and the next scan starts behind it. */
  ghost predicate Accepts(segments: seq<string>, n: string, b: nat)
    requires segments != []
    decreases |segments|
  {
    if |segments| == 1 then segments[0] == "" || Reaches(segments[0], n, b, |n|)
    else exists e :: b <= e < |n| && Reaches(segments[0], n, b, e) && Accepts(segments[1..], n, e)
  }

  /** The last segment: from here on the filter is used up. */
  lemma LastSegment(f: string, n: string, w: nat, s: string, b: nat)
    requires w < |f| && f[w] == '*' && f[w + 1..] == s && StarFree(s) && b <= |n|
    ensures ReachesOnward(f, n, s, b, w + 1 + |s|) <==> Accepts([s], n, b)
  {
    assert |f| == w + 1 + |s|;
    if s == "" {
      AttemptEnds(s, n, b, 0, b);
      assert Reaches(s, n, b, b) && Onward(f, n, |f|, b);
    } else {
      assert f[|f| - 1] == f[w + 1..][|s| - 1] != '*';
      assert forall e :: 0 <= e <= |n| && Onward(f, n, |f|, e) ==> e == |n|;
      if Reaches(s, n, b, |n|) { assert Onward(f, n, |f|, |n|); }
    }
  }

  /** From the wildcard at `w` on, the inner loop accepts what the segments accept. */
  lemma {:induction false} SegmentsAccept(f: string, n: string, w: nat, segments: seq<string>, b: nat)
    requires w < |f| && segments != [] && f[w..] == Stars(segments) && AllStarFree(segments) && b <= |n|
    ensures Inner(f, n, w, w + 1, b) <==> Accepts(segments, n, b)
    decreases |segments|
  {
    var s, more := segments[0], segments[1..];
    assert f[w] == f[w..][0] == '*' && f[w + 1..] == f[w..][1..] == s + Stars(more);
    InnerAttempts(f, n, w, w + 1, b, 0, b, s, Stars(more));
    if more == [] {
      assert segments == [s] && s + Stars(more) == s;
      LastSegment(f, n, w, s, b);
    } else {
      var w' := w + 1 + |s|;
      assert f[w'..] == f[w + 1..][|s|..] == Stars(more) && f[w'] == f[w'..][0];
      forall e | b <= e < |n| ensures Onward(f, n, w', e) <==> Accepts(more, n, e) {
        SegmentsAccept(f, n, w', more, e);
      }
      OneMoreSegment(f, n, segments, b, w');
    }
  }

  lemma OneMoreSegment(f: string, n: string, segments: seq<string>, b: nat, w: nat)
    requires |segments| > 1 && w < |f|
    requires forall e :: b <= e < |n| ==> (Onward(f, n, w, e) <==> Accepts(segments[1..], n, e))
    ensures ReachesOnward(f, n, segments[0], b, w) <==> Accepts(segments, n, b)
  {
    var s := segments[0];
    if ReachesOnward(f, n, s, b, w) {
      var e :| b <= e <= |n| && Reaches(s, n, b, e) && Onward(f, n, w, e);
      assert e < |n| && Accepts(segments[1..], n, e);
    }
    if Accepts(segments, n, b) {
      var e :| b <= e < |n| && Reaches(s, n, b, e) && Accepts(segments[1..], n, e);
      assert Onward(f, n, w, e);
    }
  }

  /** What comes before the first wildcard is a literal prefix of every accepted name. */
  lemma LiteralFirst(f: string, p: string, n: string)
    requires p <= f && StarFree(p)
    ensures Outer(f, n, 0, 0) <==> |p| <= |n| && p == n[..|p|] && Outer(f, n, |p|, |p|)
  {
    assert f[0..|p|] == p;
    OuterLiteral(f, n, 0, 0, |p|);
    assert |p| <= |n| ==> n[0..|p|] == n[..|p|];
  }

  /** What a filter accepts: without wildcards its own text, and otherwise the strictly longer
      names that start with the first literal and go on as the segments accept. */
  ghost predicate Described(p: string, segments: seq<string>, n: string) {
    if segments == [] then n == p else p < n && Accepts(segments, n, |p|)
  }

  lemma ExactSegments(f: string, p: string, segments: seq<string>, n: string)
    requires f == p + Stars(segments) && StarFree(p) && AllStarFree(segments)
    ensures Outer(f, n, 0, 0) <==> Described(p, segments, n)
  {
    if segments == [] {
      assert f == p;
      ExactWithoutStar(p, n);
    } else {
      assert f[|p|..] == Stars(segments) && f[|p|] == f[|p|..][0] == '*';
      LiteralFirst(f, p, n);
      if p < n { SegmentsAccept(f, n, |p|, segments, |p|); }
    }
  }

  lemma {:induction false} SplitAtStars(f: string) returns (p: string, segments: seq<string>)
    ensures f == p + Stars(segments) && StarFree(p) && AllStarFree(segments)
  {
    if f == "" {
      p, segments := "", [];
    } else {
      var p', rest := SplitAtStars(f[1..]);
      if f[0] == '*' {
        p, segments := "", [p'] + rest;
        assert segments[1..] == rest;
        assert f == [f[0]] + f[1..] == "*" + (p' + Stars(rest));
      } else {
        p, segments := [f[0]] + p', rest;
        assert f == [f[0]] + f[1..];
      }
    }
  }

  /** Every filter is a literal and then segments behind wildcards, and accepts exactly the
      names described by them. */
  lemma EveryFilter(f: string) returns (p: string, segments: seq<string>)
    ensures f == p + Stars(segments) && StarFree(p) && AllStarFree(segments)
    ensures forall n :: Outer(f, n, 0, 0) <==> Described(p, segments, n)
  {
    p, segments := SplitAtStars(f);
    forall n ensures Outer(f, n, 0, 0) <==> Described(p, segments, n) {
      ExactSegments(f, p, segments, n);
    }
  }

  /** The filter's literals describe the name. */
  ghost predicate Lets(f: string, n: string) {
    exists p, segments ::
      f == p + Stars(segments) && StarFree(p) && AllStarFree(segments) && Described(p, segments, n)
  }

  lemma LetsWhatIsDescribed(f: string, n: string)
    ensures Outer(f, n, 0, 0) <==> Lets(f, n)
  {
    var p, segments := EveryFilter(f);
    if Lets(f, n) {
      var p', segments' :| f == p' + Stars(segments') && StarFree(p') && AllStarFree(segments')
                           && Described(p', segments', n);
      ExactSegments(f, p', segments', n);
    }
  }

  /** A literal prefix with one trailing wildcard accepts exactly the strictly longer names
      with that prefix: here `*` does not stand for the empty string. */
  lemma ExactPrefixStar(p: string, n: string)
    requires StarFree(p)
    ensures Outer(p + "*", n, 0, 0) <==> |p| < |n| && p == n[..|p|]
  {
    OneSegment("");
    assert p + "*" == p + Stars([""]);
    assert AllStarFree([""]);
    ExactSegments(p + "*", p, [""], n);
    assert |p| < |n| ==> Accepts([""], n, |p|);
  }

  lemma OneSegment(s: string)
    ensures Stars([s]) == "*" + s
  {
    assert [s][1..] == [];
  }

  /** A literal, a wildcard and another literal accept exactly the names that start with the
      first and, after it, reach the second by failed attempts, at the very end. */
  lemma ExactInnerStar(p: string, s: string, n: string)
    requires StarFree(p) && StarFree(s) && s != ""
    ensures Outer(p + "*" + s, n, 0, 0) <==> |p| <= |n| && p == n[..|p|] && Reaches(s, n, |p|, |n|)
  {
    OneSegment(s);
    assert p + "*" + s == p + Stars([s]);
    ExactSegments(p + "*" + s, p, [s], n);
    if |p| <= |n| && Reaches(s, n, |p|, |n|) { ReachesForward(s, n, |p|, |n|); }
  }

  /** The scan for `s` from position `b` on ends before the end of the name. */
  ghost predicate ReachedInside(s: string, n: string, b: nat) {
    exists e :: b <= e < |n| && Reaches(s, n, b, e)
  }

  lemma BetweenStarsText(p: string, s: string)
    ensures p + Stars([s, ""]) == p + "*" + s + "*"
  {
    assert [s, ""][1..] == [""];
    OneSegment("");
    assert Stars([s, ""]) == "*" + s + "*";
  }

  lemma BetweenStarsAccept(p: string, s: string, n: string, e: nat)
    requires p < n && |p| <= e < |n| && Reaches(s, n, |p|, e)
    ensures Described(p, [s, ""], n)
  {
    var segments := [s, ""];
    assert segments != [] && segments[1..] == [""];
    assert Accepts(segments[1..], n, e);
    assert Accepts(segments, n, |p|);
  }

  lemma BetweenStarsReach(p: string, s: string, n: string)
    requires Described(p, [s, ""], n)
    ensures p < n && ReachedInside(s, n, |p|)
  {
    var segments := [s, ""];
    assert segments != [];
    assert segments[1..] == [""];
    assert Accepts(segments, n, |p|);
    var e :| |p| <= e < |n| && Reaches(segments[0], n, |p|, e) && Accepts(segments[1..], n, e);
  }

  lemma BetweenStars(p: string, s: string, n: string)
    ensures Described(p, [s, ""], n) <==> p < n && ReachedInside(s, n, |p|)
  {
    if Described(p, [s, ""], n) {
      BetweenStarsReach(p, s, n);
    } else if p < n {
      forall e | |p| <= e < |n| ensures !Reaches(s, n, |p|, e) {
        if Reaches(s, n, |p|, e) { BetweenStarsAccept(p, s, n, e); }
      }
    }
  }

  /** A literal between two wildcards accepts exactly the names in which, behind the prefix,
      it is reached before the end. */
  lemma ExactBetweenStars(p: string, s: string, n: string)
    requires StarFree(p) && StarFree(s)
    ensures Outer(p + "*" + s + "*", n, 0, 0) <==>
              p < n && ReachedInside(s, n, |p|)
  {
    BetweenStarsText(p, s);
    ExactSegments(p + "*" + s + "*", p, [s, ""], n);
    BetweenStars(p, s, n);
  }

  /** So it accepts every name that goes on with the literal and is longer. */
  lemma LongerNamesPass(p: string, s: string, n: string)
    requires StarFree(p) && StarFree(s) && p + s < n
    ensures Outer(p + "*" + s + "*", n, 0, 0)
  {
    var whole := p + s;
    assert p < n;
    forall k | 0 <= k < |s| ensures n[|p| + k] == s[k] {
      assert n[|p| + k] == whole[|p| + k];
    }
    assert Agrees(s, n, |p|, |s|) && Reaches(s, n, |p|, |p| + |s|);
    BetweenStarsAccept(p, s, n, |p| + |s|);
    BetweenStarsText(p, s);
    ExactSegments(p + "*" + s + "*", p, [s, ""], n);
  }

  // ---------- Where it is not ----------

  function Strip(f: string): string {
    if f == "" then "" else (if f[0] == '*' then "" else [f[0]]) + Strip(f[1..])
  }

  lemma {:induction false} StripSnoc(f: string, c: char)
    ensures Strip(f + [c]) == Strip(f) + (if c == '*' then "" else [c])
  {
    if f != "" {
      assert (f + [c])[1..] == f[1..] + [c];
      StripSnoc(f[1..], c);
    }
  }

  lemma {:induction false} StripSplit(f: string, i: nat)
    requires i < |f|
    ensures Strip(f[..i + 1]) == Strip(f[..i]) + (if f[i] == '*' then "" else [f[i]])
  {
    assert f[..i + 1] == f[..i] + [f[i]];
    StripSnoc(f[..i], f[i]);
  }

  /** The last wildcard of the filter stands between `g` and the literal `s`. The name
      repeats `s`, so the last wildcard has to absorb one copy; the other wildcards stand
      for nothing. */
  function Repeated(g: string, s: string): string {
    Strip(g) + s + s
  }

  lemma {:induction false} RepeatedMatches(g: string, s: string)
    requires StarFree(s)
    ensures Matches(g + "*" + s, Repeated(g, s))
  {
    var f, n := g + "*" + s, Repeated(g, s);
    if g == "" {
      assert f == "*" + s && f[1..] == s && n == s + s && n[|s|..] == s;
      StarFreeMatches(s, s);
      StarAbsorbs(f, n, |s|);
    } else {
      assert f[1..] == g[1..] + "*" + s;
      RepeatedMatches(g[1..], s);
      if g[0] == '*' {
        assert n == Repeated(g[1..], s);
      } else {
        assert n[1..] == Repeated(g[1..], s);
      }
    }
  }

  /** Before the last wildcard the two pointers advance in step. */
  lemma {:induction false} RepeatedRejected(g: string, s: string, fc: nat)
    requires StarFree(s) && fc <= |g|
    ensures |Strip(g[..fc])| <= |Repeated(g, s)|
    ensures !Outer(g + "*" + s, Repeated(g, s), fc, |Strip(g[..fc])|)
    ensures fc < |g| && g[fc] != '*' ==> Strip(g[..fc]) + [g[fc]] <= Repeated(g, s)
    ensures forall w: nat :: w < fc ==>
              !Inner(g + "*" + s, Repeated(g, s), w, fc, |Strip(g[..fc])|)
    decreases |g| - fc
  {
    var f, n := g + "*" + s, Repeated(g, s);
    var bc := |Strip(g[..fc])|;
    if fc == |g| {
      assert g[..fc] == g && n[bc..] == s + s;
      if s != "" { LastSegmentRejected(f, n, fc, fc + 1, bc, s, 0); }
    } else {
      StripSplit(g, fc);
      RepeatedRejected(g, s, fc + 1);
      StripPrefix(g, fc + 1);
      assert f[fc] == g[fc];
      if g[fc] != '*' {
        assert Strip(g[..fc + 1])[bc] == n[bc];
      }
    }
  }

  lemma {:induction false} StripPrefix(g: string, i: nat)
    requires i <= |g|
    ensures Strip(g[..i]) <= Strip(g)
    decreases |g| - i
  {
    if i == |g| {
      assert g[..i] == g;
    } else {
      StripSplit(g, i);
      StripPrefix(g, i + 1);
    }
  }

  /** After the last wildcard the first copy of `s` uses up the filter, and the second copy
      is left over. */
  lemma {:induction false} LastSegmentRejected(f: string, n: string, w: nat, fc: nat, bc: nat,
                                               s: string, i: nat)
    requires StarFree(s) && i <= |s| && s != ""
    requires w < fc == w + 1 + i && fc + (|s| - i) == |f| && f[w + 1..] == s
    requires bc <= |n| && n[bc..] == s[i..] + s
    ensures !Inner(f, n, w, fc, bc)
    decreases |s| - i
  {
    if i < |s| {
      assert f[fc] == f[w + 1..][i] == s[i];
      assert n[bc] == n[bc..][0] == s[i];
      assert n[bc + 1..] == n[bc..][1..] == s[i + 1..] + s;
      LastSegmentRejected(f, n, w, fc + 1, bc + 1, s, i + 1);
    } else {
      assert n[bc..] == s;
      assert f[|f| - 1] == f[w + 1..][|s| - 1] == s[|s| - 1];
    }
  }

  lemma {:induction false} LastStar(f: string) returns (g: string, s: string)
    requires !StarFree(f)
    ensures StarFree(s) && f == g + "*" + s
    decreases |f|
  {
    var last := f[|f| - 1];
    if last == '*' {
      g, s := f[..|f| - 1], "";
    } else {
      assert !StarFree(f[..|f| - 1]);
      var s';
      g, s' := LastStar(f[..|f| - 1]);
      s := s' + [last];
    }
  }

  /** The matcher decides its filter's glob language, for every name, if and only if the
      filter has no wildcard. */
  lemma DecidesLanguageIffStarFree(f: string)
    ensures (forall n :: Outer(f, n, 0, 0) <==> Matches(f, n)) <==> StarFree(f)
  {
    if StarFree(f) {
      forall n ensures Outer(f, n, 0, 0) <==> Matches(f, n) {
        ExactWithoutStar(f, n);
        StarFreeMatches(f, n);
      }
    } else {
      var g, s := LastStar(f);
      RepeatedMatches(g, s);
      RepeatedRejected(g, s, 0);
      assert g[..0] == "";
      assert Matches(f, Repeated(g, s)) && !Outer(f, Repeated(g, s), 0, 0);
    }
  }
}
