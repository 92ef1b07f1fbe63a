/** Cutting a sorted sequence into maximal runs, the way GroupBySize and GroupByHash do:
    walk the array, remember the element that opened the current run, and start a new
    run whenever the next element does not match it. The program builds each run by
    prepending, so a group is a run reversed. */
module Runs {
  import opened Seqs
  import opened Ordering

  /** The end of the run that opens at index `start`, scanning from index i: the first
      index whose element does not match s[start], or |s|. */
  function RunEnd<T>(s: seq<T>, same: (T, T) -> bool, start: nat, i: nat): (e: nat)
    requires start < i <= |s|
    ensures i <= e <= |s|
    ensures forall q :: i <= q < e ==> same(s[start], s[q])
    ensures e < |s| ==> !same(s[start], s[e])
    decreases |s| - i
  {
    if i == |s| || !same(s[start], s[i]) then i else RunEnd(s, same, start, i + 1)
  }

  /** The maximal runs of s[from..], each opened by its first element. */
  function RunsFrom<T>(s: seq<T>, same: (T, T) -> bool, from: nat): (r: seq<seq<T>>)
    requires from <= |s|
    ensures forall k :: 0 <= k < |r| ==> |r[k]| > 0
    ensures |r| == 0 <==> from == |s|
    ensures |r| <= |s| - from
    decreases |s| - from
  {
    if from == |s| then []
    else
      var e := RunEnd(s, same, from, from + 1);
      [s[from..e]] + RunsFrom(s, same, e)
  }

  /** The maximal runs of s. */
  function Runs<T>(s: seq<T>, same: (T, T) -> bool): (r: seq<seq<T>>)
    ensures forall k :: 0 <= k < |r| ==> |r[k]| > 0
    ensures |r| == 0 <==> |s| == 0
    ensures |r| <= |s|
  {
    RunsFrom(s, same, 0)
  }

  lemma RunsFromUnfold<T>(s: seq<T>, same: (T, T) -> bool, from: nat)
    requires from < |s|
    ensures var e := RunEnd(s, same, from, from + 1);
      && RunsFrom(s, same, from)[0] == s[from..e]
      && RunsFrom(s, same, from)[1..] == RunsFrom(s, same, e)
  {
    var e := RunEnd(s, same, from, from + 1);
    assert RunsFrom(s, same, from) == [s[from..e]] + RunsFrom(s, same, e);
  }

  /** Together the runs are s[from..], in order. */
  lemma {:induction false} RunsFlatten<T>(s: seq<T>, same: (T, T) -> bool, from: nat)
    requires from <= |s|
    ensures Flatten(RunsFrom(s, same, from)) == s[from..]
    decreases |s| - from
  {
    if from < |s| {
      RunsFromUnfold(s, same, from);
      var e := RunEnd(s, same, from, from + 1);
      RunsFlatten(s, same, e);
      assert s[from..e] + s[e..] == s[from..];
    }
  }

  /** Every member of a run of s[from..] sits at some index of s at or after from. */
  lemma {:induction false} RunsMember<T>(s: seq<T>, same: (T, T) -> bool, from: nat, k: nat, x: T)
    returns (j: nat)
    requires from <= |s| && k < |RunsFrom(s, same, from)| && x in RunsFrom(s, same, from)[k]
    ensures from <= j < |s| && s[j] == x
    decreases |s| - from
  {
    RunsFromUnfold(s, same, from);
    var e := RunEnd(s, same, from, from + 1);
    if k == 0 {
      var q :| 0 <= q < e - from && s[from..e][q] == x;
      j := from + q;
    } else {
      j := RunsMember(s, same, e, k - 1, x);
    }
  }

  /** Run k of s[from..] is a slice s[a..b]; every member is the same as s[a], which
      opened it, and b is |s| or the index of the element that opens run k + 1. */
  lemma {:induction false} RunAt<T>(s: seq<T>, same: (T, T) -> bool, from: nat, k: nat)
    returns (a: nat, b: nat)
    requires from <= |s| && k < |RunsFrom(s, same, from)|
    ensures from <= a < b <= |s|
    ensures RunsFrom(s, same, from)[k] == s[a..b]
    ensures forall q :: a < q < b ==> same(s[a], s[q])
    ensures b < |s| ==> !same(s[a], s[b])
    ensures k + 1 < |RunsFrom(s, same, from)| ==> b < |s| && RunsFrom(s, same, from)[k + 1][0] == s[b]
    decreases |s| - from
  {
    RunsFromUnfold(s, same, from);
    var e := RunEnd(s, same, from, from + 1);
    if k == 0 {
      a, b := from, e;
      if 1 < |RunsFrom(s, same, from)| {
        RunsFromUnfold(s, same, e);
        var e' := RunEnd(s, same, e, e + 1);
        assert RunsFrom(s, same, from)[1] == RunsFrom(s, same, e)[0] == s[e..e'];
      }
    } else {
      a, b := RunAt(s, same, e, k - 1);
    }
  }

  /** Members of one run are the same as the element that opened it. */
  lemma RunUniform<T>(s: seq<T>, same: (T, T) -> bool, k: nat, i: nat)
    requires k < |Runs(s, same)| && 0 < i < |Runs(s, same)[k]|
    ensures same(Runs(s, same)[k][0], Runs(s, same)[k][i])
  {
    var a, b := RunAt(s, same, 0, k);
    assert Runs(s, same)[k][i] == s[a + i];
  }

  /** A run ends only where the next element is not the same as the one that opened it. */
  lemma RunMaximal<T>(s: seq<T>, same: (T, T) -> bool, k: nat)
    requires k + 1 < |Runs(s, same)|
    ensures !same(Runs(s, same)[k][0], Runs(s, same)[k + 1][0])
  {
    var a, b := RunAt(s, same, 0, k);
    assert Runs(s, same)[k][0] == s[a];
  }

  /** `same` is symmetric and transitive. It need not be reflexive: a missing digest is
      not the same as anything, itself included. */
  ghost predicate PartialEquivalence<T(!new)>(same: (T, T) -> bool) {
    && (forall a, b :: same(a, b) ==> same(b, a))
    && (forall a, b, c :: same(a, b) && same(b, c) ==> same(a, c))
  }

  /** Every class of `same` is an interval of the comparator's order. */
  ghost predicate Convex<T(!new)>(same: (T, T) -> bool, cmp: (T, T) -> int) {
    forall a, b, c :: same(a, c) && cmp(a, b) <= 0 && cmp(b, c) <= 0 ==> same(a, b)
  }

  /** Members of one run of length two or more are pairwise the same. */
  lemma RunMembersSame<T(!new)>(run: seq<T>, same: (T, T) -> bool, x: T, y: T)
    requires PartialEquivalence(same)
    requires |run| > 1
    requires forall i :: 0 < i < |run| ==> same(run[0], run[i])
    requires x in run && y in run
    ensures same(x, y)
  {
    assert same(run[0], run[1]) && same(run[1], run[0]);
    assert same(run[0], run[0]);
    var i :| 0 <= i < |run| && run[i] == x;
    var j :| 0 <= j < |run| && run[j] == y;
    assert same(run[0], x) && same(run[0], y);
  }

  /** s[i] lies in the run opened at a, the next run opens at b, and s[j] lies at or
      after b: then s[i] and s[j] are not the same. */
  lemma NotSameAcross<T(!new)>(
    s: seq<T>, same: (T, T) -> bool, cmp: (T, T) -> int, a: nat, i: nat, b: nat, j: nat)
    requires SortedBy(cmp, s)
    requires PartialEquivalence(same) && Convex(same, cmp)
    requires a <= i < b <= j < |s|
    requires i == a || same(s[a], s[i])
    requires !same(s[a], s[b])
    ensures !same(s[i], s[j])
  {
    if b < j {
      assert cmp(s[a], s[b]) <= 0 && cmp(s[b], s[j]) <= 0;
    }
    assert !same(s[a], s[j]);
  }

  /** Positions in s witnessing that x lies in run k of s[from..], which opens at a, that
      run k + 1 opens at b, and that y, a member of a later run, lies at or after b. */
  lemma {:induction false} RunPositions<T>(
    s: seq<T>, same: (T, T) -> bool, from: nat, k: nat, m: nat, x: T, y: T)
    returns (a: nat, i: nat, b: nat, j: nat)
    requires from <= |s| && k < m < |RunsFrom(s, same, from)|
    requires x in RunsFrom(s, same, from)[k] && y in RunsFrom(s, same, from)[m]
    ensures a <= i < b <= j < |s|
    ensures s[i] == x && s[j] == y
    ensures i == a || same(s[a], s[i])
    ensures !same(s[a], s[b])
    decreases |s| - from
  {
    RunsFromUnfold(s, same, from);
    var e := RunEnd(s, same, from, from + 1);
    var runs := RunsFrom(s, same, from);
    assert runs[m] == RunsFrom(s, same, e)[m - 1];
    if k == 0 {
      a, b := from, e;
      i := FirstRunPosition(s, same, from, x);
      j := RunsMember(s, same, e, m - 1, y);
    } else {
      assert runs[k] == RunsFrom(s, same, e)[k - 1];
      a, i, b, j := RunPositions(s, same, e, k - 1, m - 1, x, y);
    }
  }

  /** The position of a member of the first run of s[from..]. */
  lemma FirstRunPosition<T>(s: seq<T>, same: (T, T) -> bool, from: nat, x: T) returns (i: nat)
    requires from < |s| && x in RunsFrom(s, same, from)[0]
    ensures from <= i < RunEnd(s, same, from, from + 1) && s[i] == x
    ensures i == from || same(s[from], s[i])
  {
    RunsFromUnfold(s, same, from);
    var e := RunEnd(s, same, from, from + 1);
    var q :| 0 <= q < e - from && s[from..e][q] == x;
    i := from + q;
  }

  /** Members of two different runs of a sorted sequence are never the same. */
  lemma RunsSeparate<T(!new)>(
    s: seq<T>, same: (T, T) -> bool, cmp: (T, T) -> int, k: nat, m: nat, x: T, y: T)
    requires SortedBy(cmp, s)
    requires PartialEquivalence(same) && Convex(same, cmp)
    requires k < m < |Runs(s, same)|
    requires x in Runs(s, same)[k] && y in Runs(s, same)[m]
    ensures !same(x, y)
  {
    var a, i, b, j := RunPositions(s, same, 0, k, m, x, y);
    NotSameAcross(s, same, cmp, a, i, b, j);
  }

  /** The groups the program builds: every run, reversed by prepending. */
  function Groups<T>(s: seq<T>, same: (T, T) -> bool): (g: seq<seq<T>>)
    ensures multiset(Flatten(g)) == multiset(s)
    ensures forall k :: 0 <= k < |g| ==> |g[k]| > 0
    ensures |g| == 0 <==> |s| == 0
    ensures |g| <= |s|
  {
    var r := Runs(s, same);
    ReverseEachMultiset(r);
    RunsFlatten(s, same, 0);
    assert s[0..] == s;
    ReverseEach(r)
  }

  lemma GroupMember<T>(s: seq<T>, same: (T, T) -> bool, k: nat, x: T)
    requires k < |Groups(s, same)|
    ensures x in Groups(s, same)[k] <==> x in Runs(s, same)[k]
  {
    ReverseMultiset(Runs(s, same)[k]);
  }

  /** Two or more members in one group are pairwise the same. */
  lemma GroupMembersSame<T(!new)>(s: seq<T>, same: (T, T) -> bool, k: nat, x: T, y: T)
    requires PartialEquivalence(same)
    requires k < |Groups(s, same)| && |Groups(s, same)[k]| > 1
    requires x in Groups(s, same)[k] && y in Groups(s, same)[k]
    ensures same(x, y)
  {
    GroupMember(s, same, k, x);
    GroupMember(s, same, k, y);
    var r := Runs(s, same);
    forall i | 0 < i < |r[k]|
      ensures same(r[k][0], r[k][i])
    {
      RunUniform(s, same, k, i);
    }
    RunMembersSame(r[k], same, x, y);
  }

  /** Members of two different groups of a sorted sequence are never the same. */
  lemma GroupsSeparate<T(!new)>(
    s: seq<T>, same: (T, T) -> bool, cmp: (T, T) -> int, k: nat, m: nat, x: T, y: T)
    requires SortedBy(cmp, s)
    requires PartialEquivalence(same) && Convex(same, cmp)
    requires k < |Groups(s, same)| && m < |Groups(s, same)| && k != m
    requires x in Groups(s, same)[k] && y in Groups(s, same)[m]
    ensures !same(x, y)
  {
    GroupMember(s, same, k, x);
    GroupMember(s, same, m, y);
    if k < m {
      RunsSeparate(s, same, cmp, k, m, x, y);
    } else {
      RunsSeparate(s, same, cmp, m, k, y, x);
    }
  }
}
