/** Sequence helpers shared by the grouping stages: the program builds every list by
    prepending, which reverses it, and hands groups around as lists of lists. */
module Seqs {

  function Reverse<T>(s: seq<T>): (r: seq<T>)
    ensures |r| == |s|
    ensures forall i :: 0 <= i < |s| ==> r[i] == s[|s| - 1 - i]
  {
    if |s| == 0 then [] else Reverse(s[1..]) + [s[0]]
  }

  lemma ReverseMultiset<T>(s: seq<T>)
    ensures multiset(Reverse(s)) == multiset(s)
    ensures forall x :: x in Reverse(s) <==> x in s
  {
    if |s| > 0 {
      ReverseMultiset(s[1..]);
      assert s == [s[0]] + s[1..];
    }
  }

  lemma ReverseAppend<T>(a: seq<T>, b: seq<T>)
    ensures Reverse(a + b) == Reverse(b) + Reverse(a)
  {
    var l, r := Reverse(a + b), Reverse(b) + Reverse(a);
    forall i | 0 <= i < |l| ensures l[i] == r[i] {
      if i < |b| {
        assert l[i] == (a + b)[|a| + |b| - 1 - i] == b[|b| - 1 - i];
      } else {
        assert l[i] == (a + b)[|a| + |b| - 1 - i] == a[|a| - 1 - (i - |b|)];
      }
    }
  }

  /** Joining keeps the head of a non-empty first part, and the tail of the join is the
      tail of that part joined to the second. */
  lemma AppendTail<T>(a: seq<T>, b: seq<T>)
    requires |a| > 0
    ensures (a + b)[0] == a[0] && (a + b)[1..] == a[1..] + b
  {
  }

  /** A non-empty sequence joined to another is its head in front of the rest. */
  lemma ConsAppend<T>(a: seq<T>, b: seq<T>)
    requires |a| > 0
    ensures a + b == [a[0]] + (a[1..] + b)
  {
    assert a == [a[0]] + a[1..];
  }

  /** Prepending a reversed part and then another reversed part reverses their join. */
  lemma ReverseChain<T>(here: seq<T>, rest: seq<T>, acc: seq<T>, next: seq<T>, total: seq<T>)
    requires next == Reverse(here) + acc
    requires total == Reverse(rest) + next
    ensures total == Reverse(here + rest) + acc
  {
    ReverseAppend(here, rest);
    assert Reverse(rest) + (Reverse(here) + acc) == (Reverse(rest) + Reverse(here)) + acc;
  }

  /** Concatenation of all groups, in order. */
  function Flatten<T>(groups: seq<seq<T>>): seq<T>
  {
    if |groups| == 0 then [] else groups[0] + Flatten(groups[1..])
  }

  lemma FlattenMember<T>(groups: seq<seq<T>>, k: nat, x: T)
    requires k < |groups| && x in groups[k]
    ensures x in Flatten(groups)
  {
    if k > 0 {
      FlattenMember(groups[1..], k - 1, x);
    }
  }

  /** The group an element of the concatenation comes from. */
  lemma {:induction false} FlattenIndex<T>(groups: seq<seq<T>>, x: T) returns (k: nat)
    requires x in Flatten(groups)
    ensures k < |groups| && x in groups[k]
  {
    if x in groups[0] {
      k := 0;
    } else {
      var k' := FlattenIndex(groups[1..], x);
      k := k' + 1;
    }
  }

  lemma {:induction false} FlattenAppend<T>(a: seq<seq<T>>, b: seq<seq<T>>)
    ensures Flatten(a + b) == Flatten(a) + Flatten(b)
  {
    if |a| == 0 {
      assert a + b == b;
    } else {
      FlattenAppend(a[1..], b);
      assert (a + b)[0] == a[0];
      assert (a + b)[1..] == a[1..] + b;
      assert Flatten(a + b) == a[0] + (Flatten(a[1..]) + Flatten(b));
    }
  }

  /** Every group reversed, as the program's prepend-built groups are. */
  function ReverseEach<T>(groups: seq<seq<T>>): (r: seq<seq<T>>)
    ensures |r| == |groups|
    ensures forall k :: 0 <= k < |groups| ==> r[k] == Reverse(groups[k])
  {
    if |groups| == 0 then [] else [Reverse(groups[0])] + ReverseEach(groups[1..])
  }

  lemma {:induction false} ReverseEachMultiset<T>(groups: seq<seq<T>>)
    ensures multiset(Flatten(ReverseEach(groups))) == multiset(Flatten(groups))
  {
    if |groups| > 0 {
      ReverseEachMultiset(groups[1..]);
      ReverseMultiset(groups[0]);
      assert ReverseEach(groups)[1..] == ReverseEach(groups[1..]);
    }
  }
}
