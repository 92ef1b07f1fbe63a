/** CompareHashes and GroupByHash: the entries of one size group are ordered by digest,
    missing digests last, and cut into maximal runs of equal digest. */
module HashGroups {
  import opened Entries
  import opened Seqs
  import opened Ordering
  import opened Runs

  /** memcmp over two byte strings of the same length: the difference of the first pair
      of bytes that differ (compared as unsigned char), 0 when there is none. */
  function Memcmp(a: seq<byte>, b: seq<byte>): (r: int)
    requires |a| == |b|
    ensures r == 0 <==> a == b
    ensures -0xFF <= r <= 0xFF
  {
    if |a| == 0 then 0
    else if a[0] != b[0] then a[0] - b[0]
    else
      assert a == [a[0]] + a[1..] && b == [b[0]] + b[1..];
      Memcmp(a[1..], b[1..])
  }

  /** memcmp's sign is the lexicographic order: a comes first exactly when, after a
      common prefix, a has the smaller byte. */
  lemma {:induction false} MemcmpLexicographic(a: seq<byte>, b: seq<byte>)
    requires |a| == |b|
    ensures Memcmp(a, b) < 0 <==> exists i :: 0 <= i < |a| && a[..i] == b[..i] && a[i] < b[i]
  {
    if |a| > 0 {
      MemcmpLexicographic(a[1..], b[1..]);
      if Memcmp(a, b) < 0 {
        if a[0] < b[0] {
          assert a[..0] == b[..0];
        } else {
          var i :| 0 <= i < |a| - 1 && a[1..][..i] == b[1..][..i] && a[1..][i] < b[1..][i];
          assert a[..i + 1] == [a[0]] + a[1..][..i];
          assert b[..i + 1] == [b[0]] + b[1..][..i];
        }
      }
      if exists i :: 0 <= i < |a| && a[..i] == b[..i] && a[i] < b[i] {
        var i :| 0 <= i < |a| && a[..i] == b[..i] && a[i] < b[i];
        if i > 0 {
          assert a[0] == a[..i][0] == b[..i][0] == b[0];
          assert a[1..][..i - 1] == a[..i][1..] && b[1..][..i - 1] == b[..i][1..];
          assert a[1..][i - 1] == a[i] && b[1..][i - 1] == b[i];
        }
      }
    }
  }

  lemma {:induction false} MemcmpAntisymmetric(a: seq<byte>, b: seq<byte>)
    requires |a| == |b|
    ensures Memcmp(a, b) == -Memcmp(b, a)
  {
    if |a| > 0 && a[0] == b[0] {
      MemcmpAntisymmetric(a[1..], b[1..]);
    }
  }

  lemma {:induction false} MemcmpTransitive(a: seq<byte>, b: seq<byte>, c: seq<byte>)
    requires |a| == |b| == |c|
    requires Memcmp(a, b) <= 0 && Memcmp(b, c) <= 0
    ensures Memcmp(a, c) <= 0
  {
    if |a| > 0 && a[0] == b[0] && b[0] == c[0] {
      MemcmpTransitive(a[1..], b[1..], c[1..]);
    }
  }

  /** qsort's comparator: entries without a digest compare equal to each other and
      after every entry with one; two digests compare by memcmp over their 32 bytes. */
  function CompareHashes(a: Entry, b: Entry): (c: int)
    ensures a.hash.None? && b.hash.None? ==> c == 0
    ensures a.hash.None? && b.hash.Some? ==> c > 0
    ensures a.hash.Some? && b.hash.None? ==> c < 0
    ensures a.hash.Some? && b.hash.Some? ==> (c == 0 <==> a.hash == b.hash)
  {
    if a.hash.None? && b.hash.None? then 0
    else if a.hash.None? then 1
    else if b.hash.None? then -1
    else Memcmp(a.hash.value, b.hash.value)
  }

  lemma CompareHashesPreorder()
    ensures TotalPreorder(CompareHashes)
  {
    forall a: Entry, b: Entry | a.hash.Some? && b.hash.Some?
      ensures Memcmp(a.hash.value, b.hash.value) == -Memcmp(b.hash.value, a.hash.value)
    {
      MemcmpAntisymmetric(a.hash.value, b.hash.value);
    }
    forall a: Entry, b: Entry, c: Entry | CompareHashes(a, b) <= 0 && CompareHashes(b, c) <= 0
      ensures CompareHashes(a, c) <= 0
    {
      if a.hash.Some? && b.hash.Some? && c.hash.Some? {
        MemcmpTransitive(a.hash.value, b.hash.value, c.hash.value);
      }
    }
  }

  /** GroupByHash's run test, with a missing digest equal to nothing, itself included. */
  function SameDigest(a: Entry, b: Entry): bool {
    a.hash.Some? && a.hash == b.hash
  }

  lemma SameDigestLaws()
    ensures PartialEquivalence(SameDigest)
    ensures Convex(SameDigest, CompareHashes)
  {
    forall a: Entry, b: Entry, c: Entry |
      SameDigest(a, c) && CompareHashes(a, b) <= 0 && CompareHashes(b, c) <= 0
      ensures SameDigest(a, b)
    {
      MemcmpAntisymmetric(a.hash.value, b.hash.value);
    }
  }

  /** The digest order of the entries. */
  function SortByHash(group: seq<Entry>): (r: seq<Entry>)
    ensures multiset(r) == multiset(group)
    ensures SortedBy(CompareHashes, r)
  {
    CompareHashesPreorder();
    SortBySorted(group, CompareHashes);
    SortBy(group, CompareHashes)
  }

  /** In the sorted array every entry with a digest precedes every entry without one. */
  lemma MissingSortLast(group: seq<Entry>, i: nat, j: nat)
    requires i < j < |SortByHash(group)|
    requires SortByHash(group)[i].hash.None?
    ensures SortByHash(group)[j].hash.None?
  {
    var s := SortByHash(group);
    assert CompareHashes(s[i], s[j]) <= 0;
  }

  /** GroupByHash: the maximal runs of equal digest of the sorted entries, each reversed
      because it is built by prepending. */
  function GroupByHash(group: seq<Entry>): (groups: seq<seq<Entry>>)
    ensures multiset(Flatten(groups)) == multiset(group)
    ensures forall k :: 0 <= k < |groups| ==> |groups[k]| > 0
    ensures |groups| == 0 <==> |group| == 0
  {
    Groups(SortByHash(group), SameDigest)
  }

  /** The hash groups of a size group lie inside it. */
  lemma HashGroupWithin(group: seq<Entry>, k: nat, x: Entry)
    requires k < |GroupByHash(group)| && x in GroupByHash(group)[k]
    ensures x in group
  {
    FlattenMember(GroupByHash(group), k, x);
    assert x in multiset(Flatten(GroupByHash(group)));
  }

  /** Two entries share a hash group of two or more only if both have a digest and the
      digests are equal. */
  lemma HashGroupMembersEqual(group: seq<Entry>, k: nat, x: Entry, y: Entry)
    requires k < |GroupByHash(group)| && |GroupByHash(group)[k]| > 1
    requires x in GroupByHash(group)[k] && y in GroupByHash(group)[k]
    ensures x.hash.Some? && x.hash == y.hash
  {
    SameDigestLaws();
    GroupMembersSame(SortByHash(group), SameDigest, k, x, y);
  }

  /** Entries of different hash groups never share a digest. */
  lemma HashGroupsSeparate(group: seq<Entry>, k: nat, m: nat, x: Entry, y: Entry)
    requires k < |GroupByHash(group)| && m < |GroupByHash(group)| && k != m
    requires x in GroupByHash(group)[k] && y in GroupByHash(group)[m]
    ensures !SameDigest(x, y)
  {
    SameDigestLaws();
    GroupsSeparate(SortByHash(group), SameDigest, CompareHashes, k, m, x, y);
  }

  /** An entry without a digest is alone in its hash group, so it never reaches the
      handler. */
  lemma MissingDigestAlone(group: seq<Entry>, k: nat, x: Entry)
    requires k < |GroupByHash(group)| && x in GroupByHash(group)[k]
    requires x.hash.None?
    ensures |GroupByHash(group)[k]| == 1
  {
    if |GroupByHash(group)[k]| > 1 {
      HashGroupMembersEqual(group, k, x, x);
    }
  }

  /** The operand pairs memcmp receives in GroupByHash's grouping loop as written: at
      index i it compares the entry's digest with the digest that opened the current
      run. The sequence stops at the first call with a missing operand, where memcmp
      would read through a null pointer and the behaviour is undefined. */
  function MemcmpCalls(sorted: seq<Entry>, i: nat, prev: Option<Digest>)
    : (calls: seq<(Option<Digest>, Option<Digest>)>)
    requires i <= |sorted|
    ensures |calls| <= |sorted| - i
    ensures forall c :: 0 <= c < |calls| - 1 ==> calls[c].0.Some? && calls[c].1.Some?
    decreases |sorted| - i
  {
    if i == |sorted| then []
    else
      var call := (sorted[i].hash, prev);
      if call.0.None? || call.1.None? then [call]
      else
        var rest := MemcmpCalls(sorted, i + 1, if call.0 != call.1 then call.0 else prev);
        assert forall c :: 1 <= c < |rest| + 1 ==> ([call] + rest)[c] == rest[c - 1];
        [call] + rest
  }

  /** As soon as one entry of a size group failed to hash, the loop as written hands
      memcmp a null digest. */
  lemma {:induction false} NullDigestReachesMemcmp(sorted: seq<Entry>, i: nat, prev: Option<Digest>, j: nat)
    requires i <= j < |sorted| && sorted[j].hash.None?
    ensures var calls := MemcmpCalls(sorted, i, prev);
      |calls| > 0 && (calls[|calls| - 1].0.None? || calls[|calls| - 1].1.None?)
    decreases |sorted| - i
  {
    var call := (sorted[i].hash, prev);
    if !(call.0.None? || call.1.None?) {
      var next := if call.0 != call.1 then call.0 else prev;
      NullDigestReachesMemcmp(sorted, i + 1, next, j);
    }
  }

  /** The same for the program's own arguments: a size group with an entry whose digest
      is missing makes GroupByHash call memcmp on a null pointer. */
  lemma GroupByHashAsWrittenReadsNull(group: seq<Entry>, x: Entry)
    requires x in group && x.hash.None?
    ensures var sorted := SortByHash(group);
      var calls := MemcmpCalls(sorted, 0, sorted[0].hash);
      |calls| > 0 && (calls[|calls| - 1].0.None? || calls[|calls| - 1].1.None?)
  {
    var sorted := SortByHash(group);
    assert x in multiset(sorted);
    var j :| 0 <= j < |sorted| && sorted[j] == x;
    NullDigestReachesMemcmp(sorted, 0, sorted[0].hash, j);
  }
}
