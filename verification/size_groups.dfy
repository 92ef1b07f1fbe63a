/** SortFilesBySize, CompareFileSizes and GroupBySize: the traversed entries are sorted
    ascending by their signed 64-bit size and cut into maximal runs of equal size. */
module SizeGroups {
  import opened Entries
  import opened Seqs
  import opened Ordering
  import opened Runs

  /** qsort's comparator: 1, -1 or 0 as the first size is larger, smaller or equal. */
  function CompareFileSizes(a: Entry, b: Entry): (c: int)
    ensures c == 1 || c == -1 || c == 0
    ensures c == 0 <==> a.size == b.size
    ensures c < 0 <==> a.size < b.size
  {
    if a.size > b.size then 1 else if a.size < b.size then -1 else 0
  }

  /** The comparator gives qsort a total preorder, so sorting by it is well defined. */
  lemma CompareFileSizesPreorder()
    ensures TotalPreorder(CompareFileSizes)
    ensures forall a, b :: CompareFileSizes(a, b) == -CompareFileSizes(b, a)
  {
  }

  /** The entries in ascending size order. */
  function SortFilesBySize(files: seq<Entry>): (r: seq<Entry>)
    ensures multiset(r) == multiset(files)
    ensures forall i, j :: 0 <= i < j < |r| ==> r[i].size <= r[j].size
  {
    CompareFileSizesPreorder();
    SortBySorted(files, CompareFileSizes);
    var r := SortBy(files, CompareFileSizes);
    assert forall i, j :: 0 <= i < j < |r| ==> CompareFileSizes(r[i], r[j]) <= 0;
    r
  }

  /** GroupBySize's run test: the element's size equals the size that opened the run. */
  function SameSize(a: Entry, b: Entry): bool {
    a.size == b.size
  }

  /** The size groups of a sorted array: its maximal runs of equal size, each reversed
      because it is built by prepending. */
  function GroupBySize(sorted: seq<Entry>): (groups: seq<seq<Entry>>)
    ensures multiset(Flatten(groups)) == multiset(sorted)
    ensures forall k :: 0 <= k < |groups| ==> |groups[k]| > 0
    ensures |groups| == 0 <==> |sorted| == 0
  {
    Groups(sorted, SameSize)
  }

  /** Both stages together, as the program's main runs them. */
  function SizeGroupsOf(files: seq<Entry>): (groups: seq<seq<Entry>>)
    ensures multiset(Flatten(groups)) == multiset(files)
    ensures |groups| == 0 <==> |files| == 0
  {
    GroupBySize(SortFilesBySize(files))
  }

  lemma SortedBySize(files: seq<Entry>)
    ensures SortedBy(CompareFileSizes, SortFilesBySize(files))
  {
  }

  lemma SameSizeLaws()
    ensures PartialEquivalence(SameSize)
    ensures Convex(SameSize, CompareFileSizes)
  {
  }

  /** Every member of a size group has the size of the group's first member. */
  lemma SizeGroupUniform(files: seq<Entry>, k: nat, x: Entry)
    requires k < |SizeGroupsOf(files)| && x in SizeGroupsOf(files)[k]
    ensures x.size == SizeGroupsOf(files)[k][0].size
  {
    var g := SizeGroupsOf(files);
    if |g[k]| > 1 {
      SameSizeLaws();
      GroupMembersSame(SortFilesBySize(files), SameSize, k, x, g[k][0]);
    }
  }

  /** Members of different size groups have different sizes, and groups come in
      ascending size order. */
  lemma SizeGroupsAscending(files: seq<Entry>, k: nat, m: nat, x: Entry, y: Entry)
    requires k < m < |SizeGroupsOf(files)|
    requires x in SizeGroupsOf(files)[k] && y in SizeGroupsOf(files)[m]
    ensures x.size < y.size
  {
    var s := SortFilesBySize(files);
    GroupMember(s, SameSize, k, x);
    GroupMember(s, SameSize, m, y);
    var a, i, b, j := RunPositions(s, SameSize, 0, k, m, x, y);
    SameSizeLaws();
    NotSameAcross(s, SameSize, CompareFileSizes, a, i, b, j);
  }

  /** The sizes that occur among the entries. */
  ghost function Sizes(files: seq<Entry>): set<int> {
    set e | e in files :: e.size
  }

  /** The size of each group, in group order. */
  function GroupSizes(groups: seq<seq<Entry>>): (r: seq<int>)
    requires forall k :: 0 <= k < |groups| ==> |groups[k]| > 0
    ensures |r| == |groups|
    ensures forall k :: 0 <= k < |groups| ==> r[k] == groups[k][0].size
  {
    if |groups| == 0 then [] else [groups[0][0].size] + GroupSizes(groups[1..])
  }

  /** A strictly increasing sequence has as many distinct elements as it has elements. */
  lemma {:induction false} IncreasingCard(s: seq<int>)
    requires forall i, j :: 0 <= i < j < |s| ==> s[i] < s[j]
    ensures |set x | x in s| == |s|
  {
    if |s| > 0 {
      IncreasingCard(s[1..]);
      assert (set x | x in s) == {s[0]} + (set x | x in s[1..]) by {
        assert s == [s[0]] + s[1..];
      }
      assert s[0] !in (set x | x in s[1..]);
    }
  }

  /** The group sizes strictly increase. */
  lemma GroupSizesIncreasing(files: seq<Entry>)
    ensures forall i, j :: 0 <= i < j < |GroupSizes(SizeGroupsOf(files))| ==>
      GroupSizes(SizeGroupsOf(files))[i] < GroupSizes(SizeGroupsOf(files))[j]
  {
    var g := SizeGroupsOf(files);
    var sizes := GroupSizes(g);
    forall i, j | 0 <= i < j < |sizes|
      ensures sizes[i] < sizes[j]
    {
      SizeGroupsAscending(files, i, j, g[i][0], g[j][0]);
    }
  }

  /** Every size that occurs is the size of some group. */
  lemma SizeHasGroup(files: seq<Entry>, z: int)
    requires z in Sizes(files)
    ensures z in GroupSizes(SizeGroupsOf(files))
  {
    var g := SizeGroupsOf(files);
    var e :| e in files && e.size == z;
    assert e in multiset(Flatten(g));
    var k := FlattenIndex(g, e);
    SizeGroupUniform(files, k, e);
    assert GroupSizes(g)[k] == z;
  }

  /** Every group's size occurs among the entries. */
  lemma GroupHasSize(files: seq<Entry>, z: int)
    requires z in GroupSizes(SizeGroupsOf(files))
    ensures z in Sizes(files)
  {
    var g := SizeGroupsOf(files);
    var sizes := GroupSizes(g);
    var k :| 0 <= k < |sizes| && sizes[k] == z;
    assert g[k][0] in Flatten(g) by {
      FlattenMember(g, k, g[k][0]);
    }
    assert g[k][0] in multiset(files);
  }

  /** There is exactly one size group per distinct size. */
  lemma SizeGroupCount(files: seq<Entry>)
    ensures |SizeGroupsOf(files)| == |Sizes(files)|
  {
    var sizes := GroupSizes(SizeGroupsOf(files));
    var distinct := set x | x in sizes;
    GroupSizesIncreasing(files);
    IncreasingCard(sizes);
    assert |distinct| == |SizeGroupsOf(files)|;
    forall z | z in Sizes(files) ensures z in distinct {
      SizeHasGroup(files, z);
    }
    forall z | z in distinct ensures z in Sizes(files) {
      GroupHasSize(files, z);
    }
    assert distinct == Sizes(files);
  }
}
