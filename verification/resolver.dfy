/** HandleDuplicateGroup: the interactive step for one group of identical files. The
    console is a script of input lines (each without its line terminator) and the two
    file-system calls it makes, IsSymbolicLink and DeleteFile, are oracles. The result
    is the outcome the program reaches and how many input lines it read. */
module Resolver {
  import opened Entries
  import opened Names
  import opened KeepLine

  /** What DeleteFile returns: success, or failure with GetLastError's code. */
  datatype DeleteStatus = DeleteOk | DeleteFailed(code: u32)

  /** One line of the deletion log. */
  datatype Report =
    | Deleted(path: string)
    | DeleteError(path: string, code: u32)
    | SymlinkSkipped(path: string)

  datatype Outcome =
    | TooFew                       // fewer than two members: nothing happens
    | Dissimilar                   // "Skipping group with dissimilar file names."
    | KeepPromptClosed             // end of input at the keep prompt
    | Skipped                      // the keep line was exactly "s"
    | Quit                         // the keep line was exactly "q": the program exits
    | NoValidSelection             // "No valid files selected."
    | ConfirmClosed(toDelete: seq<string>)  // end of input at the confirm prompt
    | Cancelled(toDelete: seq<string>)      // "Deletion cancelled."
    | Completed(toDelete: seq<string>, reports: seq<Report>)

  datatype Resolution = Resolution(outcome: Outcome, consumed: nat)

  /** The paths DeleteFile is called on, in order. */
  function Attempted(reports: seq<Report>): (paths: seq<string>)
    ensures |paths| <= |reports|
  {
    if |reports| == 0 then []
    else (if reports[0].SymlinkSkipped? then [] else [reports[0].path]) + Attempted(reports[1..])
  }

  /** The deletion loop: a symbolic link is reported and left alone; every other path is
      passed to DeleteFile, and a failure is reported without stopping the loop. */
  function DeleteAll(toDelete: seq<string>, isSymlink: string -> bool, deleteFile: string -> DeleteStatus)
    : (reports: seq<Report>)
    ensures |reports| == |toDelete|
    ensures forall i :: 0 <= i < |toDelete| ==> reports[i].path == toDelete[i]
    ensures forall i :: 0 <= i < |toDelete| ==>
      (reports[i].SymlinkSkipped? <==> isSymlink(toDelete[i]))
    ensures forall i :: 0 <= i < |toDelete| ==>
      (reports[i].Deleted? <==> !isSymlink(toDelete[i]) && deleteFile(toDelete[i]) == DeleteOk)
    ensures forall i :: 0 <= i < |toDelete| && reports[i].DeleteError? ==>
      deleteFile(toDelete[i]) == DeleteFailed(reports[i].code)
  {
    if |toDelete| == 0 then []
    else
      var p := toDelete[0];
      var report :=
        if isSymlink(p) then SymlinkSkipped(p)
        else match deleteFile(p)
          case DeleteOk => Deleted(p)
          case DeleteFailed(code) => DeleteError(p, code);
      var rest := DeleteAll(toDelete[1..], isSymlink, deleteFile);
      assert forall i :: 1 <= i < |toDelete| ==> ([report] + rest)[i] == rest[i - 1];
      [report] + rest
  }

  /** DeleteFile is called on every path of the list that is not a symbolic link, in
      order, and on nothing else. */
  lemma {:induction false} DeleteAllAttempts(toDelete: seq<string>, isSymlink: string -> bool,
                                             deleteFile: string -> DeleteStatus)
    ensures Attempted(DeleteAll(toDelete, isSymlink, deleteFile)) == NotSymlinks(toDelete, isSymlink)
  {
    if |toDelete| > 0 {
      DeleteAllAttempts(toDelete[1..], isSymlink, deleteFile);
      assert DeleteAll(toDelete, isSymlink, deleteFile)[1..] == DeleteAll(toDelete[1..], isSymlink, deleteFile);
    }
  }

  /** The paths of the list that are not symbolic links, in order. */
  function NotSymlinks(paths: seq<string>, isSymlink: string -> bool): (r: seq<string>)
    ensures forall p :: p in r <==> p in paths && !isSymlink(p)
  {
    if |paths| == 0 then []
    else
      assert forall p :: p in paths <==> p == paths[0] || p in paths[1..] by {
        assert paths == [paths[0]] + paths[1..];
      }
      (if isSymlink(paths[0]) then [] else [paths[0]]) + NotSymlinks(paths[1..], isSymlink)
  }

  /** The similarity check: every member's file name is similar to the first member's. */
  predicate NamesSimilar(group: seq<Entry>)
    requires |group| > 0
    ensures NamesSimilar(group) <==>
      forall i :: 0 <= i < |group| ==> Similar(GetFileName(group[0].path), GetFileName(group[i].path))
  {
    forall i :: 0 <= i < |group| ==>
      AreFilenamesSimilar(GetFileName(group[0].path), GetFileName(group[i].path))
  }

  /** The confirm line says yes: its first character lowercases to 'y'. */
  predicate Confirms(line: string) {
    |line| > 0 && ToLower(line[0]) == 'y'
  }

  /** The paths of the members not kept, from the highest index down. */
  function DeletePaths(group: seq<Entry>, keep: seq<int>): (paths: seq<string>)
    ensures forall p :: p in paths <==> exists i :: 0 <= i < |group| && i + 1 !in keep && group[i].path == p
  {
    var d := DeleteIndices(|group|, keep);
    DeleteIndicesBound(|group|, keep);
    var paths := seq(|d|, t requires 0 <= t < |d| => group[d[t] - 1].path);
    assert forall p :: p in paths <==> exists i :: 0 <= i < |group| && i + 1 !in keep && group[i].path == p by {
      forall p ensures p in paths <==> exists i :: 0 <= i < |group| && i + 1 !in keep && group[i].path == p {
        IndexedPathsMembers(group, keep, paths, p);
      }
    }
    paths
  }

  /** A path is on the list of the paths of the delete indices exactly when it is the
      path of a member not kept. */
  lemma IndexedPathsMembers(group: seq<Entry>, keep: seq<int>, paths: seq<string>, p: string)
    requires |paths| == |DeleteIndices(|group|, keep)|
    requires forall t :: 0 <= t < |paths| ==> 1 <= DeleteIndices(|group|, keep)[t] <= |group|
    requires forall t :: 0 <= t < |paths| ==> paths[t] == group[DeleteIndices(|group|, keep)[t] - 1].path
    ensures p in paths <==> exists i :: 0 <= i < |group| && i + 1 !in keep && group[i].path == p
  {
    var d := DeleteIndices(|group|, keep);
    if p in paths {
      var t :| 0 <= t < |d| && paths[t] == p;
      DeleteIndicesMembers(|group|, keep, d[t]);
      assert group[d[t] - 1].path == p;
    }
    if exists i :: 0 <= i < |group| && i + 1 !in keep && group[i].path == p {
      var i :| 0 <= i < |group| && i + 1 !in keep && group[i].path == p;
      DeleteIndicesMembers(|group|, keep, i + 1);
      var t :| 0 <= t < |d| && d[t] == i + 1;
      assert paths[t] == p;
    }
  }

  lemma DeleteIndicesBound(count: nat, keep: seq<int>)
    ensures forall t :: 0 <= t < |DeleteIndices(count, keep)| ==> 1 <= DeleteIndices(count, keep)[t] <= count
  {
    forall t | 0 <= t < |DeleteIndices(count, keep)|
      ensures 1 <= DeleteIndices(count, keep)[t] <= count
    {
      DeleteIndicesMembers(count, keep, DeleteIndices(count, keep)[t]);
    }
  }

  function HandleDuplicateGroup(group: seq<Entry>, input: seq<string>,
                                isSymlink: string -> bool, deleteFile: string -> DeleteStatus)
    : (res: Resolution)
    ensures res.consumed <= |input| && res.consumed <= 2
    ensures res.outcome == TooFew <==> |group| < 2
    ensures res.outcome.Completed? ==> res.consumed == 2 && Confirms(input[1])
    ensures res.outcome.Completed? ==>
      res.outcome.reports == DeleteAll(res.outcome.toDelete, isSymlink, deleteFile)
    ensures res.outcome.ConfirmClosed? || res.outcome.Cancelled? || res.outcome.Completed? ==>
      && |input| > 0 && |KeepIndices(Tokens(input[0]), |group|)| > 0
      && res.outcome.toDelete == DeletePaths(group, KeepIndices(Tokens(input[0]), |group|))
  {
    if |group| < 2 then Resolution(TooFew, 0)
    else if !NamesSimilar(group) then Resolution(Dissimilar, 0)
    else if |input| == 0 then Resolution(KeepPromptClosed, 0)
    else if input[0] == "s" then Resolution(Skipped, 1)
    else if input[0] == "q" then Resolution(Quit, 1)
    else
      var keep := KeepIndices(Tokens(input[0]), |group|);
      if |keep| == 0 then Resolution(NoValidSelection, 1)
      else
        ConfirmStage(DeletePaths(group, keep), input[1..], isSymlink, deleteFile)
  }

  /** The confirm prompt, once the delete list is formed, with the lines after the keep
      line: end of input leaves the files alone, a line that does not start with y or Y
      cancels, and a yes runs the deletion loop. */
  function ConfirmStage(toDelete: seq<string>, confirm: seq<string>,
                        isSymlink: string -> bool, deleteFile: string -> DeleteStatus)
    : (res: Resolution)
    ensures res.outcome.ConfirmClosed? || res.outcome.Cancelled? || res.outcome.Completed?
    ensures res.outcome.toDelete == toDelete
    ensures res.consumed == 1 + (if |confirm| == 0 then 0 else 1)
    ensures res.outcome.Completed? <==> |confirm| > 0 && Confirms(confirm[0])
    ensures res.outcome.Completed? ==> res.outcome.reports == DeleteAll(toDelete, isSymlink, deleteFile)
  {
    if |confirm| == 0 then Resolution(ConfirmClosed(toDelete), 1)
    else if !Confirms(confirm[0]) then Resolution(Cancelled(toDelete), 2)
    else Resolution(Completed(toDelete, DeleteAll(toDelete, isSymlink, deleteFile)), 2)
  }

  /** A group whose names are not all similar to the first is skipped before any input
      is read and without deleting anything. */
  lemma SimilarityGate(group: seq<Entry>, input: seq<string>,
                       isSymlink: string -> bool, deleteFile: string -> DeleteStatus)
    requires |group| >= 2
    ensures var res := HandleDuplicateGroup(group, input, isSymlink, deleteFile);
      res.outcome == Dissimilar <==> !NamesSimilar(group)
    ensures var res := HandleDuplicateGroup(group, input, isSymlink, deleteFile);
      res.outcome == Dissimilar ==> res.consumed == 0
  {
  }

  /** Files are deleted only when the group passed the similarity check, the keep line
      is neither "s" nor "q" and names at least one member, and a confirm line that
      starts with 'y' or 'Y' follows. */
  lemma DeletionNeedsConfirmation(group: seq<Entry>, input: seq<string>,
                                  isSymlink: string -> bool, deleteFile: string -> DeleteStatus)
    ensures HandleDuplicateGroup(group, input, isSymlink, deleteFile).outcome.Completed? <==>
      && |group| >= 2 && NamesSimilar(group)
      && |input| >= 2 && input[0] != "s" && input[0] != "q"
      && |KeepIndices(Tokens(input[0]), |group|)| > 0
      && Confirms(input[1])
  {
  }

  /** The exact lines "s" and "q" skip and quit; any other line with no valid index,
      such as "0," or "abc", deletes nothing. */
  lemma KeepLineOutcomes(group: seq<Entry>, input: seq<string>,
                         isSymlink: string -> bool, deleteFile: string -> DeleteStatus)
    requires |group| >= 2 && NamesSimilar(group) && |input| > 0
    ensures input[0] == "s" ==> HandleDuplicateGroup(group, input, isSymlink, deleteFile) == Resolution(Skipped, 1)
    ensures input[0] == "q" ==> HandleDuplicateGroup(group, input, isSymlink, deleteFile) == Resolution(Quit, 1)
    ensures input[0] == "0," || input[0] == "abc" ==>
      HandleDuplicateGroup(group, input, isSymlink, deleteFile) == Resolution(NoValidSelection, 1)
  {
    if input[0] == "0," || input[0] == "abc" {
      NothingKeptExamples(|group|);
    }
  }

  /** Once a group passes the similarity check, each outcome that deletes nothing has
      exactly one cause: end of input at the keep prompt, the line "s", the line "q", or
      any other line that names no member. */
  lemma KeepPromptOutcomes(group: seq<Entry>, input: seq<string>,
                           isSymlink: string -> bool, deleteFile: string -> DeleteStatus)
    requires |group| >= 2 && NamesSimilar(group)
    ensures var o := HandleDuplicateGroup(group, input, isSymlink, deleteFile).outcome;
      o == KeepPromptClosed <==> |input| == 0
    ensures var o := HandleDuplicateGroup(group, input, isSymlink, deleteFile).outcome;
      o == Skipped <==> |input| > 0 && input[0] == "s"
    ensures var o := HandleDuplicateGroup(group, input, isSymlink, deleteFile).outcome;
      o == Quit <==> |input| > 0 && input[0] == "q"
    ensures var o := HandleDuplicateGroup(group, input, isSymlink, deleteFile).outcome;
      o == NoValidSelection <==>
        |input| > 0 && input[0] != "s" && input[0] != "q" && |KeepIndices(Tokens(input[0]), |group|)| == 0
  {
  }

  /** The delete list names exactly the members whose 1-based index is not kept, from
      the highest index down. */
  lemma DeletePathsSpec(group: seq<Entry>, keep: seq<int>)
    ensures var paths := DeletePaths(group, keep); var d := DeleteIndices(|group|, keep);
      && |paths| == |d|
      && (forall t :: 0 <= t < |d| ==> 1 <= d[t] <= |group| && paths[t] == group[d[t] - 1].path)
      && (forall j :: j in d <==> 1 <= j <= |group| && j !in keep)
      && (forall a, b :: 0 <= a < b < |d| ==> d[a] > d[b])
  {
    var d := DeleteIndices(|group|, keep);
    DeleteIndicesBound(|group|, keep);
    forall j ensures j in d <==> 1 <= j <= |group| && j !in keep {
      DeleteIndicesMembers(|group|, keep, j);
    }
    forall a, b | 0 <= a < b < |d| ensures d[a] > d[b] {
      DeleteIndicesDescending(|group|, keep, a, b);
    }
  }

  /** Kept and deleted members together make up the group and never overlap: member i
      is deleted exactly when i + 1 is not kept. */
  lemma KeptAndDeletedPartition(group: seq<Entry>, keep: seq<int>, i: nat)
    requires i < |group|
    ensures (i + 1 in keep) != (i + 1 in DeleteIndices(|group|, keep))
  {
    DeleteIndicesMembers(|group|, keep, i + 1);
  }

  /** With members A, B, C and the keep line "2", the delete list is C then A. */
  lemma DeleteOrderExample(a: Entry, b: Entry, c: Entry)
    ensures DeletePaths([a, b, c], [2]) == [c.path, a.path]
  {
    assert DeleteIndices(3, [2]) == [3, 1] by {
      assert DeleteIndices(0, [2]) == [];
      assert DeleteIndices(1, [2]) == [1];
      assert DeleteIndices(2, [2]) == [1];
    }
  }

  /** A symbolic link is never passed to DeleteFile. */
  lemma NoSymlinkDeleted(group: seq<Entry>, input: seq<string>,
                         isSymlink: string -> bool, deleteFile: string -> DeleteStatus, p: string)
    requires HandleDuplicateGroup(group, input, isSymlink, deleteFile).outcome.Completed?
    requires isSymlink(p)
    ensures p !in Attempted(HandleDuplicateGroup(group, input, isSymlink, deleteFile).outcome.reports)
  {
    var o := HandleDuplicateGroup(group, input, isSymlink, deleteFile).outcome;
    DeleteAllAttempts(o.toDelete, isSymlink, deleteFile);
  }

  /** Every path on the list is the path of a member of the group. */
  predicate MemberPaths(paths: seq<string>, group: seq<Entry>) {
    forall t :: 0 <= t < |paths| ==> exists i :: 0 <= i < |group| && group[i].path == paths[t]
  }

  /** A delete list made from a keep list that names a member leaves that member out,
      and names only members. */
  lemma DeletePathsProper(group: seq<Entry>, keep: seq<int>)
    requires |keep| > 0 && 1 <= keep[0] <= |group|
    ensures |DeletePaths(group, keep)| < |group|
    ensures MemberPaths(DeletePaths(group, keep), group)
  {
    DeleteIndicesKeepsOne(|group|, keep, keep[0]);
    DeletePathsSpec(group, keep);
  }

  /** Whatever the lines say, a delete list never names every member: the keep line
      must name at least one of them before a delete list is made. Every path on the
      list is a member's path. */
  lemma NeverDeletesAll(group: seq<Entry>, input: seq<string>,
                        isSymlink: string -> bool, deleteFile: string -> DeleteStatus)
    ensures var o := HandleDuplicateGroup(group, input, isSymlink, deleteFile).outcome;
      (o.ConfirmClosed? || o.Cancelled? || o.Completed?) ==>
        && |o.toDelete| < |group|
        && MemberPaths(o.toDelete, group)
  {
    var o := HandleDuplicateGroup(group, input, isSymlink, deleteFile).outcome;
    if o.ConfirmClosed? || o.Cancelled? || o.Completed? {
      DeletePathsProper(group, KeepIndices(Tokens(input[0]), |group|));
    }
  }
}
