/** TraverseDirectory: the walk of a directory tree that collects every regular file.
    The file system is given as a finite tree: what FindFirstFile and FindNextFile
    return for a directory is the directory's listing, in enumeration order, or
    Unlistable when FindFirstFile fails. */
module Traverse {
  import opened Entries
  import opened Seqs

  /** One WIN32_FIND_DATA record: a file with the two DWORD halves of its size, or a
      directory (FILE_ATTRIBUTE_DIRECTORY set) with what enumerating it would return. */
  datatype Node =
    | FileNode(name: string, sizeHigh: u32, sizeLow: u32)
    | DirNode(name: string, listing: Listing)

  datatype Listing = Unlistable | Listed(children: seq<Node>)

  /** The entries "." and ".." that every enumeration returns and the walk skips. */
  predicate IsDotName(name: string) {
    name == "." || name == ".."
  }

  /** The full path of a child: the directory, a backslash, the child's name. */
  function ChildPath(dir: string, name: string): (path: string)
    ensures |path| == |dir| + 1 + |name|
    ensures path[..|dir| + 1] == dir + "\\"
  {
    dir + "\\" + name
  }

  /** The entry the walk makes for a file: full path, QuadPart size, no digest yet. */
  function FileEntry(dir: string, node: Node): (e: Entry)
    requires node.FileNode?
    ensures e.path == ChildPath(dir, node.name) && e.hash == None
    ensures e.size == QuadPart(node.sizeHigh, node.sizeLow)
  {
    Entry(ChildPath(dir, node.name), QuadPart(node.sizeHigh, node.sizeLow), None)
  }

  /** The path lies below the directory: it starts with the directory and a backslash. */
  predicate Below(path: string, dir: string) {
    |path| > |dir| && path[..|dir| + 1] == dir + "\\"
  }

  /** The walk puts new entries in front of acc and leaves acc itself at the tail; every
      new entry has no digest yet and a path below dir. */
  predicate Extends(r: seq<Entry>, acc: seq<Entry>, dir: string) {
    && |acc| <= |r| && r[|r| - |acc|..] == acc
    && forall i :: 0 <= i < |r| - |acc| ==> r[i].hash == None && Below(r[i].path, dir)
  }

  /** A path below a subdirectory of dir is below dir. */
  lemma BelowSub(path: string, dir: string, name: string)
    requires Below(path, ChildPath(dir, name))
    ensures Below(path, dir)
  {
    var sub := ChildPath(dir, name);
    assert path[..|dir| + 1] == path[..|sub| + 1][..|dir| + 1];
  }

  /** TraverseDirectory as written: every file found is put in front of the list built
      so far (acc), and a subdirectory is walked in place when recursive is set. An
      unlistable directory leaves the list as it was. */
  function TraverseDirectory(dir: string, listing: Listing, recursive: bool, acc: seq<Entry>)
    : (r: seq<Entry>)
    ensures Extends(r, acc, dir)
    decreases listing, 1
  {
    match listing
    case Unlistable => acc
    case Listed(children) => TraverseChildren(dir, children, recursive, acc)
  }

  /** The do-while loop over the listing. */
  function TraverseChildren(dir: string, children: seq<Node>, recursive: bool, acc: seq<Entry>)
    : (r: seq<Entry>)
    ensures Extends(r, acc, dir)
    decreases children, 0
  {
    if |children| == 0 then acc
    else
      var next := Visit(dir, children[0], recursive, acc);
      var r := TraverseChildren(dir, children[1..], recursive, next);
      assert r[|r| - |acc|..] == r[|r| - |next|..][|next| - |acc|..];
      assert forall i :: |r| - |next| <= i < |r| - |acc| ==> r[i] == next[i - (|r| - |next|)];
      r
  }

  /** One pass of the loop: skip "." and "..", put a file in front of the list, walk a
      subdirectory only when recursive is set. */
  function Visit(dir: string, child: Node, recursive: bool, acc: seq<Entry>): (r: seq<Entry>)
    ensures Extends(r, acc, dir)
    decreases child, 2
  {
    if IsDotName(child.name) then acc
    else match child
      case FileNode(_, _, _) => [FileEntry(dir, child)] + acc
      case DirNode(name, listing) =>
        if recursive then
          var r := TraverseDirectory(ChildPath(dir, name), listing, recursive, acc);
          assert forall i :: 0 <= i < |r| - |acc| ==> Below(r[i].path, dir) by {
            forall i | 0 <= i < |r| - |acc| ensures Below(r[i].path, dir) {
              BelowSub(r[i].path, dir, name);
            }
          }
          r
        else acc
  }

  /** The files in the order the enumeration meets them, the files of a subdirectory
      where the subdirectory is met. */
  function Discovered(dir: string, listing: Listing, recursive: bool): (r: seq<Entry>)
    ensures forall i :: 0 <= i < |r| ==> r[i].hash == None
    ensures forall i :: 0 <= i < |r| ==> |r[i].path| > |dir| && r[i].path[..|dir| + 1] == dir + "\\"
    decreases listing, 1
  {
    match listing
    case Unlistable => []
    case Listed(children) => DiscoveredIn(dir, children, recursive)
  }

  function DiscoveredIn(dir: string, children: seq<Node>, recursive: bool): (r: seq<Entry>)
    ensures forall i :: 0 <= i < |r| ==> r[i].hash == None
    ensures forall i :: 0 <= i < |r| ==> |r[i].path| > |dir| && r[i].path[..|dir| + 1] == dir + "\\"
    decreases children, 0
  {
    if |children| == 0 then []
    else
      var child := children[0];
      var here := DiscoveredAt(dir, child, recursive);
      var rest := DiscoveredIn(dir, children[1..], recursive);
      assert forall i :: |here| <= i < |here| + |rest| ==> (here + rest)[i] == rest[i - |here|];
      here + rest
  }

  /** What one record of the listing contributes. */
  function DiscoveredAt(dir: string, child: Node, recursive: bool): (r: seq<Entry>)
    ensures forall i :: 0 <= i < |r| ==> r[i].hash == None
    ensures forall i :: 0 <= i < |r| ==> |r[i].path| > |dir| && r[i].path[..|dir| + 1] == dir + "\\"
    decreases child, 2
  {
    if IsDotName(child.name) then []
    else match child
      case FileNode(_, _, _) => [FileEntry(dir, child)]
      case DirNode(name, listing) =>
        if recursive then
          var sub := ChildPath(dir, name);
          var r := Discovered(sub, listing, recursive);
          assert forall i :: 0 <= i < |r| ==> r[i].path[..|dir| + 1] == r[i].path[..|sub| + 1][..|dir| + 1];
          r
        else []
  }

  /** The list the walk builds is the discovery order reversed, in front of what the
      list held before: prepending reverses. */
  lemma {:induction false} TraverseIsReversedDiscovery(dir: string, listing: Listing, recursive: bool,
                                                       acc: seq<Entry>)
    ensures TraverseDirectory(dir, listing, recursive, acc) == Reverse(Discovered(dir, listing, recursive)) + acc
    decreases listing, 1
  {
    match listing
    case Unlistable =>
    case Listed(children) => TraverseChildrenReversed(dir, children, recursive, acc);
  }

  lemma {:induction false} TraverseChildrenReversed(dir: string, children: seq<Node>, recursive: bool,
                                                    acc: seq<Entry>)
    ensures TraverseChildren(dir, children, recursive, acc) == Reverse(DiscoveredIn(dir, children, recursive)) + acc
    decreases children, 0
  {
    if |children| > 0 {
      var here := DiscoveredAt(dir, children[0], recursive);
      var rest := DiscoveredIn(dir, children[1..], recursive);
      var next := Visit(dir, children[0], recursive, acc);
      assert TraverseChildren(dir, children, recursive, acc) == TraverseChildren(dir, children[1..], recursive, next);
      assert DiscoveredIn(dir, children, recursive) == here + rest;
      VisitReversed(dir, children[0], recursive, acc);
      TraverseChildrenReversed(dir, children[1..], recursive, next);
      ReverseChain(here, rest, acc, next, TraverseChildren(dir, children, recursive, acc));
    }
  }

  /** One record of the listing, visited with the list acc built so far. */
  lemma {:induction false} VisitReversed(dir: string, child: Node, recursive: bool, acc: seq<Entry>)
    ensures Visit(dir, child, recursive, acc) == Reverse(DiscoveredAt(dir, child, recursive)) + acc
    decreases child, 2
  {
    if !IsDotName(child.name) && child.DirNode? && recursive {
      TraverseIsReversedDiscovery(ChildPath(dir, child.name), child.listing, recursive, acc);
    }
  }

  /** The list the program walks on holds the discovered entries, each as often. */
  lemma WalkHoldsDiscovered(dir: string, listing: Listing, recursive: bool)
    ensures multiset(TraverseDirectory(dir, listing, recursive, [])) == multiset(Discovered(dir, listing, recursive))
    ensures |TraverseDirectory(dir, listing, recursive, [])| == |Discovered(dir, listing, recursive)|
  {
    TraverseIsReversedDiscovery(dir, listing, recursive, []);
    assert Reverse(Discovered(dir, listing, recursive)) + [] == Reverse(Discovered(dir, listing, recursive));
    ReverseMultiset(Discovered(dir, listing, recursive));
  }

  /** An entry is discovered in a listing exactly when one of its records contributes it. */
  lemma {:induction false} DiscoveredInMembers(dir: string, children: seq<Node>, recursive: bool, e: Entry)
    ensures e in DiscoveredIn(dir, children, recursive) <==>
      exists i :: 0 <= i < |children| && e in DiscoveredAt(dir, children[i], recursive)
  {
    if |children| > 0 {
      DiscoveredInMembers(dir, children[1..], recursive, e);
      assert DiscoveredIn(dir, children, recursive)
        == DiscoveredAt(dir, children[0], recursive) + DiscoveredIn(dir, children[1..], recursive);
      if exists i :: 0 <= i < |children| && e in DiscoveredAt(dir, children[i], recursive) {
        var i :| 0 <= i < |children| && e in DiscoveredAt(dir, children[i], recursive);
        if i > 0 {
          assert children[1..][i - 1] == children[i];
        }
      }
      if exists i :: 0 <= i < |children| - 1 && e in DiscoveredAt(dir, children[1..][i], recursive) {
        var i :| 0 <= i < |children| - 1 && e in DiscoveredAt(dir, children[1..][i], recursive);
        assert children[1..][i] == children[i + 1];
      }
    }
  }

  /** Without -r the walk lists exactly the files of the directory itself, "." and ".."
      excluded, with their full paths and sizes. */
  lemma NonRecursiveListsFiles(dir: string, children: seq<Node>, e: Entry)
    ensures e in Discovered(dir, Listed(children), false) <==>
      exists i :: 0 <= i < |children| && children[i].FileNode? && !IsDotName(children[i].name)
        && e == FileEntry(dir, children[i])
  {
    DiscoveredInMembers(dir, children, false, e);
  }

  /** With -r an entry is found exactly when it is a file of the directory or is found
      by the walk of one of its subdirectories. */
  lemma RecursiveMembers(dir: string, children: seq<Node>, e: Entry)
    ensures e in Discovered(dir, Listed(children), true) <==>
      exists i :: 0 <= i < |children| && !IsDotName(children[i].name) && (
        || (children[i].FileNode? && e == FileEntry(dir, children[i]))
        || (children[i].DirNode? && e in Discovered(ChildPath(dir, children[i].name), children[i].listing, true)))
  {
    DiscoveredInMembers(dir, children, true, e);
  }

  /** -r only adds: every file found without it is found with it. */
  lemma RecursiveIncludesTop(dir: string, listing: Listing, e: Entry)
    requires e in Discovered(dir, listing, false)
    ensures e in Discovered(dir, listing, true)
  {
    var children := listing.children;
    NonRecursiveListsFiles(dir, children, e);
    RecursiveMembers(dir, children, e);
    var i :| 0 <= i < |children| && children[i].FileNode? && !IsDotName(children[i].name)
      && e == FileEntry(dir, children[i]);
  }
}
