/** ComputeFileHash and ComputeHashes. Opening and reading the file, and SHA-256 itself
    (FIPS 180-4, through CryptoAPI), are outside the model: the file system is an oracle
    telling what a read of a path yields, and the digest is an uninterpreted
    deterministic function from bytes to 32-byte values. */
module Hashing {
  import opened Entries
  import opened Seqs

  /** What reading a file yields: CreateFile fails, or the bytes the read loop received
      before it stopped, and whether it stopped at end of file (true) or because
      ReadFile reported an error (false). A failing CryptoAPI call ends the function the
      same way a failing CreateFile does, so OpenFailed stands for those as well. */
  datatype ReadResult = OpenFailed | Opened(data: seq<byte>, complete: bool)

  /** ComputeFileHash as written: when ReadFile fails part-way, the loop simply ends and
      the digest of the bytes read so far is reported as a success. */
  function ComputeFileHashAsWritten(r: ReadResult, sha256: seq<byte> -> Digest): (h: Option<Digest>)
    ensures h.None? <==> r.OpenFailed?
    ensures r.Opened? ==> h == Some(sha256(r.data))
  {
    match r
    case OpenFailed => None
    case Opened(data, _) => Some(sha256(data))
  }

  /** A read that fails after the bytes p is reported exactly like a complete read of a
      file whose whole content is p: a longer file interrupted there and the file holding
      just p share a digest, land in one hash group and are offered as duplicates. */
  lemma PartialReadCollides(sha256: seq<byte> -> Digest, p: seq<byte>)
    ensures ComputeFileHashAsWritten(Opened(p, false), sha256)
         == ComputeFileHashAsWritten(Opened(p, true), sha256)
         == Some(sha256(p))
    ensures ComputeFileHash(Opened(p, false), sha256) == None
    ensures ComputeFileHash(Opened(p, true), sha256) == Some(sha256(p))
  {
  }

  /** ComputeFileHash: a digest of the whole content, or none when the file cannot be
      opened or read to the end. */
  function ComputeFileHash(r: ReadResult, sha256: seq<byte> -> Digest): (h: Option<Digest>)
    ensures h.Some? <==> r.Opened? && r.complete
    ensures h.Some? ==> h.value == sha256(r.data)
  {
    if r.Opened? && r.complete then Some(sha256(r.data)) else None
  }

  /** Where the read succeeds the corrected function agrees with the code as written. */
  lemma ComputeFileHashRefines(r: ReadResult, sha256: seq<byte> -> Digest)
    ensures ComputeFileHash(r, sha256).Some? ==>
      ComputeFileHash(r, sha256) == ComputeFileHashAsWritten(r, sha256)
    ensures ComputeFileHash(r, sha256) != ComputeFileHashAsWritten(r, sha256) <==>
      r.Opened? && !r.complete
  {
  }

  /** Equal complete contents give equal digests: only a read that reached end of file
      stands for the content, so digests compare contents. */
  lemma EqualContentEqualDigest(r1: ReadResult, r2: ReadResult, sha256: seq<byte> -> Digest)
    requires r1.Opened? && r1.complete && r2.Opened? && r2.complete && r1.data == r2.data
    ensures ComputeFileHash(r1, sha256) == ComputeFileHash(r2, sha256) != None
  {
  }

  /** The entries of one size group with their digests filled in, and the paths for
      which the error line was printed, in list order. */
  datatype Hashed = Hashed(entries: seq<Entry>, errors: seq<string>)

  /** ComputeHashes: every entry is hashed in turn; a failure prints an error, leaves the
      digest unset and does not stop the loop. */
  function ComputeHashes(group: seq<Entry>, readFile: string -> ReadResult, sha256: seq<byte> -> Digest)
    : (h: Hashed)
    ensures |h.entries| == |group|
    ensures forall i :: 0 <= i < |group| ==>
      h.entries[i] == group[i].(hash := ComputeFileHash(readFile(group[i].path), sha256))
    ensures forall p :: p in h.errors <==>
      exists i :: 0 <= i < |group| && group[i].path == p && h.entries[i].hash.None?
    ensures |h.errors| <= |group|
  {
    if |group| == 0 then Hashed([], [])
    else
      var e := group[0];
      var digest := ComputeFileHash(readFile(e.path), sha256);
      var rest := ComputeHashes(group[1..], readFile, sha256);
      var entries := [e.(hash := digest)] + rest.entries;
      var errors := (if digest.None? then [e.path] else []) + rest.errors;
      assert forall i :: 1 <= i < |group| ==> entries[i] == rest.entries[i - 1] && group[i] == group[1..][i - 1];
      Hashed(entries, errors)
  }

  /** One entry prints one error line, for its own path, exactly when it cannot be
      hashed. */
  lemma ComputeHashesSingle(e: Entry, readFile: string -> ReadResult, sha256: seq<byte> -> Digest)
    ensures ComputeHashes([e], readFile, sha256).errors ==
      if ComputeFileHash(readFile(e.path), sha256).None? then [e.path] else []
  {
    assert [e][1..] == [];
  }

  /** The paths of the entries that cannot be hashed, in list order: the error lines of
      ComputeHashes without its per-entry contract, on which the append law is proved. */
  function Unreadable(group: seq<Entry>, readFile: string -> ReadResult, sha256: seq<byte> -> Digest)
    : seq<string>
    decreases |group|
  {
    if |group| == 0 then []
    else
      var first := if ComputeFileHash(readFile(group[0].path), sha256).None? then [group[0].path] else [];
      first + Unreadable(group[1..], readFile, sha256)
  }

  /** The unreadable paths of a joined list are those of its first part and then those of
      its second. */
  lemma {:induction false} UnreadableAppend(a: seq<Entry>, b: seq<Entry>, readFile: string -> ReadResult,
                                            sha256: seq<byte> -> Digest)
    ensures Unreadable(a + b, readFile, sha256) == Unreadable(a, readFile, sha256) + Unreadable(b, readFile, sha256)
    decreases |a|
  {
    if |a| == 0 {
      assert a + b == b;
    } else {
      UnreadableAppend(a[1..], b, readFile, sha256);
      AppendTail(a, b);
    }
  }

  /** ComputeHashes prints one error line per unreadable entry, in list order. */
  lemma {:induction false} ComputeHashesErrors(group: seq<Entry>, readFile: string -> ReadResult,
                                               sha256: seq<byte> -> Digest)
    ensures ComputeHashes(group, readFile, sha256).errors == Unreadable(group, readFile, sha256)
    decreases |group|
  {
    if |group| > 0 {
      ComputeHashesErrors(group[1..], readFile, sha256);
      ComputeHashesCons(group, readFile, sha256);
    }
  }

  /** Hashing a list is hashing its two parts in turn: the error lines of the first part
      come first, each in list order. */
  lemma ComputeHashesAppend(a: seq<Entry>, b: seq<Entry>, readFile: string -> ReadResult,
                            sha256: seq<byte> -> Digest)
    ensures ComputeHashes(a + b, readFile, sha256).errors ==
      ComputeHashes(a, readFile, sha256).errors + ComputeHashes(b, readFile, sha256).errors
  {
    ComputeHashesErrors(a + b, readFile, sha256);
    ComputeHashesErrors(a, readFile, sha256);
    ComputeHashesErrors(b, readFile, sha256);
    UnreadableAppend(a, b, readFile, sha256);
  }

  /** A non-empty list is hashed as its first entry and then the rest. */
  lemma ComputeHashesCons(group: seq<Entry>, readFile: string -> ReadResult, sha256: seq<byte> -> Digest)
    requires |group| > 0
    ensures var digest := ComputeFileHash(readFile(group[0].path), sha256);
      && ComputeHashes(group, readFile, sha256).errors ==
           (if digest.None? then [group[0].path] else []) + ComputeHashes(group[1..], readFile, sha256).errors
      && ComputeHashes(group, readFile, sha256).entries ==
           [group[0].(hash := digest)] + ComputeHashes(group[1..], readFile, sha256).entries
  {
  }

  /** Every hashed entry is an entry of the group with its path and size unchanged. */
  lemma ComputeHashesKeepsPaths(group: seq<Entry>, readFile: string -> ReadResult, sha256: seq<byte> -> Digest,
                                x: Entry)
    requires x in ComputeHashes(group, readFile, sha256).entries
    ensures exists e :: e in group && e.path == x.path && e.size == x.size
  {
    var h := ComputeHashes(group, readFile, sha256);
    var i :| 0 <= i < |h.entries| && h.entries[i] == x;
    assert group[i].path == x.path;
  }
}
