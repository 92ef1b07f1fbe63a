/** GetFileName, IsOnlyDigitsAndPunctuation and AreFilenamesSimilar: the string
    predicates that decide whether the members of a duplicate group look like copies of
    one file. Characters are compared as the C locale does: only 'A'..'Z' have a lower
    case and only '0'..'9' are digits. */
module Names {
  import opened Chars

  /** The index of the last occurrence of c among the first n characters of s, or -1. */
  function LastIndexBefore(s: string, c: char, n: nat): (r: int)
    requires n <= |s|
    ensures -1 <= r < n
    ensures r >= 0 ==> s[r] == c
    ensures forall i :: r < i < n ==> s[i] != c
  {
    if n == 0 then -1
    else if s[n - 1] == c then n - 1
    else LastIndexBefore(s, c, n - 1)
  }

  /** The index of the last occurrence of c in s, or -1 when c does not occur
      (_tcsrchr). */
  function LastIndexOf(s: string, c: char): (r: int)
    ensures -1 <= r < |s|
    ensures r == -1 <==> c !in s
    ensures r >= 0 ==> s[r] == c && c !in s[r + 1..]
  {
    LastIndexBefore(s, c, |s|)
  }

  /** The last segment of a path: what follows the last backslash, or the whole path. */
  function GetFileName(path: string): (name: string)
    ensures |name| <= |path| && name == path[|path| - |name|..]
    ensures '\\' !in name
    ensures name == path || path[|path| - |name| - 1] == '\\'
  {
    path[LastIndexOf(path, '\\') + 1..]
  }

  lemma GetFileNameIdempotent(path: string)
    ensures GetFileName(GetFileName(path)) == GetFileName(path)
  {
  }

  /** The name with the extension at its last dot removed. */
  function StripExtension(name: string): (base: string)
    ensures |base| <= |name| && base == name[..|base|]
    ensures '.' !in name ==> base == name
    ensures '.' in name ==> |base| < |name| && name[|base|] == '.' && '.' !in name[|base| + 1..]
  {
    var dot := LastIndexOf(name, '.');
    if dot < 0 then name else name[..dot]
  }

  /** The base name a file is compared by: its last segment without the extension. */
  function BaseName(path: string): string {
    StripExtension(GetFileName(path))
  }

  /** _totlower in the C locale. */
  function ToLower(c: char): (l: char)
    ensures 'A' <= c <= 'Z' ==> l as int == c as int + 32
    ensures !('A' <= c <= 'Z') ==> l == c
  {
    if 'A' <= c <= 'Z' then (c as int + 32) as char else c
  }

  function FoldCase(s: string): (f: string)
    ensures |f| == |s|
    ensures forall i :: 0 <= i < |s| ==> f[i] == ToLower(s[i])
  {
    if |s| == 0 then [] else [ToLower(s[0])] + FoldCase(s[1..])
  }

  lemma FoldCaseAppend(a: string, b: string)
    ensures FoldCase(a + b) == FoldCase(a) + FoldCase(b)
  {
    assert FoldCase(a + b) == FoldCase(a) + FoldCase(b);
  }

  /** A character IsOnlyDigitsAndPunctuation accepts: a digit or one of ()[]{} and space. */
  predicate DigitOrPunct(c: char) {
    IsDigit(c) || c in "()[]{} "
  }

  /** Every character of s is a digit or one of ()[]{} and space; the empty string
      qualifies. */
  predicate OnlyDigitsAndPunctuation(s: string) {
    forall i :: 0 <= i < |s| ==> DigitOrPunct(s[i])
  }

  /** IsOnlyDigitsAndPunctuation: the loop of the C function as written, which scans
      the string and stops at the first character that is neither. It is kept for
      comparison with the predicate OnlyDigitsAndPunctuation, which the rest of the
      model uses; its contract says the two agree. */
  method IsOnlyDigitsAndPunctuation(s: string) returns (ok: bool)
    ensures ok <==> OnlyDigitsAndPunctuation(s)
    ensures !ok ==> exists i :: 0 <= i < |s| && !DigitOrPunct(s[i])
  {
    var i := 0;
    while i < |s|
      invariant 0 <= i <= |s|
      invariant forall q :: 0 <= q < i ==> DigitOrPunct(s[q])
    {
      if !DigitOrPunct(s[i]) {
        return false;
      }
      i := i + 1;
    }
    return true;
  }

  /** Digits and this punctuation have no upper case, so folding leaves them alone. */
  lemma FoldDigitsAndPunctuation(t: string)
    requires OnlyDigitsAndPunctuation(t)
    ensures FoldCase(t) == t
  {
  }

  /** base1 is a strict case-insensitive prefix of base2 and the rest of base2 is digits
      and punctuation, as in "photo" and "photo (1)". */
  predicate NumberedCopy(base1: string, base2: string) {
    0 < |base1| < |base2|
    && FoldCase(base1) == FoldCase(base2[..|base1|])
    && OnlyDigitsAndPunctuation(base2[|base1|..])
  }

  /** The comparison of two base names. */
  function SimilarBases(base1: string, base2: string): bool {
    if FoldCase(base1) == FoldCase(base2) then true
    else if |base1| == 0 || |base2| == 0 then false
    else if |base1| < |base2| then NumberedCopy(base1, base2)
    else if |base2| < |base1| then NumberedCopy(base2, base1)
    else false
  }

  /** AreFilenamesSimilar: the base names are equal ignoring case, or one is a non-empty
      numbered copy of the other. */
  function AreFilenamesSimilar(name1: string, name2: string): (similar: bool)
    ensures similar <==> Similar(name1, name2)
  {
    SimilarBasesIff(BaseName(name1), BaseName(name2));
    SimilarBases(BaseName(name1), BaseName(name2))
  }

  lemma SimilarReflexive(name: string)
    ensures AreFilenamesSimilar(name, name)
  {
  }

  lemma SimilarSymmetric(name1: string, name2: string)
    ensures AreFilenamesSimilar(name1, name2) == AreFilenamesSimilar(name2, name1)
  {
  }

  /** A description of similarity that does not mention prefixes or lengths: the folded
      base names are equal, or one folded base name is the other's, non-empty, followed
      by a non-empty tail of digits and punctuation. */
  ghost predicate SimilarStems(base1: string, base2: string) {
    var f1 := FoldCase(base1);
    var f2 := FoldCase(base2);
    || f1 == f2
    || (exists t :: f2 == f1 + t && |f1| > 0 && |t| > 0 && OnlyDigitsAndPunctuation(t))
    || (exists t :: f1 == f2 + t && |f2| > 0 && |t| > 0 && OnlyDigitsAndPunctuation(t))
  }

  ghost predicate Similar(name1: string, name2: string) {
    SimilarStems(BaseName(name1), BaseName(name2))
  }

  lemma NumberedCopyTail(base1: string, base2: string)
    ensures NumberedCopy(base1, base2) <==>
      exists t :: FoldCase(base2) == FoldCase(base1) + t && |base1| > 0 && |t| > 0 && OnlyDigitsAndPunctuation(t)
  {
    if NumberedCopy(base1, base2) {
      NumberedCopyHasTail(base1, base2);
    }
    if exists t :: FoldCase(base2) == FoldCase(base1) + t && |base1| > 0 && |t| > 0 && OnlyDigitsAndPunctuation(t) {
      var t :| FoldCase(base2) == FoldCase(base1) + t && |base1| > 0 && |t| > 0 && OnlyDigitsAndPunctuation(t);
      TailMakesNumberedCopy(base1, base2, t);
    }
  }

  lemma NumberedCopyHasTail(base1: string, base2: string)
    requires NumberedCopy(base1, base2)
    ensures var t := base2[|base1|..];
      FoldCase(base2) == FoldCase(base1) + t && |t| > 0 && OnlyDigitsAndPunctuation(t)
  {
    var t := base2[|base1|..];
    assert base2 == base2[..|base1|] + t;
    FoldCaseAppend(base2[..|base1|], t);
    FoldDigitsAndPunctuation(t);
  }

  lemma TailMakesNumberedCopy(base1: string, base2: string, t: string)
    requires FoldCase(base2) == FoldCase(base1) + t && |base1| > 0 && |t| > 0
    requires OnlyDigitsAndPunctuation(t)
    ensures NumberedCopy(base1, base2)
  {
    var n := |base1|;
    assert FoldCase(base2[..n]) == FoldCase(base2)[..n];
    forall i | 0 <= i < |base2| - n
      ensures DigitOrPunct(base2[n..][i])
    {
      assert FoldCase(base2)[n + i] == t[i];
      assert DigitOrPunct(ToLower(base2[n + i]));
    }
  }

  /** The comparison of base names agrees with the description, in both directions. */
  lemma SimilarBasesIff(base1: string, base2: string)
    ensures SimilarBases(base1, base2) <==> SimilarStems(base1, base2)
  {
    NumberedCopyTail(base1, base2);
    NumberedCopyTail(base2, base1);
  }

  lemma GetFileNameWhole(path: string)
    requires '\\' !in path
    ensures GetFileName(path) == path
  {
  }

  lemma LastIndexOfSplit(stem: string, c: char, ext: string)
    requires c !in ext
    ensures LastIndexOf(stem + [c] + ext, c) == |stem|
  {
    var s := stem + [c] + ext;
    assert s[|stem|] == c;
    assert s[|stem| + 1..] == ext;
  }

  /** The base name of the file stem.ext, when the extension holds no dot and neither
      part a backslash. */
  lemma BaseNameSplit(stem: string, ext: string)
    requires '.' !in ext && '\\' !in stem && '\\' !in ext
    ensures BaseName(stem + "." + ext) == stem
  {
    var path := stem + ['.'] + ext;
    assert stem + "." + ext == path;
    assert '\\' !in path by {
      assert forall i :: 0 <= i < |path| ==>
        path[i] == (if i < |stem| then stem[i] else if i == |stem| then '.' else ext[i - |stem| - 1]);
    }
    GetFileNameWhole(path);
    LastIndexOfSplit(stem, '.', ext);
    assert path[..|stem|] == stem;
  }

  /** "photo(1)" is a numbered copy of "photo". */
  lemma SimilarBasesCopy()
    ensures SimilarBases("photo", "photo(1)")
  {
    assert "photo(1)"[..5] == "photo";
    assert "photo(1)"[5..] == "(1)";
    assert OnlyDigitsAndPunctuation("(1)");
  }

  /** Names that differ only in case are similar. */
  lemma SimilarBasesCase()
    ensures SimilarBases("Report", "report")
  {
    assert FoldCase("Report") == FoldCase("report");
  }

  /** Different names of equal length are not similar. */
  lemma SimilarBasesDifferent()
    ensures !SimilarBases("a", "b")
  {
    assert FoldCase("a")[0] != FoldCase("b")[0];
  }

  /** A name extended by letters is not similar. */
  lemma SimilarBasesWord()
    ensures !SimilarBases("photo", "photograph")
  {
    var tail := "photograph"[5..];
    assert tail[0] == 'g';
    assert !DigitOrPunct(tail[0]);
    assert !OnlyDigitsAndPunctuation(tail);
    assert |FoldCase("photo")| != |FoldCase("photograph")|;
  }

  /** The last segment of dir\name is name, when name holds no backslash: the
      directory part of a path never takes part in the comparison. */
  lemma GetFileNameJoin(dir: string, name: string)
    requires '\\' !in name
    ensures GetFileName(dir + "\\" + name) == name
  {
    var path := dir + ['\\'] + name;
    assert dir + "\\" + name == path;
    LastIndexOfSplit(dir, '\\', name);
    assert path[|dir| + 1..] == name;
  }

  /** Only the stems decide: the extensions after the last dot never matter. */
  lemma SimilarIgnoresExtension(stem1: string, ext1: string, stem2: string, ext2: string)
    requires '.' !in ext1 && '\\' !in stem1 && '\\' !in ext1
    requires '.' !in ext2 && '\\' !in stem2 && '\\' !in ext2
    ensures AreFilenamesSimilar(stem1 + "." + ext1, stem2 + "." + ext2) == SimilarBases(stem1, stem2)
  {
    BaseNameSplit(stem1, ext1);
    BaseNameSplit(stem2, ext2);
  }
}
