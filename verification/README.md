# DuplicateFinder, modelled in Dafny

This project models the duplicate-file engine of `DuplicateFinder/c/DuplicateFinder.c`, a
Windows console program. It walks a directory, optionally recursively. It groups the files
it finds by size, and hashes every size group of two or more with SHA-256. It regroups each
such size group by digest, and offers every digest group of two or more to the user. The
user then chooses which files to keep, confirms, and the rest are deleted. Symbolic links
are never deleted.

The model is functional. Entries are immutable records (`Entries.Entry`: path, 64-bit size,
optional 32-byte digest). Every list the program builds by prepending is modelled in the
order the program builds it.

The world outside the program enters as parameters:

- the directory tree is a tree datatype and `listingOf`;
- reading a file is `readFile`;
- the digest is an uninterpreted `sha256`;
- `IsSymbolicLink` and `DeleteFile` are `isSymlink` and `deleteFile`;
- the console is a script of input lines.

The modules follow the program's structure:

| module | program part |
|---|---|
| `Entries` | the `FileEntry` record, `LARGE_INTEGER` size |
| `Seqs`, `Ordering`, `Runs` | list reversal, the `qsort` stand-in, cutting a sorted array into maximal runs |
| `Traverse` | `TraverseDirectory` over a directory tree |
| `SizeGroups` | `CompareFileSizes`, `SortFilesBySize`, `GroupBySize` |
| `Hashing` | `ComputeFileHash`, `ComputeHashes` |
| `HashGroups` | `CompareHashes`, `GroupByHash` (memcmp included) |
| `Chars` | the C-locale character classes of `_istdigit` and the white space `_ttoi` skips |
| `Names` | `GetFileName`, `IsOnlyDigitsAndPunctuation`, `AreFilenamesSimilar` |
| `KeepLine` | the `_tcstok`/`_ttoi` keep-line parsing and the delete list of `HandleDuplicateGroup` |
| `Resolver` | `HandleDuplicateGroup` as an outcome-returning state machine |
| `Finder` | `_tmain`: argument parsing, the two dispatch loops, `CountFiles` |

Some ordering conventions follow the code exactly:

- The file list comes out of the walk in reverse discovery order (`Traverse.TraverseIsReversedDiscovery`).
- Every size group and digest group is its run of the sorted array, reversed.
- The delete list runs from the highest index down. For members A, B, C with keep line "2", it is C then A (`Resolver.DeleteOrderExample`).

The properties about a whole run are stated over the events of `Finder.FindDuplicates`. They are:

- every group offered has two or more members with one size and one present digest, all of them found by the walk;
- an error line only names a file of a size group of two or more;
- no symbolic link is passed to DeleteFile;
- no group loses all of its members;
- a run the user does not quit offers every digest group of two or more of every size group of two or more, and prints an error line for every member of those size groups that could not be hashed (`Finder.EveryDuplicateGroupOffered`);
- each handled group gets the outcome HandleDuplicateGroup gives on the input left by the groups before it, so the script is read in turn from the front; in particular "q" at the first group offered ends the run right after it (`Finder.FirstOfferQuits`).

## Model

| member | source | states |
|---|---|---|
| Entries.QuadPart | DuplicateFinder/c/DuplicateFinder.c:113-114 | the 64-bit size assembled from the two 32-bit halves is their value modulo 2^64, read as signed: exact below 2^63, negative exactly when the high half has its top bit set |
| Finder.ParseArgs | DuplicateFinder/c/DuplicateFinder.c:40-46 | recursive exactly when some argument is "-r"; the directory is empty exactly when every argument is "-r" or empty, and otherwise it is the first argument that is neither |
| Finder.ParseFrom | DuplicateFinder/c/DuplicateFinder.c:40-46 | the argument loop keeps its invariant: "-r" seen so far, and the directory unset until the first argument that is neither "-r" nor empty, which it then holds |
| Traverse.Discovered | DuplicateFinder/c/DuplicateFinder.c:87-122 | every entry found has no digest yet and a path of the form dir\name below the walked directory |
| Traverse.TraverseDirectory | DuplicateFinder/c/DuplicateFinder.c:87-122 | the walk leaves the list it was given at the tail, and every entry it puts in front has no digest yet and a path below the walked directory |
| Traverse.TraverseIsReversedDiscovery | DuplicateFinder/c/DuplicateFinder.c:97-119 | the prepending walk leaves the file list equal to the discovery order reversed, in front of what the list held before |
| Traverse.TraverseChildrenReversed | DuplicateFinder/c/DuplicateFinder.c:97-119 | the same for the remaining entries of one listing |
| Traverse.VisitReversed | DuplicateFinder/c/DuplicateFinder.c:98-118 | the same for one directory entry: skipped, prepended, or walked into |
| Traverse.WalkHoldsDiscovered | DuplicateFinder/c/DuplicateFinder.c:52-53 | the list main starts from holds exactly the discovered entries, as a multiset |
| Traverse.DiscoveredInMembers | DuplicateFinder/c/DuplicateFinder.c:97-119 | an entry is found in a listing exactly when it is found at one of its children |
| Traverse.NonRecursiveListsFiles | DuplicateFinder/c/DuplicateFinder.c:98-118 | without -r the list holds exactly the non-directory children other than "." and "..", with path dir\name and size from the two size halves |
| Traverse.RecursiveMembers | DuplicateFinder/c/DuplicateFinder.c:106-110 | with -r an entry is found exactly when it is a file child of the directory or is found in the walk of a child directory |
| Traverse.RecursiveIncludesTop | DuplicateFinder/c/DuplicateFinder.c:106-110 | everything the flat walk finds, the recursive walk finds too |
| SizeGroups.CompareFileSizes | DuplicateFinder/c/DuplicateFinder.c:209-214 | the comparator returns -1, 0 or 1, zero exactly for equal sizes and negative exactly when the first size is smaller |
| SizeGroups.CompareFileSizesPreorder | DuplicateFinder/c/DuplicateFinder.c:209-214 | the comparator is a total preorder and antisymmetric, as qsort requires |
| SizeGroups.SortFilesBySize | DuplicateFinder/c/DuplicateFinder.c:192-207 | the array is a permutation of the list, in ascending order of size |
| SizeGroups.SortedBySize | DuplicateFinder/c/DuplicateFinder.c:204 | the array is ordered by the comparator qsort was given |
| SizeGroups.GroupBySize | DuplicateFinder/c/DuplicateFinder.c:216-246 | the groups hold exactly the sorted entries as a multiset, none is empty, and there are none exactly when there are no entries |
| SizeGroups.SizeGroupsOf | DuplicateFinder/c/DuplicateFinder.c:56-60 | the size groups partition the file list: same multiset, no groups for no files |
| SizeGroups.SameSizeLaws | DuplicateFinder/c/DuplicateFinder.c:236-244 | equal size is an equivalence and is convex in the size order, so runs of the sorted array are whole classes |
| SizeGroups.SizeGroupUniform | DuplicateFinder/c/DuplicateFinder.c:236-245 | every member of a size group has the group's size |
| SizeGroups.SizeGroupsAscending | DuplicateFinder/c/DuplicateFinder.c:216-246 | every member of an earlier group is strictly smaller than every member of a later one |
| SizeGroups.GroupSizesIncreasing | DuplicateFinder/c/DuplicateFinder.c:216-246 | the group sizes strictly increase |
| SizeGroups.SizeHasGroup | DuplicateFinder/c/DuplicateFinder.c:216-246 | every size in the list is the size of some group |
| SizeGroups.GroupHasSize | DuplicateFinder/c/DuplicateFinder.c:216-246 | every group size is the size of some entry |
| SizeGroups.SizeGroupCount | DuplicateFinder/c/DuplicateFinder.c:219-230 | the number of groups equals the number of distinct sizes |
| Ordering.SortBy | DuplicateFinder/c/DuplicateFinder.c:204 | the sort returns a permutation of its input |
| Ordering.SortBySorted | DuplicateFinder/c/DuplicateFinder.c:204 | under a total preorder the result is ordered by the comparator |
| Ordering.InsertSorted | DuplicateFinder/c/DuplicateFinder.c:204 | inserting into an ordered array keeps it ordered |
| Runs.Groups | DuplicateFinder/c/DuplicateFinder.c:236-245 | the prepend-built groups hold exactly the array's elements as a multiset, none is empty, at most one per element |
| Runs.RunUniform | DuplicateFinder/c/DuplicateFinder.c:237-243 | every element of a run matches the element that opened it |
| Runs.RunMaximal | DuplicateFinder/c/DuplicateFinder.c:237-241 | a run ends only at an element that does not match its opener |
| Runs.RunsFlatten | DuplicateFinder/c/DuplicateFinder.c:236-245 | the runs, in order, concatenate to the array |
| Runs.GroupMembersSame | DuplicateFinder/c/DuplicateFinder.c:236-245 | under an equivalence, two members of one group of two or more match |
| Runs.GroupsSeparate | DuplicateFinder/c/DuplicateFinder.c:236-245 | on an array sorted compatibly with the matching, members of different groups never match |
| Hashing.ComputeFileHashAsWritten | DuplicateFinder/c/DuplicateFinder.c:124-179 | as written: a digest exactly when the file opens, the digest of whatever bytes were read, whether the read loop ended at end of file or on an error |
| Hashing.PartialReadCollides | DuplicateFinder/c/DuplicateFinder.c:145 | as written, a read that fails after the bytes p gets the same digest as a file whose content is p; corrected, it gets none |
| Hashing.ComputeFileHash | DuplicateFinder/c/DuplicateFinder.c:124-179 | a digest exactly when the file opened and was read to the end, and then it is the SHA-256 of its bytes |
| Hashing.ComputeFileHashRefines | DuplicateFinder/c/DuplicateFinder.c:145-152 | the corrected hash agrees with the code wherever it yields a digest, and differs exactly on reads that failed part-way |
| Hashing.EqualContentEqualDigest | DuplicateFinder/c/DuplicateFinder.c:137-166 | two files read completely with equal bytes get the same, present digest |
| Hashing.ComputeHashes | DuplicateFinder/c/DuplicateFinder.c:181-190 | every entry gets its own file's digest with path and size unchanged; a path gets an error line exactly when its hashing failed; one failure does not stop the loop |
| Hashing.ComputeHashesKeepsPaths | DuplicateFinder/c/DuplicateFinder.c:181-190 | every hashed entry has the path and size of an entry of the group |
| Hashing.ComputeHashesSingle | DuplicateFinder/c/DuplicateFinder.c:184-186 | one entry prints exactly one error line, for its own path, when it cannot be hashed, and none otherwise |
| Hashing.ComputeHashesCons | DuplicateFinder/c/DuplicateFinder.c:183-189 | a non-empty list is hashed as its first entry, then the rest: its error line, if any, comes before all the others |
| Hashing.UnreadableAppend | DuplicateFinder/c/DuplicateFinder.c:183-189 | the unreadable paths of two lists joined are those of the first and then those of the second |
| Hashing.ComputeHashesAppend | DuplicateFinder/c/DuplicateFinder.c:181-190 | hashing two lists joined prints the error lines of the first and then those of the second |
| HashGroups.Memcmp | DuplicateFinder/c/DuplicateFinder.c:254 | memcmp over two digests is zero exactly when they are equal, bounded by the byte difference |
| HashGroups.MemcmpLexicographic | DuplicateFinder/c/DuplicateFinder.c:254 | memcmp is negative exactly when the first digest precedes the second lexicographically |
| HashGroups.MemcmpAntisymmetric | DuplicateFinder/c/DuplicateFinder.c:254 | swapping the operands negates memcmp |
| HashGroups.MemcmpTransitive | DuplicateFinder/c/DuplicateFinder.c:254 | memcmp's order is transitive |
| HashGroups.CompareHashes | DuplicateFinder/c/DuplicateFinder.c:248-255 | missing digests compare equal to each other and after every present digest; present digests compare equal exactly when they are equal |
| HashGroups.CompareHashesPreorder | DuplicateFinder/c/DuplicateFinder.c:248-255 | the digest comparator is a total preorder, as qsort requires |
| HashGroups.SameDigestLaws | DuplicateFinder/c/DuplicateFinder.c:287-295 | sharing a present digest is symmetric and transitive, never holds for a missing digest, and is convex in the digest order |
| HashGroups.SortByHash | DuplicateFinder/c/DuplicateFinder.c:262-269 | the sorted array is a permutation of the group, ordered by the digest comparator |
| HashGroups.MissingSortLast | DuplicateFinder/c/DuplicateFinder.c:251-253 | after the sort, every entry behind one without a digest has no digest either |
| HashGroups.GroupByHash | DuplicateFinder/c/DuplicateFinder.c:257-299 | the digest groups of a size group partition it, none is empty, and there are none only for an empty group |
| HashGroups.HashGroupWithin | DuplicateFinder/c/DuplicateFinder.c:257-299 | every digest group lies inside the size group it was made from |
| HashGroups.HashGroupMembersEqual | DuplicateFinder/c/DuplicateFinder.c:283-296 | two members of a digest group of two or more both have a digest, and it is the same |
| HashGroups.HashGroupsSeparate | DuplicateFinder/c/DuplicateFinder.c:283-296 | members of different digest groups never share a present digest |
| HashGroups.MissingDigestAlone | DuplicateFinder/c/DuplicateFinder.c:283-296 | an entry without a digest is alone in its digest group, so it is never offered |
| HashGroups.MemcmpCalls | DuplicateFinder/c/DuplicateFinder.c:283-292 | as written, the operand pairs handed to memcmp: all present except possibly the last, where the loop stops |
| HashGroups.NullDigestReachesMemcmp | DuplicateFinder/c/DuplicateFinder.c:288 | as written, once the sorted array holds an entry without a digest, memcmp is called with a missing operand |
| HashGroups.GroupByHashAsWrittenReadsNull | DuplicateFinder/c/DuplicateFinder.c:269-288 | as written, any size group with a file that failed to hash makes GroupByHash pass a null digest to memcmp |
| Names.LastIndexBefore | DuplicateFinder/c/DuplicateFinder.c:303 | the index found holds the character and no later index before the bound does |
| Names.LastIndexOf | DuplicateFinder/c/DuplicateFinder.c:303 | -1 exactly when the character is absent; otherwise the index of its last occurrence |
| Names.GetFileName | DuplicateFinder/c/DuplicateFinder.c:302-305 | the result is a suffix of the path with no backslash, either the whole path or the part after a backslash |
| Names.GetFileNameIdempotent | DuplicateFinder/c/DuplicateFinder.c:302-305 | taking the last segment twice changes nothing |
| Names.GetFileNameWhole | DuplicateFinder/c/DuplicateFinder.c:302-305 | a path without a backslash is its own last segment |
| Names.GetFileNameJoin | DuplicateFinder/c/DuplicateFinder.c:302-305 | the last segment of dir\name is name |
| Names.StripExtension | DuplicateFinder/c/DuplicateFinder.c:324-327 | the base is a prefix of the name; the whole name when it has no dot, otherwise what precedes its last dot |
| Names.ToLower | DuplicateFinder/c/DuplicateFinder.c:433 | lower-casing moves exactly 'A'..'Z' up by 32 and leaves everything else |
| Names.FoldCase | DuplicateFinder/c/DuplicateFinder.c:329 | the case-insensitive comparison folds every character independently |
| Names.IsOnlyDigitsAndPunctuation | DuplicateFinder/c/DuplicateFinder.c:308-315 | true exactly when every character is a digit or one of ()[]{} and space; false names the offending character |
| Names.FoldDigitsAndPunctuation | DuplicateFinder/c/DuplicateFinder.c:310 | a tail of digits and punctuation is unchanged by case folding |
| Names.AreFilenamesSimilar | DuplicateFinder/c/DuplicateFinder.c:318-341 | two names are similar exactly when their folded bases are equal, or one is the other, non-empty, followed by a non-empty tail of digits and punctuation |
| Names.SimilarReflexive | DuplicateFinder/c/DuplicateFinder.c:318-341 | every name is similar to itself |
| Names.SimilarSymmetric | DuplicateFinder/c/DuplicateFinder.c:318-341 | similarity does not depend on the order of the names |
| Names.NumberedCopyTail | DuplicateFinder/c/DuplicateFinder.c:331-339 | the prefix test holds exactly when the longer folded base is the shorter one plus a non-empty tail of digits and punctuation |
| Names.SimilarBasesIff | DuplicateFinder/c/DuplicateFinder.c:329-340 | the comparison of base names agrees with that description, in both directions |
| Names.BaseNameSplit | DuplicateFinder/c/DuplicateFinder.c:321-327 | the base of stem.ext is stem when ext holds no dot |
| Names.SimilarIgnoresExtension | DuplicateFinder/c/DuplicateFinder.c:321-327 | extensions never affect similarity: only the stems are compared |
| Names.SimilarBasesCopy | DuplicateFinder/c/DuplicateFinder.c:333-335 | "photo" and "photo(1)" are similar |
| Names.SimilarBasesCase | DuplicateFinder/c/DuplicateFinder.c:329 | "Report" and "report" are similar |
| Names.SimilarBasesDifferent | DuplicateFinder/c/DuplicateFinder.c:329-340 | "a" and "b" are not similar |
| Names.SimilarBasesWord | DuplicateFinder/c/DuplicateFinder.c:333-340 | "photo" and "photograph" are not similar |
| KeepLine.Tokens | DuplicateFinder/c/DuplicateFinder.c:382-390 | the tokens are the non-empty comma-free pieces of the line |
| KeepLine.TokensFrom | DuplicateFinder/c/DuplicateFinder.c:382-390 | every token the tokenizer yields is non-empty and comma-free |
| KeepLine.TokensConcat | DuplicateFinder/c/DuplicateFinder.c:382-390 | the tokens concatenate to the line with its commas removed |
| KeepLine.TokensJoin | DuplicateFinder/c/DuplicateFinder.c:382-390 | tokenizing the comma-join of non-empty comma-free pieces gives back those pieces |
| KeepLine.TokensExamples | DuplicateFinder/c/DuplicateFinder.c:382-390 | "0," gives ["0"], "abc" gives ["abc"], "3, 1" gives ["3", " 1"] |
| KeepLine.SkipSpace | DuplicateFinder/c/DuplicateFinder.c:384 | _ttoi skips exactly the leading white space |
| KeepLine.DigitPrefix | DuplicateFinder/c/DuplicateFinder.c:384 | _ttoi reads exactly the longest prefix of digits |
| KeepLine.Clamp | DuplicateFinder/c/DuplicateFinder.c:384 | the value stays in the int range and is unchanged when already in it |
| KeepLine.Atoi | DuplicateFinder/c/DuplicateFinder.c:384 | the value of a token is always in the int range; its value for numerals, white space and letters is stated by the lemmas below |
| KeepLine.AtoiDecimal | DuplicateFinder/c/DuplicateFinder.c:384 | white space, a decimal numeral and a non-digit tail convert to the numeral's value |
| KeepLine.AtoiNumeral | DuplicateFinder/c/DuplicateFinder.c:384 | white space, any digits and a non-digit tail convert to the digits' value, clamped |
| KeepLine.AtoiAfterSkip | DuplicateFinder/c/DuplicateFinder.c:384 | a token that starts with digits once its white space is skipped converts to their value |
| KeepLine.AtoiAfterSpace | DuplicateFinder/c/DuplicateFinder.c:384 | leading white space never changes the value |
| KeepLine.AtoiDigits | DuplicateFinder/c/DuplicateFinder.c:384 | a token that starts with a digit converts to its leading digits' value |
| KeepLine.AtoiNoDigits | DuplicateFinder/c/DuplicateFinder.c:384 | a token with no digits after the white space and an optional sign converts to 0 |
| KeepLine.AtoiZero | DuplicateFinder/c/DuplicateFinder.c:384 | "0" converts to 0 |
| KeepLine.AtoiLetters | DuplicateFinder/c/DuplicateFinder.c:384 | "abc" converts to 0 |
| KeepLine.KeepIndices | DuplicateFinder/c/DuplicateFinder.c:383-390 | at most one kept index per token, each in 1..count |
| KeepLine.KeepIndicesMembers | DuplicateFinder/c/DuplicateFinder.c:383-390 | a value is kept exactly when it is in 1..count and some token converts to it |
| KeepLine.KeepIndicesSingle | DuplicateFinder/c/DuplicateFinder.c:384-388 | one token is kept exactly when its value is in 1..count |
| KeepLine.NothingKeptExamples | DuplicateFinder/c/DuplicateFinder.c:382-396 | the keep lines "0," and "abc" keep nothing |
| KeepLine.DeleteIndices | DuplicateFinder/c/DuplicateFinder.c:398-417 | there are at most as many indices to delete as members; which indices, and in what order, is stated by the lemmas below |
| KeepLine.DeleteIndicesMembers | DuplicateFinder/c/DuplicateFinder.c:401-417 | an index is deleted exactly when it is in 1..count and not kept |
| KeepLine.DeleteIndicesDescending | DuplicateFinder/c/DuplicateFinder.c:409-413 | the prepend-built delete list runs strictly from the highest index down |
| KeepLine.DeleteIndicesKeepsOne | DuplicateFinder/c/DuplicateFinder.c:398-417 | when one index in 1..count is kept, fewer than count are deleted |
| KeepLine.DeleteListLoop | DuplicateFinder/c/DuplicateFinder.c:398-417 | the loop that walks the members from index 1, searches the keep list for each index and prepends the unkept ones builds exactly the delete list: the members not kept, from the highest index down |
| Resolver.DeleteAll | DuplicateFinder/c/DuplicateFinder.c:439-455 | one report per path, in order: skipped exactly for symbolic links, deleted exactly when DeleteFile succeeds on a non-link, otherwise DeleteFile's error code; a failure does not stop the loop |
| Resolver.NotSymlinks | DuplicateFinder/c/DuplicateFinder.c:441 | a path is kept exactly when it is in the list and not a symbolic link |
| Resolver.NamesSimilar | DuplicateFinder/c/DuplicateFinder.c:348-361 | the similarity check passes exactly when every member's file name is similar, in the sense above, to the first member's |
| Resolver.DeleteAllAttempts | DuplicateFinder/c/DuplicateFinder.c:439-455 | DeleteFile is called on exactly the paths that are not symbolic links, in order |
| Resolver.HandleDuplicateGroup | DuplicateFinder/c/DuplicateFinder.c:343-456 | at most two lines read; nothing happens exactly for groups of fewer than two; whenever a delete list is formed, the keep line exists, keeps at least one member, and the list is the delete list of that keep line; completion needs two lines and a confirming one, and runs the deletion loop on the list |
| Resolver.ConfirmStage | DuplicateFinder/c/DuplicateFinder.c:427-439 | once a delete list is formed, the outcome carries it unchanged; deletion runs exactly when a confirm line exists and starts with y or Y, and then runs the deletion loop on that list |
| Resolver.SimilarityGate | DuplicateFinder/c/DuplicateFinder.c:348-361 | a group of two or more is skipped as dissimilar exactly when some name is not similar to the first, and then no line is read |
| Resolver.DeletionNeedsConfirmation | DuplicateFinder/c/DuplicateFinder.c:373-439 | deletion happens exactly when the names are similar, the keep line is neither "s" nor "q" and keeps someone, and a confirm line starting with y or Y follows |
| Resolver.DeletePaths | DuplicateFinder/c/DuplicateFinder.c:398-417 | a path is on the delete list exactly when it is the path of a member whose 1-based index is not kept |
| Resolver.KeepLineOutcomes | DuplicateFinder/c/DuplicateFinder.c:377-396 | "s" skips and "q" quits after one line; "0," and "abc" select nothing |
| Resolver.KeepPromptOutcomes | DuplicateFinder/c/DuplicateFinder.c:373-392 | for a group that passes the similarity check: the keep prompt is closed exactly at end of input, the group is skipped exactly on the line "s", the program quits exactly on the line "q", and "No valid files selected." comes exactly from any other line that names no member |
| Resolver.DeletePathsSpec | DuplicateFinder/c/DuplicateFinder.c:398-417 | the delete list names exactly the members whose 1-based index is not kept, from the highest index down |
| Resolver.KeptAndDeletedPartition | DuplicateFinder/c/DuplicateFinder.c:398-417 | every member is either kept or deleted, never both |
| Resolver.DeleteOrderExample | DuplicateFinder/c/DuplicateFinder.c:409-413 | for members A, B, C and keep list [2] the delete list is C, A |
| Resolver.NoSymlinkDeleted | DuplicateFinder/c/DuplicateFinder.c:439-450 | a symbolic link is never passed to DeleteFile |
| Resolver.DeletePathsProper | DuplicateFinder/c/DuplicateFinder.c:398-417 | with at least one member kept, the delete list is shorter than the group and names only its members |
| Resolver.NeverDeletesAll | DuplicateFinder/c/DuplicateFinder.c:392-417 | whenever a delete list is formed, it is shorter than the group and names only its members |
| Finder.HandleHashGroups | DuplicateFinder/c/DuplicateFinder.c:71-76 | the digest groups of two or more are offered in order, one event each, and all of them unless the user quits, which ends the loop; every outcome is sound; each handled outcome is what HandleDuplicateGroup answers on the input left by the groups before it, and the input left is what the last one did not read |
| Finder.GroupEvents | DuplicateFinder/c/DuplicateFinder.c:66-76 | the error lines of a size group and the outcomes of its digest groups all come from it |
| Finder.HashAndHandle | DuplicateFinder/c/DuplicateFinder.c:64-77 | the error lines come first, one for every member that could not be hashed, in list order; then the digest groups of two or more are offered in order, all of them unless the user quits; each outcome is HandleDuplicateGroup's answer on the input left by the groups before it |
| Finder.HandleSizeGroups | DuplicateFinder/c/DuplicateFinder.c:63-80 | every size group of two or more, in order, shows its error lines and offers its digest groups of two or more, until the user quits; every event comes from such a group, and each outcome is HandleDuplicateGroup's answer on the input left by the groups before it |
| Finder.After | DuplicateFinder/c/DuplicateFinder.c:71-74 | an error line reads no input; a handled group leaves the input less the lines HandleDuplicateGroup read, taken from the front |
| Finder.ReplaysAppend | DuplicateFinder/c/DuplicateFinder.c:63-77 | the groups of one size group read the input where those of the size groups before it stopped |
| Finder.ReplaysRest | DuplicateFinder/c/DuplicateFinder.c:64-74 | when a handled group after error lines ends a run, the input left is what HandleDuplicateGroup left of the input |
| Finder.WithErrorLines | DuplicateFinder/c/DuplicateFinder.c:64-67 | a size group's error lines come before the outcomes of its digest groups and read no input |
| Finder.FindDuplicates | DuplicateFinder/c/DuplicateFinder.c:35-85 | the run carries out the plan of the walked files from the start: a prefix of it when the user quits, all of it otherwise; the run stops right after a quit; each handled outcome is HandleDuplicateGroup's answer on the input left by the groups offered before it, which read the script in turn |
| Finder.Offers | DuplicateFinder/c/DuplicateFinder.c:71-74 | the offers of a list of digest groups are exactly its groups of two or more |
| Finder.GroupPlanMembers | DuplicateFinder/c/DuplicateFinder.c:63-74 | a size group's plan offers exactly its digest groups of two or more and reports exactly its members that could not be hashed |
| Finder.PlanOffers | DuplicateFinder/c/DuplicateFinder.c:63-74 | the plan offers exactly the digest groups of two or more of the size groups of two or more |
| Finder.PlanOfferOrigin | DuplicateFinder/c/DuplicateFinder.c:63-74 | every offer of the plan is a digest group of two or more of a size group of two or more |
| Finder.OfferInPlan | DuplicateFinder/c/DuplicateFinder.c:63-74 | every digest group of two or more of a size group of two or more is offered by the plan |
| Finder.PlanFailOrigin | DuplicateFinder/c/DuplicateFinder.c:63-67 | every error line of the plan belongs to a member of a size group of two or more that could not be hashed |
| Finder.FailInPlan | DuplicateFinder/c/DuplicateFinder.c:63-67 | every member of a size group of two or more that could not be hashed has an error line in the plan |
| Finder.PlanFails | DuplicateFinder/c/DuplicateFinder.c:63-67 | the plan reports exactly the members of the size groups of two or more that could not be hashed |
| Finder.FollowedSteps | DuplicateFinder/c/DuplicateFinder.c:63-80 | a run that carried out all of a plan offered exactly the groups it offers and printed an error line for exactly the paths it reports |
| Finder.RunCompletesPlan | DuplicateFinder/c/DuplicateFinder.c:63-80 | the same, stated against the size groups themselves |
| Finder.QuitOnFirstOffer | DuplicateFinder/c/DuplicateFinder.c:71-74 | a run that follows its plan and reads the input in turn quits at the plan's first offer when that group passes the similarity check and the first line is "q": that event is the last, and only that line was read |
| Finder.FirstOfferQuits | DuplicateFinder/c/DuplicateFinder.c:63-74 | typing "q" at the first group offered, when its names are similar, ends the whole run with that group as its last event, a Quit, having read only that line |
| Finder.EveryDuplicateGroupOffered | DuplicateFinder/c/DuplicateFinder.c:52-80 | a run the user does not quit offers exactly the digest groups of two or more of the size groups of two or more of the walked files, and prints an error line for exactly the members of those size groups that could not be hashed |
| Finder.HandleSound | DuplicateFinder/c/DuplicateFinder.c:343-456 | every outcome of the handler is sound: delete lists leave a member and name only members, and completion ran the deletion loop |
| Finder.HandledGroupAgrees | DuplicateFinder/c/DuplicateFinder.c:63-74 | a group handed to the handler has two or more members, all with one present digest and one size, each with the path and size of a walked file |
| Finder.PairAgrees | DuplicateFinder/c/DuplicateFinder.c:63-74 | two members of a digest group of two or more, made from one size group, have the same present digest and the same size |
| Finder.EventsAgree | DuplicateFinder/c/DuplicateFinder.c:63-74 | every handled group among events from size groups is such a group of duplicates |
| Finder.HandledIsSafe | DuplicateFinder/c/DuplicateFinder.c:71-74 | a completed deletion for a group from the size groups passed no symbolic link to DeleteFile, left a member and named only members |
| Finder.EventsSafe | DuplicateFinder/c/DuplicateFinder.c:71-74 | every handled outcome among events from size groups is safe in that sense |
| Finder.FailureIsMember | DuplicateFinder/c/DuplicateFinder.c:63-67 | an error line names a member of a size group of two or more whose hashing failed |
| Finder.FindDuplicatesEvents | DuplicateFinder/c/DuplicateFinder.c:52-80 | every event of the run comes from a size group of two or more of the walked files |
| Finder.OfferedGroupsAreDuplicates | DuplicateFinder/c/DuplicateFinder.c:52-74 | every group offered to the user has two or more members, all of one size with one present digest, each found by the walk |
| Finder.ErrorsOnlyForCandidates | DuplicateFinder/c/DuplicateFinder.c:63-67 | an error line is printed only for a file of a size group of two or more that could not be hashed |
| Finder.DeletionIsSafe | DuplicateFinder/c/DuplicateFinder.c:71-74 | across the run, no symbolic link reaches DeleteFile and no group loses all of its paths, when no two paths name one file |
| Finder.CountFiles | DuplicateFinder/c/DuplicateFinder.c:473-477 | the count is the length of the list |
| Finder.Files | DuplicateFinder/c/DuplicateFinder.c:48-53 | the list main groups is the discovery order of the walk of the directory the arguments name, or of the current directory, reversed |

## Left out

- The Win32 calls are oracles: FindFirstFile/FindNextFile (`listingOf`), CreateFile/ReadFile (`readFile`), IsSymbolicLink (`isSymlink`, whose reparse-tag lookup at lines 458-471 is not modelled), DeleteFile and GetLastError (`deleteFile`), GetCurrentDirectory (`cwd`). They are foreign I/O.
- SHA-256 (FIPS 180-4) and the CryptoAPI handle management are not modelled. The digest is an uninterpreted function, and a failing CryptoAPI call counts as a failed open.
- The oracles do not change during a run, so a deletion never affects a later read. Every file belongs to exactly one group, so the program never reads a file after deleting it.
- Console output is not modelled as text. Each printed line is an event or report (`Finder.Event`, `Resolver.Report`), and `exit(0)` is the `Quit` outcome, which ends the run.
- Memory handling is left out: malloc/free, the groups left unfreed (lines 75 and 79), and FreeFileList at line 83, which walks `next` pointers that grouping has rewired and so frees only part of the list.
- MAX_PATH truncation of paths and a failing `_tcscpy_s` or `_stprintf_s` are left out: paths are unbounded strings.
- Resolver.HandleDuplicateGroup: input lines are modelled without their terminator. Two things are not modelled: the 256-character read buffer, which splits longer lines, and the chop at line 375, which removes the last character even when a final line has no newline.
- Ordering.SortBy: a stable insertion sort stands in for qsort, whose order among equal elements is unspecified. Only the multiset and the ordering are stated, so any qsort order meets them; the particular order inside each group is the model's choice. Two things the user sees depend on that order and so follow the model's order, not a particular qsort: the meaning of the 1-based indices on the keep line, and the similarity check, which compares every name with the first member's and is not transitive ("photo(1)" and "photo(2)" are each similar to "photo" but not to each other), so whether a group passes it can depend on which member is first.
- Hashing.ComputeHashes: the run uses the corrected hash (see Findings), so a read that fails part way gives an error line and no digest. The code as written stores the digest of the bytes read so far (lines 145 and 185-186) and prints nothing; that behaviour is modelled separately by `Hashing.ComputeFileHashAsWritten`.
- Finder.DeletionIsSafe: the directory tree is a tree, so every path names its own file. The walk follows any entry with the directory attribute, which on Windows includes junctions and directory symbolic links (lines 106-110); through them one file can be found under two paths, and a group of such aliases could lose its only copy. The model does not describe aliasing, so the property holds only when no two paths name one file.
- Finder.CountFiles: the C `int` count cannot overflow in the model; lists are unbounded.
- GroupByHash reads `array[0]` even for an empty input (line 271). That case is not modelled: main calls GroupByHash only on groups of two or more. GroupBySize returns early when the count is zero (line 217), and the model agrees.
- The other programs in the repository (LargestFiles, SystemInfo, NetworkSnapshot) are not part of this model. They are OS and network plumbing with no algorithmic core.
- Names.ToLower: `_totlower`, `_tcsicmp`/`_tcsnicmp` (lines 329-337, 433), `_istdigit` (line 310) and the white space `_ttoi` skips (line 384) are modelled with the C locale's ASCII classes (`Names.ToLower`, `Chars.IsDigit`, `Chars.IsSpace`), because the program never calls setlocale. In a UNICODE build these become `towlower`, `_wcsicmp`, `iswdigit` and `iswspace` over UTF-16 code units. Their classes outside ASCII are not modelled, and neither are surrogate pairs: a Dafny `char` is a Unicode scalar value, not a code unit.

## Findings

| source | as written | input that shows it | evidently intended | confidence | as-written member | corrected member |
|---|---|---|---|---|---|---|
| DuplicateFinder/c/DuplicateFinder.c:274 | GroupByHash's two grouping loops, the counting loop at line 274 and the filling loop at lines 287-288, call memcmp on every digest, including the NULL of a file that failed to hash | a size group of two files where CreateFile fails on one: it sorts last with a NULL digest, and memcmp reads through the null pointer | an entry without a digest matches nothing and is never grouped or offered | high; not executed | HashGroups.GroupByHashAsWrittenReadsNull | HashGroups.MissingDigestAlone |
| DuplicateFinder/c/DuplicateFinder.c:145 | the read loop ends the same way on a ReadFile error as at end of file, and the function returns TRUE with the digest of the bytes read so far | two 8192-byte files with the same first 4096 bytes, where ReadFile fails on the second chunk of both: both get the digest of the first 4096 bytes and are offered as duplicates | a read error makes hashing fail, like every other error in the function | medium; not executed | Hashing.PartialReadCollides | Hashing.ComputeFileHashRefines |
