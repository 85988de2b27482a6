# Duplicate file finder: comparison engine and grouping

This project models the core of a command-line duplicate file finder (`main.cpp`).
The program first collects candidate files, each a path with the size the directory walk saw.
It then compares them lazily, block by block: each file is read in fixed-size blocks, and each
block is hashed with MD5 or CRC-32. Each reader computes a block's digest at most once and keeps
it. A fresh reader is built for every candidate in every comparison, so a candidate compared
with several anchors has its blocks hashed again each time. Two files are equal when their sizes agree and every block digest agrees.
The candidates are grouped around anchors: the first candidate still in the list is
compared with every later one. Each equal candidate is recorded as the anchor's duplicate
in a bimap and erased from the list. Then the next remaining candidate becomes the anchor.
Finally the report lists each remaining candidate that has duplicates, followed by those
duplicates.

The Dafny modules follow the program's classes:

- `Hash` (`hash.dfy`): the supported hash names and the dispatch from a name to a digest.
  The two digest algorithms are functions supplied in an `Algorithms` value.
- `FileReading` (`file_info.dfy`): the lazy block reader, class `FileInfo`. Its fields are
  the ones the C++ class updates in place: the read cursor, the end-of-input flag and the
  list of block digests. `ReadStep`/`ReadSteps` give the effect of reads on a `ReadState`
  value. `Coherent` ties such a state to the file's bytes: entry j of the memo is the
  digest of block j.
- `Matching` (`files_matcher.dfy`): class `FilesMatcher` and its comparison
  `CheckFilesEqual`. It is proved against the pure verdict `FilesEqual` and the request
  count `Requests`, so the proof also pins down exactly how many reads each reader
  performs.
- `Duplicates` (`duplicates.dfy`): the grouping loop and the report of `main`.
  - The pure specification is `Pass`, for one anchor's sweep, and `Grouping`, for the
    whole loop. `Grouping` is stated for any comparison verdict.
  - `GroupDuplicates`/`SweepAnchor`/`SweepOnce` run that loop with real `FileInfo`
    readers and `CheckFilesEqual`. They are proved to produce exactly
    `Grouping(SameContent(...), files)`.
  - `BuildReport` computes the report; `FindDuplicates` runs the whole flow after the
    directory walk.

The disk is a parameter: a map from path to bytes, where a path that is absent cannot be
opened. The digest algorithms are parameters as well.

## Model

| member | source | states |
|---|---|---|
| `Hash.IsSupportedHashType` | main.cpp:53-56 | true exactly when the hash name is one of the two supported names, "md5" and "crc32" |
| `Hash.GetHash` | main.cpp:28-51 | the digest is the MD5 text of the buffer for "md5", the CRC-32 text for "crc32", and the empty string for any unsupported name |
| `FileReading.ReadCount` | main.cpp:107-111 | a read at the cursor obtains at most one block of bytes, all inside the file, and a full block whenever the file holds one there |
| `FileReading.ReadBuffer` | main.cpp:105-109 | the buffer hashed after a read is always exactly one block long, whatever is left of the file (its bytes are given by `ReadBufferAt`) |
| `FileReading.ReadBufferAt` | main.cpp:105-109 | byte t of the hashed buffer is file byte cursor + t, or the fill character '0' past the end of the file |
| `FileReading.BlockAt` | main.cpp:105-116 | byte t of block j is file byte j*blockSize + t, or '0' past the end of the file |
| `FileReading.ReadStep` | main.cpp:96-118 | a complete reader or an unopenable file is left unchanged; otherwise exactly one digest is appended, earlier digests are kept, the cursor advances by at most one block, and the reader becomes complete exactly when the cursor reaches the declared size |
| `FileReading.UnreadIsCoherent` | main.cpp:120-124 | a fresh reader (cursor 0, not complete, empty memo) is faithful to any file |
| `FileReading.ReadStepCoherent` | main.cpp:96-118 | one more read keeps the reader faithful: the cursor stays at min(k*blockSize, file length) and the new entry k is the digest of block k |
| `FileReading.ReadStepsCoherent` | main.cpp:96-118 | any number of reads keeps a faithful reader faithful |
| `FileReading.ReadStepsAppendOnly` | main.cpp:116 | the memo only grows, by at most one entry per read, and entries once stored never change, so no block is hashed twice |
| `FileReading.FreshReaderReadsOncePerRequest` | main.cpp:96-118 | an openable file read from the start stores exactly one digest per read, up to and including the read that reaches the declared size; this holds even when the file is shorter than declared |
| `FileReading.GuardAdmitsAsWritten` | main.cpp:86-87 | the guard as written lets a request through for every block number up to and including the memo's length, one more than the memo holds |
| `FileReading.UnopenableFilePassesGuardAsWritten` | main.cpp:86-89 | the guard as written admits block 0 of an unopenable file although its memo is empty (see Findings) |
| `FileReading.FileInfo.constructor` | main.cpp:72-75 | the reader stores path and size and has read nothing |
| `FileReading.FileInfo.ReadByBlock` | main.cpp:96-118 | the new reader state is `ReadStep` of the old one |
| `FileReading.FileInfo.GetBlock` | main.cpp:82-92 | performs one read and then answers the stored digest of the block when the memo holds it, and no digest otherwise; a digest stored earlier is answered unchanged |
| `Matching.BlockCount` | main.cpp:141 | the number of blocks is at most the declared size and is 0 exactly when the declared size is 0 (its exact value is given by `BlockCountIsCeiling`) |
| `Matching.BlockCountIsCeiling` | main.cpp:141 | the block count is the declared size divided by the block size, rounded up |
| `Matching.BelowBlockCount` | main.cpp:141-143 | block i is below the block count exactly when it starts inside the declared size |
| `Matching.FirstMismatch` | main.cpp:143-151 | every block before the returned index agrees in both files, and the block at it does not (unless it is the block count) |
| `Matching.FilesEqual` | main.cpp:134-156 | the verdict holds exactly when the declared sizes are equal and every block below the block count agrees |
| `Matching.Requests` | main.cpp:136-151 | no block is requested when the sizes differ, never more than the block count, and exactly the block count when the files are equal |
| `Matching.ComparisonStops` | main.cpp:143-155 | for equal sizes the verdict is true exactly when the first mismatch is the block count; the number of requests is then the count, otherwise the mismatch index plus one |
| `Matching.BlockAvailable` | main.cpp:84-89 | a faithful reader of an openable file holds block i after the read of request i, for every i below the block count |
| `Matching.RequestAnswer` | main.cpp:82-92 | request i yields the digest of block i of an openable file and nothing for an unopenable one, and the reader stays faithful |
| `Matching.ServedUpTo` | main.cpp:143-147 | a reader that starts faithful has answered every request below the block count |
| `Matching.SameContentCompareEqual` | main.cpp:134-156 | two openable files with the same bytes and the same declared size compare equal |
| `Matching.EqualVerdictMeansSameContent` | main.cpp:134-156 | under a digest that never maps two buffers to one text, files that compare equal and hold their declared sizes have the same bytes |
| `Matching.FilesEqualSymmetric` | main.cpp:134-156 | the verdict does not depend on the order of the two files |
| `Matching.FilesEqualTransitive` | main.cpp:134-156 | two files equal to a third are equal to each other |
| `Matching.UnsupportedHashTypeMatchesEverything` | main.cpp:282-286 | with an unsupported hash name any two openable files of equal declared size would compare equal, which is why the name is rejected first |
| `Matching.NoDigestBeyondMismatch` | main.cpp:143-150 | readers that start fresh store no digest past the first mismatching block |
| `Matching.EqualFilesReadEachBlockOnce` | main.cpp:143-151 | when two openable files compare equal, a fresh reader stores exactly one digest per block, whatever the file's real length |
| `Matching.FilesMatcher.constructor` | main.cpp:129-132 | the matcher keeps the block size and the hash name |
| `Matching.FilesMatcher.RequestBlock` | main.cpp:145-147 | requests block i of both readers, even when the first request fails, and reports whether both digests exist and are equal |
| `Matching.FilesMatcher.CompareBlocks` | main.cpp:141-155 | the loop over block indices stops after the first mismatch; its result is whether there is none, and each reader has made exactly that many requests |
| `Matching.FilesMatcher.CheckFilesEqual` | main.cpp:134-156 | the result is `FilesEqual`; each reader ends in the state of exactly `Requests` reads from its old state and stays faithful |
| `Duplicates.BimapInsert` | main.cpp:333 | an insertion whose duplicate path is already recorded is refused; otherwise the pair is appended |
| `Duplicates.Pass` | main.cpp:321-341 | each candidate the pass keeps is from the anchor's tail and is not equal to the anchor; each recorded pair is (anchor, c) for a tail candidate c equal to the anchor |
| `Duplicates.PassPartition` | main.cpp:321-341 | each path of the tail is either kept or recorded as a duplicate, exactly once |
| `Duplicates.PassKeepsOrder` | main.cpp:321-341 | what the pass keeps is the tail with exactly the recorded duplicates erased, in order |
| `Duplicates.Grouping` | main.cpp:313-343 | every survivor comes from the input; every recorded pair has a surviving anchor, a duplicate from the input, and the two compare equal |
| `Duplicates.GroupingPartition` | main.cpp:313-343 | each input path is either left in the list or recorded as a duplicate, exactly once |
| `Duplicates.GroupingKeepsOrder` | main.cpp:313-343 | the final list is the input with exactly the recorded duplicates erased, in the original order, so no anchor is erased |
| `Duplicates.SurvivorsPairwiseUnequal` | main.cpp:313-343 | no two candidates left in the list compare equal |
| `Duplicates.GroupsNotBridged` | main.cpp:313-343 | no candidate compares equal to two of the candidates left in the list (the earlier first), so equal files are never split over two groups |
| `Duplicates.DuplicatesRecordedOnce` | main.cpp:331-337 | no path is recorded as a duplicate twice, and no recorded duplicate remains in the list |
| `Duplicates.FewerThanTwoRecordNothing` | main.cpp:313-343 | with fewer than two candidates nothing is recorded and the list is unchanged |
| `Duplicates.DuplicatesOf` | main.cpp:360-361 | a path is listed for an anchor exactly when the pair (anchor, path) is in the dictionary; the order is the order of recording (`DuplicatesOfInOrder`) |
| `Duplicates.DuplicatesOfInOrder` | main.cpp:360-361 | for i < j, the pair (anchor, duplicate i) stands before the pair (anchor, duplicate j) in the dictionary, so an anchor's duplicates are listed in insertion order |
| `Duplicates.DuplicatesOfOnce` | main.cpp:360-361 | when no path is recorded twice as a duplicate (as `DuplicatesRecordedOnce` shows for the grouping), no path is listed twice for an anchor |
| `Duplicates.Report` | main.cpp:349-366 | every group's anchor is a remaining path and carries that anchor's non-empty list of recorded duplicates; the groups follow the list order (`ReportInOrder`); each group's duplicates are in insertion order (`DuplicatesOfInOrder`) |
| `Duplicates.ReportInOrder` | main.cpp:349-366 | for groups i < j of the report, the anchor of group i stands before the anchor of group j in the list of remaining paths |
| `Duplicates.ReportAnchorsOnce` | main.cpp:349-366 | when no path is listed twice, no two groups of the report have the same anchor |
| `Duplicates.ReportComplete` | main.cpp:349-366 | every recorded pair whose anchor remains in the list appears in the report |
| `Duplicates.ReportOfGrouping` | main.cpp:313-366 | every reported duplicate was recorded against its anchor and compared equal with it, and every recorded pair is reported; with `ReportInOrder` and `ReportAnchorsOnce` and the distinct paths of the grouping, each anchor is reported once, in list order |
| `Duplicates.SweepNotRecorded` | main.cpp:333 | during the loop the bimap never refuses an insertion: the candidate being recorded is not yet a duplicate |
| `Duplicates.SweepErase` | main.cpp:331-337 | an equal candidate is recorded against the anchor and erased, and the loop state matches one more step of `Pass` |
| `Duplicates.SweepSkip` | main.cpp:339-340 | a candidate that is not equal stays in the list, and the loop state matches one more step of `Pass` |
| `Duplicates.SweepKeepsPartition` | main.cpp:321-341 | after an anchor's sweep the list and the dictionary still split the input paths between them |
| `Duplicates.GroupingAdvance` | main.cpp:342 | after the sweep of the anchor at position it, what remains to group is what that anchor's pass kept |
| `Duplicates.SweepOnce` | main.cpp:329-340 | one comparison of the inner loop with a fresh reader for the candidate: the list, the dictionary and the position advance exactly as `Pass` does, and the anchor's reader ends exactly `Requests` reads past its old state, so it keeps what it read for the anchor's later comparisons, and stays faithful |
| `Duplicates.SweepAnchor` | main.cpp:317-341 | the inner loop for one anchor yields the list with the pass's kept candidates after the anchor and the dictionary extended by the pass's pairs |
| `Duplicates.GroupDuplicates` | main.cpp:313-343 | the final list and dictionary are exactly those of `Grouping` under the verdict of `CheckFilesEqual` |
| `Duplicates.BuildReport` | main.cpp:345-366 | the groups built are exactly `Report` of the remaining paths and the dictionary |
| `Duplicates.FindDuplicates` | main.cpp:282-366 | an unsupported hash name is rejected, fewer than two candidates give "nothing to match", and otherwise the result is the report of the grouping |

## Left out

- The MD5 and CRC-32 algorithms and the text they produce (hex of the digest words at main.cpp:60-66, the decimal checksum) are library code. They are parameters of the model.
- Hash.GetHash: at main.cpp:42-47 the CRC-32 branch declares a checksum object that shadows the result string and then assigns text to that object, which does not compile as written. The model returns the checksum text, which is what the branch evidently means.
- File input (`ifstream`, `seekg`, `read`, `gcount`) is modelled by a fixed map from path to bytes. A path absent from the map cannot be opened. The disk does not change during the comparisons. The declared sizes come from the directory walk and may differ from the bytes on the disk, for example when a file was removed or changed after the walk.
- BlockCount: main.cpp:141 rounds a floating-point quotient up and converts it to `int`. The model uses the exact integer ceiling, and sizes, cursors and block numbers are unbounded, so overflow of `int` and `size_t` is not modelled.
- A block size of 0 makes main.cpp:141 divide by zero in floating point and convert the result to `int`, which is undefined. FindDuplicates requires a positive block size whenever comparisons happen.
- The same-path branch at main.cpp:323-327 erases the element after the repeated one and then goes on with an erased iterator, which is undefined behaviour. The grouping requires candidates with distinct paths.
- CheckFileMasks, CollectFiles, command-line parsing and all printing are left out. The report is returned as a sequence of groups rather than printed.
- The boost bimap is a sequence of (anchor, duplicate) pairs in insertion order. The duplicate side is unique, and the order of equal anchors is taken to be insertion order.
- FileInfo::GetFileSize is modelled as a read of the constant field `fileSize`.
- Aliasing: CheckFilesEqual requires two distinct readers, which is what main.cpp passes.
- The `std::list` and its iterators are a sequence and positions. The inner loop is SweepAnchor calling SweepOnce once per comparison.
- The unused `files_hash_map` at main.cpp:290 is left out.

## Findings

| source | as written | input that shows it | evidently intended | confidence | as-written member | corrected member |
|---|---|---|---|---|---|---|
| main.cpp:86-89 | `GetBlock` declines only when the memo holds fewer digests than `block_number`, then reads the memo at `block_number` | a candidate that cannot be opened when it is compared (removed or unreadable after the walk) with a declared size above 0: request 0 finds an empty memo, passes the guard and reads `mHashBlocks[0]` out of range | decline when the memo holds no more than `block_number` digests, so the comparison returns false | high, not executed | `FileReading.UnopenableFilePassesGuardAsWritten` | `FileReading.FileInfo.GetBlock` |
