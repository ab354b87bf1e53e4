# medusa-zip in Dafny

medusa-zip builds zip archives from files on disk and merges existing zip
archives into one. It walks the directories it is given, turns each file into an
archive entry name, and sorts the entries. It plans the directory records each
file needs, picks per-file zip options, and writes the entries. It can write them
one by one or in parallel chunks that are merged back in order. The archive bytes
are produced by an external zip library. The logic here decides which entries go
into an archive, in what order, and with which options.

The model covers three parts of the repository:

- **`lib/`**, the current library: entry names, the archive plan, zip options, the
  writers, crawling, merging and the destination policy.
- **`libmedusa-zip/`**, the older generation, which is a separate crate. Its
  `lib.rs` is an even older single-file design. Each older file has its own module
  (`LegacyZip`, `LegacyLib`, `LegacyCrawl`, `LegacyMerging`). Where an older file is
  textually the same as the current one, the current module is reused.
  - The plan builder of `libmedusa-zip/src/zip.rs` is the same as the current one, so
    `ZipPlan` stands for both.
  - The destination tables of both generations are the same, so `Destination`
    stands for both.
  - `CrawlResult::merge` of `libmedusa-zip/src/lib.rs` is `Crawl.Merge`.
- **`cli/`**, the command-line front end: the merge-argument parser and the option
  conversions (`CliMerge`, `CliZip`).

Representations used throughout:

- A zip archive is the log of records written into it. A directory record holds a
  name and options. A file record holds a name, the path its contents come from, and
  options. Merging one archive into another appends its records.
- The filesystem is a finite map from paths to nodes.
- The clock is a parameter.
- Entries are sorted by an insertion sort over an array. It stands for
  `par_sort_unstable`. When the names are distinct, any sort that leaves the array
  ordered as a permutation of its old contents gives the same result. When a name
  is repeated, the contracts only say that some repeated name is reported.

Modules, in dependency order:

- **Infrastructure:** `Wrappers`, `Text`, `Paths` and `Sorting`.
- **Entry names:** `EntryNames`.
- **Archive plan:** `ZipPlan`.
- **Zip options:** `ZipOptions`.
- **Writers:** `ZipWriting`.
- **Crawling:** `Crawl` and `LegacyCrawl`.
- **Output file:** `Destination`.
- **Merging:** `Merging` and `LegacyMerging`.
- **Older generation:** `LegacyLib` and `LegacyZip`.
- **Command line:** `CliMerge` and `CliZip`.

## Model

| member | source | states |
|---|---|---|
| Text.Pieces | lib/src/lib.rs:116-125 | splitting a string on '/' always gives at least one piece (the final range is pushed unconditionally) |
| Text.PiecesCount | lib/src/lib.rs:116-125 | a string with n slashes splits into exactly n+1 pieces |
| Text.PiecesHaveNoSlash | lib/src/lib.rs:116-125 | no piece of a split contains '/' |
| Text.JoinPieces | lib/src/lib.rs:116-125 | joining the pieces of a string with '/' gives the string back |
| Text.PiecesJoin | lib/src/lib.rs:116-125 | the other round trip: splitting the '/'-join of slash-free pieces gives the pieces back |
| Text.PiecesConcat | lib/src/lib.rs:108-114 | the pieces of `a/b` are the pieces of `a` followed by those of `b` |
| Text.JoinAppend | lib/src/zip.rs:446 | joining two non-empty component lists is joining each and putting '/' between them |
| Text.StrLessTotal | libmedusa-zip/src/lib.rs:120-130 | plain string order is total: two strings are equal or one is below the other |
| Text.StrLessTransitive | libmedusa-zip/src/lib.rs:120-130 | plain string order is transitive |
| Text.StrLessIrreflexive | libmedusa-zip/src/lib.rs:120-130 | no string is below itself |
| Text.ListLessTotal | lib/src/lib.rs:85-89 | lexicographic order on component lists is total |
| Text.ListLessTransitive | lib/src/lib.rs:85-89 | lexicographic order on component lists is transitive |
| Text.ListLessIrreflexive | lib/src/lib.rs:85-89 | no component list is below itself |
| Text.ListLessProperPrefix | lib/src/lib.rs:85-89 | a proper prefix of a component list sorts before it |
| Text.ListBetweenExtends | lib/src/zip.rs:380-384 | a list sorted between two extensions of a common prefix also extends that prefix: the entries under one directory are contiguous once sorted |
| EntryNames.SplitIndices | lib/src/lib.rs:116-125 | the loop yields one range per '/' plus one, the ranges lie inside the name, and the text they cut out is exactly the '/'-split of the name |
| EntryNames.SpansArePieces | lib/src/lib.rs:116-125 | the ranges of `split_indices` lie in the string and select exactly its '/'-separated pieces |
| EntryNames.PiecesEmptiness | lib/src/lib.rs:131-150 | no inner piece is empty iff the string neither starts with '/' nor contains "//"; the last piece is empty iff the string is empty or ends with '/' |
| EntryNames.DotSlashPieces | lib/src/lib.rs:137-140 | a string starts with "./" iff its first piece is "." and more pieces follow |
| EntryNames.ValidateAccepts | lib/src/lib.rs:131-150 | `validate` accepts a string iff its components are all non-empty and it does not open with a "." component followed by more; an accepted name's components are the '/'-pieces of the string |
| EntryNames.ValidateErrors | lib/src/lib.rs:131-150 | `NameIsEmpty` exactly for the empty string; every other error carries the rejected string; success keeps the string unchanged |
| EntryNames.ConsistentComponents | lib/src/lib.rs:152-154 | the components of a name are empty for `empty()` and otherwise the '/'-pieces of the name, count('/')+1 of them |
| EntryNames.ValidComponents | lib/src/lib.rs:131-154 | a validated name has non-empty, slash-free components whose '/'-join is the name |
| EntryNames.ParentComponents | lib/src/lib.rs:158-160 | the parent components are all components but the last, one fewer than the components |
| EntryNames.ValidateJoin | lib/src/lib.rs:131-150 | joining good slash-free components with '/' validates, and the result has exactly those components |
| EntryNames.IntoString | lib/src/lib.rs:101-106 | only a non-empty name can be turned into a string, and that string is the name |
| EntryNames.AddPrefixComponents | lib/src/lib.rs:108-114 | prefixing with an empty or valid prefix gives a name whose components are the prefix's followed by the name's own |
| EntryNames.AddPrefixValid | lib/src/lib.rs:108-114 | prefixing two valid names gives a valid name exactly when the prefix is not "." |
| EntryNames.ComponentsDetermineName | lib/src/lib.rs:71-75 | two names with the same components are the same name, so the derived equality and the ordering agree |
| EntryNames.CompareIsTotalOrder | lib/src/lib.rs:85-89 | comparison is Equal exactly on equal names, antisymmetric and transitive |
| EntryNames.ComponentOrderDiffersFromText | lib/src/lib.rs:85-89 | "a/b" sorts before "a-b" by components although "a-b" is below "a/b" as plain text |
| ZipPlan.SharedPrefixLength | lib/src/zip.rs:358-367 | the counted length is a common prefix of both lists, and the next elements (if both exist) differ |
| ZipPlan.SharedPrefixMaximal | lib/src/zip.rs:358-367 | every common prefix is at most the counted length, so the count is the longest common prefix |
| ZipPlan.NewRightmostAreNewPrefixes | lib/src/zip.rs:368-376 | a list is yielded iff it is a non-empty prefix of the current components that is not a prefix of the previous ones; each yielded list is the one before it plus one component |
| ZipPlan.CalculateNewRightmostComponents | lib/src/zip.rs:349-377 | the counting loop and the range map yield exactly the new non-empty prefixes, shortest first, nothing when all components are shared |
| ZipPlan.SourceLessIsStrictWeakOrder | lib/src/lib.rs:177-179 | ordering file sources by name is a strict weak order, so sorting by it is well defined |
| ZipPlan.StrictFromNeighbours | lib/src/zip.rs:386-403 | in a sorted list, neighbours with different names are enough for strictly increasing names |
| ZipPlan.DuplicateNotStrict | lib/src/zip.rs:388-399 | a name equal to the one before it breaks strict order, and the first file can never match the empty starting name |
| ZipPlan.FindDuplicate | lib/src/zip.rs:386-405 | the scan succeeds iff the names strictly increase; on failure the error carries a repeated name, the earlier file's path and the later file's path of two neighbours |
| ZipPlan.SortAndDeduplicate | lib/src/zip.rs:380-406 | the vector ends up a sorted permutation of itself; the result is Ok iff the names strictly increase, and an error names two neighbours with the same name and both their paths |
| ZipPlan.DuplicatesSurvivePermutation | lib/src/zip.rs:380-385 | reordering the files cannot create or remove a repeated name |
| ZipPlan.StrictlySortedMeansDistinct | lib/src/zip.rs:386-403 | a sorted list has strictly increasing names iff no name occurs twice |
| ZipPlan.LayoutFiles | lib/src/zip.rs:462-487 | the file entries of the layout are exactly the input files, once each, in sorted order |
| ZipPlan.LayoutParentsFirst | lib/src/zip.rs:462-487 | every file entry comes after a directory entry for each directory containing it |
| ZipPlan.ConvexDirs | lib/src/zip.rs:380-384 | a directory shared by two files in sorted order is shared by every file sorted between them |
| ZipPlan.NewDirsUnseenSorted | lib/src/zip.rs:462-478 | in sorted order the directories a file adds contain no earlier file |
| ZipPlan.LayoutDirsDistinct | lib/src/zip.rs:462-487 | for sorted input no directory entry is written twice, and every directory entry contains some input file |
| ZipPlan.DirNameValid | lib/src/zip.rs:471-473 | joining good components and validating succeeds, so the `expect` cannot panic, and gives back those components |
| ZipPlan.ValidIsDirName | lib/src/lib.rs:131-154 | a valid name is the joined name of its own components |
| ZipPlan.DirNameInjective | lib/src/zip.rs:471-475 | different component lists give different directory names |
| ZipPlan.PrefixComponents | lib/src/zip.rs:422-441 | a missing prefix gives no components; a given prefix fails iff it does not validate, and otherwise gives the good components of a valid name |
| ZipPlan.CombinedPrefix | lib/src/zip.rs:443-456 | the cached prefix fails only for a silent prefix "." followed by own components; otherwise it is the empty name for no components or the joined name of all of them |
| ZipPlan.AsWrittenPanicsOnDotPrefix | lib/src/zip.rs:443-450 | the own-prefix loop as written fails exactly for silent prefix "." with a non-empty own prefix, and otherwise yields the corrected directories |
| ZipPlan.DotPrefixPanics | lib/src/zip.rs:443-450 | "." and "a" each validate as prefixes, yet the loop as written panics on them |
| ZipPlan.DotPrefixNames | lib/src/lib.rs:108-114 | "a" and "." are valid names, but "a" prefixed with "." is not |
| ZipPlan.AddPrefixDirName | lib/src/zip.rs:471-475 | prefixing a joined directory name with the cached prefix is the joined name of the prefix components followed by the directory's |
| ZipPlan.LayoutWellFormed | lib/src/zip.rs:462-487 | for sorted valid input every layout item is a valid file or good directory components |
| ZipPlan.PlanShape | lib/src/zip.rs:408-490 | the plan fails exactly on an invalid prefix or the "." case; otherwise it is the own-prefix directories followed by the layout placed under the combined prefix |
| ZipPlan.PlannedFiles | lib/src/zip.rs:462-487 | the plan's file entries are the sorted input files, once each, in order, each named prefix/name and keeping its source |
| ZipPlan.PlannedParentsFirst | lib/src/zip.rs:443-487 | in the plan every directory of a file's prefixed name below the silent prefix has an entry before the file |
| ZipPlan.PlannedDirectoriesDistinct | lib/src/zip.rs:443-487 | no directory name occurs twice in the plan |
| ZipPlan.PlannedNamesValid | lib/src/zip.rs:443-487 | unless the whole prefix is ".", every entry name in the plan is valid |
| ZipPlan.PlanProperties | lib/src/zip.rs:408-490 | the corrected plan fails only for invalid prefixes or the "." case; on success its files are the sorted inputs under the prefix, parents come first, no directory repeats, and all names are valid |
| ZipPlan.FromFileSpecs | lib/src/zip.rs:408-490 | sorts the input; reports `DuplicateName` iff some name repeats, with a witness; otherwise returns exactly the plan of the sorted files |
| ZipPlan.SortedCopy | lib/src/zip.rs:380-406 | the copy is a sorted permutation of the input, with an error iff a name repeats, and that error names a repeated name with two of its paths |
| ZipPlan.EmitPrefixDirectories | lib/src/zip.rs:443-450 | the push loop builds one directory per own-prefix component: silent prefix plus the first k+1 own components |
| ZipPlan.EmitNewDirectories | lib/src/zip.rs:465-476 | the inner loop pushes the new directories of the file, prefixed with the cached prefix, shortest first |
| ZipPlan.EmitFileEntries | lib/src/zip.rs:458-487 | the outer loop builds exactly the layout of the sorted files rendered under the cached prefix |
| ZipPlan.EmitFileEntry | lib/src/zip.rs:462-487 | one iteration appends the file's new directories and then the file, and moves the previous directories on to this file's |
| ZipOptions.MtimeForFileMatchesStatic | lib/src/zip.rs:127-162 | except for `PreserveSourceTime`, the per-file time equals the static one; `Reproducible` is 1980-01-01 00:00:00; statically `PreserveSourceTime` behaves as `CurrentTime`; per file it uses the source's time, failing with an I/O error when the time is unavailable and a conversion error when it does not fit a ZIP time |
| ZipOptions.SetZipOptionsForFile | lib/src/zip.rs:609-620 | the loop applies the initializers in order and stops at the first error, giving exactly the fold of them |
| ZipOptions.FileInitializersEffect | lib/src/zip.rs:139-221 | with the initializers in the order mtime, permissions, small file, large file (lib/src/zip.rs:693-702): failure iff the mtime rule fails; otherwise the time is the mtime rule's, the permissions are the file's mode, the large-file flag is set iff the length exceeds the ZIP64 threshold, and files of at most 1000 bytes are stored without a level while larger ones keep the configured compression |
| ZipOptions.FromMethodAndLevelAccepts | lib/src/zip.rs:252-281 | parsing succeeds iff the method is stored without a level or deflated with no level or one in 0..=9; it gives `Stored` exactly for the stored method and keeps the given level; every error carries the given level |
| ZipOptions.StaticOptions | lib/src/zip.rs:811-816 | the loop applies the static initializers in order, giving exactly their fold |
| ZipOptions.SharedOptionsEffect | lib/src/zip.rs:127-137 | after the mtime and compression initializers the options carry the static time, are stored exactly for the `Stored` strategy (then with no level), and are deflated with the strategy's level otherwise; permissions and the large-file flag are untouched |
| Sorting.InsertionSort | lib/src/zip.rs:384 | the array ends up sorted by the given strict weak order and is a permutation of what it held |
| Sorting.InsertAt | lib/src/zip.rs:384 | inserting one more element extends the sorted prefix by one, keeping the contents |
| Sorting.Swap | lib/src/zip.rs:384 | exchanges two neighbours and changes nothing else |
| CliZip.MtimeConversion | cli/src/zip.rs:127-142 | an explicit timestamp wins whatever the automatic strategy; without one the result is never explicit and the three strategies map one-to-one; every library behaviour is reached |
| CliZip.MethodFromCli | cli/src/zip.rs:154-161 | stored maps to stored and deflated to deflated, and only they do |
| CliZip.ZipOutputOptionsFromCli | cli/src/zip.rs:197-219 | the conversion fails exactly when parsing the method and level fails, with the given level in the error; on success it carries the converted mtime behaviour and the parsed strategy |
| CliZip.ModificationsRoundTrip | cli/src/zip.rs:243-267 | the two prefix conversions are inverse to each other |
| CliZip.ParallelismRoundTrip | cli/src/zip.rs:280-296 | the two parallelism conversions are inverse to each other |
| CliZip.DefaultsAgree | cli/src/zip.rs:104-152 | the command line's defaults (reproducible, deflated, parallel merge) convert to the library's defaults |
| ZipWriting.RecordModesAgree | lib/src/zip.rs:516-580 | writing one entry through a one-entry temporary archive records the same entry, with the same options, as writing it directly; both fail together, with corresponding errors |
| ZipWriting.RunSync | lib/src/zip.rs:754-784 | the run yields the records of the entries it completed: never more than there are entries, and one per entry when nothing failed |
| ZipWriting.RunSyncStopsAtFirstFailure | lib/src/zip.rs:754-784 | each logged record is the record of the entry at its position; on failure the entry right after the log is the one whose error is reported |
| ZipWriting.RunModesAgree | lib/src/zip.rs:640-677 | writing a chunk through per-entry temporary archives gives the synchronous log and fails exactly when the synchronous run fails |
| ZipWriting.RunSyncAppend | lib/src/zip.rs:754-784 | running two entry lists one after the other is running their concatenation, stopping at the first failure |
| ZipWriting.StartedRecord | lib/src/zip.rs:765-782 | an entry leaves a begun file record behind iff its source opens and its options are set but the copy fails; then that entry reports an I/O error and the record names the entry with its source and options |
| ZipWriting.WrittenSyncExtendsRun | lib/src/zip.rs:754-784 | what the synchronous loop writes is the run's completed records, followed on an I/O failure by the file record begun for the failing entry; it is longer than the log only after an I/O failure |
| ZipWriting.Chunks | lib/src/zip.rs:722 | every chunk holds between 1 and n entries |
| ZipWriting.FlattenChunks | lib/src/zip.rs:722 | concatenating the chunks in order gives the entries back |
| ZipWriting.ParallelRunIsPrefix | lib/src/zip.rs:721-739 | merging intermediate archives chunk by chunk succeeds iff the synchronous run of their concatenation does, then with the same log; on failure the merged log is a prefix of the synchronous one and the error is a read error (zip-library failures are not modelled; see "## Left out") |
| ZipWriting.ParallelMatchesSync | lib/src/zip.rs:600 | with chunks of 2000 entries (lib/src/zip.rs:721-739), the parallel merge writes the same entries as the synchronous mode and fails exactly when it does, having written a prefix of its log |
| ZipWriting.PlanEntriesNamed | lib/src/zip.rs:408-490 | every entry of a successful plan has a non-empty name, so `into_string` cannot panic (lib/src/lib.rs:101-106) |
| ZipWriting.ZipOutput.constructor | lib/src/zip.rs:630-635 | a new writer holds no entries |
| ZipWriting.ZipOutput.AddDirectory | lib/src/zip.rs:757-764 | appends one directory record with the given options and changes nothing else |
| ZipWriting.ZipOutput.AddFile | lib/src/zip.rs:765-782 | appends one file record with its source and options |
| ZipWriting.ZipOutput.AddPartialFile | lib/src/zip.rs:776-777 | appends one file record that was started but whose contents were not copied |
| ZipWriting.ZipOutput.MergeArchive | lib/src/zip.rs:731-738 | appends all records of the merged archive, in order |
| ZipWriting.ZipSynchronous | lib/src/zip.rs:744-787 | the writer grows by the completed records and, when a copy failed, the file entry begun for it; the result is the synchronous run's failure |
| ZipWriting.SyncEntry | lib/src/zip.rs:756-783 | one iteration either reports the entry's failure, leaving the writer as it was except for a file entry begun before a failed copy, or appends the entry's record and leaves the rest of the run to do |
| ZipWriting.OpenHandle | lib/src/zip.rs:516-580 | directories give a directory handle with their name; files give a pending one-entry archive; resolving the handle gives the intermediate record, and the handle itself fails exactly when opening or reading metadata fails |
| ZipWriting.ZipIntermediate | lib/src/zip.rs:624-691 | the intermediate archive of a chunk is its per-entry log, and any failure is a read error (zip-library failures are not modelled; see "## Left out") |
| ZipWriting.IntermediateEntry | lib/src/zip.rs:654-676 | one iteration reports the entry's failure or appends its record to the intermediate writer |
| ZipWriting.ZipParallel | lib/src/zip.rs:704-742 | the writer grows by exactly the merged logs of the 2000-entry chunks, in chunk order, and the result is the first chunk failure |
| ZipWriting.MergeChunk | lib/src/zip.rs:722-737 | one iteration builds a chunk's archive and merges it, or reports its failure leaving the writer unchanged |
| ZipWriting.Zip | lib/src/zip.rs:789-828 | a repeated name or a bad prefix is reported before anything is written; otherwise, in either mode, the result is success iff the synchronous run of the plan succeeds, and the writer then grows by that run's log; the synchronous mode reports exactly the run's failure and leaves the completed records plus any begun file entry; a failing parallel merge writes only a prefix of the log |
| Crawl.JoinFromPath | lib/src/crawl.rs:72-88 | a path made into a resolved pair and then joined with a child is the pair made from the joined path: both sides always get the same component |
| Crawl.CleanedUp | lib/src/crawl.rs:56-70 | cleanup strips the whole leading run of "." components (as `Path::components` folds them) from both paths, and does not make the unresolved path absolute; an absolute resolved path is kept; a relative one becomes the working directory followed by the stripped path, so it is absolute whenever the working directory is |
| Crawl.CleanUpResolvedStable | lib/src/crawl.rs:56-70 | with an absolute working directory, cleaning up twice leaves the resolved path as one cleanup made it |
| Crawl.CleanedUpAll | lib/src/crawl.rs:118-123 | cleaning up a result keeps its length and cleans up each path in place |
| Crawl.CleanUpForExport | lib/src/crawl.rs:118-123 | the array of paths is replaced, element by element, by the cleaned-up paths |
| Crawl.MergeAppend | lib/src/crawl.rs:108-116 | merging two lists of results is merging each and concatenating, so merge keeps order and total length |
| Crawl.MergeSingles | lib/src/crawl.rs:101-116 | merging one single-path result per path gives back the paths in order |
| Crawl.FileSources | lib/src/crawl.rs:131-149 | the conversion succeeds iff every unresolved path validates as a name; it then keeps length and order, naming each file by its unresolved path and sourcing it from its resolved path; a failure is the error of some path all of whose predecessors validated |
| Crawl.ToMedusaZip | lib/src/crawl.rs:125-156 | succeeds iff every unresolved path validates; the result carries the given options, modifications and parallelism and one file source per path, in order |
| Crawl.CleanedUpNameValidates | lib/src/crawl.rs:56-70 | "./a" is rejected as a name before cleanup and accepted after it |
| Crawl.CleanedUpDropsEveryDot | lib/src/crawl.rs:61-68 | a root written "././a" loses both leading "." components, and its resolved path goes under the working directory |
| Crawl.Classify | lib/src/crawl.rs:223-243 | classification succeeds iff the resolved path exists and is not a special file, keeps the pair, tells files and symlinks by the node they point at, and a special file fails the `is_file` assertion |
| Crawl.IgnoreLooksAtUnresolvedOnly | lib/src/crawl.rs:203-213 | two entries with the same unresolved path are ignored alike, whatever they resolve to |
| Crawl.CrawlSingle | lib/src/crawl.rs:245-281 | every path the crawl returns resolves to a regular file, is not ignored, and has an unresolved path that extends the start's |
| Crawl.CrawlChildren | lib/src/crawl.rs:268-279 | every child is crawled before the results are collected; every path found under a directory's children is reached from that directory |
| Crawl.CrawlChildrenOutcome | lib/src/crawl.rs:268-279 | the children succeed together iff each child's crawl succeeds; an error is the result of one of the children; a child that panics or never ends makes the whole directory do so, even after an earlier child's I/O error |
| Crawl.LinkCycleDiverges | lib/src/crawl.rs:254-266 | a symbolic link to itself is followed without end |
| Crawl.DanglingLinkThenCycle | lib/src/crawl.rs:268-279 | in a directory whose first child is a dangling link and whose second links to itself, the first child fails with a missing path, yet the directory's crawl never ends, because the second child is crawled before errors are collected |
| Crawl.DanglingLinkFails | lib/src/crawl.rs:254-266 | a link whose target does not exist fails with an I/O error naming the target |
| Crawl.CrawlDirectory | lib/src/crawl.rs:268-280 | a directory that is not ignored yields what crawling its children yields |
| Crawl.CrawlSingleLeaves | lib/src/crawl.rs:235-252 | a special file panics before the ignore check; any other ignored entry yields nothing, and a regular file that is not ignored yields exactly itself |
| Crawl.CrawlAll | lib/src/crawl.rs:298-303 | crawling the roots succeeds iff each root's crawl does, and then gives one result per root, in order |
| Crawl.CrawlPaths | lib/src/crawl.rs:290-309 | the crawl yields exactly the specified result: working directory first, roots crawled, merged, then cleaned up |
| Crawl.CrawlPathsFound | lib/src/crawl.rs:290-309 | a successful crawl had a working directory and successful root crawls, and is the cleanup of their merge, all resolved paths absolute when the working directory is |
| LegacyCrawl.LegacyCrawlPaths | libmedusa-zip/src/crawl.rs:371-390 | the older crawl yields exactly its specified result: roots crawled and merged first, the working directory read only then |
| LegacyCrawl.LegacyCrawlAgrees | libmedusa-zip/src/crawl.rs:371-390 | the two crawl orders agree unless the working directory is missing and a root also fails, in which case the current one reports the working directory and the older one the root's error |
| Destination.OpenFor | lib/src/destination.rs:52-108 | opening fails exactly for a file that cannot be opened at all, or for a missing file under a policy that does not create it; otherwise the file is present and the handle lies within it |
| Destination.AlwaysTruncateStartsOver | lib/src/destination.rs:53-61 | creating or truncating leaves an empty file and a fresh writer with no records, not in append mode |
| Destination.AppendOrFailNeedsArchive | lib/src/destination.rs:62-69 | the file is left as it was; opening fails with an I/O error when it is missing, and succeeds iff it is present and holds an archive, giving an append writer that keeps its bytes and records |
| Destination.OptimisticallyAppendBranches | lib/src/destination.rs:70-92 | a missing file is created with a fresh writer; an existing one is handled exactly as `AppendOrFail`; any other open failure is passed on |
| Destination.AppendToNonZipKeepsBytes | lib/src/destination.rs:93-107 | succeeds iff the file is present, keeps all its bytes, positions after them, and starts a fresh (non-append) archive |
| Destination.AppendFlag | lib/src/destination.rs:52-116 | a writer is in append mode exactly for `AppendOrFail` and for `OptimisticallyAppend` on an existing file |
| Destination.FailureLeavesFile | lib/src/destination.rs:51-121 | a failed initialization leaves the file as it found it |
| Destination.DestinationFile.constructor | lib/src/destination.rs:51 | the file object starts in the given state |
| Destination.Initialize | lib/src/destination.rs:51-121 | the file's new state and the writer returned are those the decision table gives for the policy and the old state |
| Merging.MergeSourcesInOrder | lib/src/merge.rs:103-112 | the sources in the emitted items are exactly all groups' sources, one `MergeZip` each, ordered by group and then by source |
| Merging.NoPrefixNoDirectories | lib/src/merge.rs:83-93 | a group without a prefix emits no directory, only its sources |
| Merging.AfterNoPrefixAllDirectories | lib/src/merge.rs:83-101 | after a group without a prefix the "previous" components are reset to none, so the next group emits all its prefix directories |
| Merging.MergeHasLastDirectories | lib/src/merge.rs:81-101 | after any run of groups, every directory of the last group's prefix has been emitted |
| Merging.DirectoriesBeforeSources | lib/src/merge.rs:90-112 | every directory of a group's prefix is emitted before any of that group's sources |
| Merging.MergeStep | lib/src/merge.rs:82-113 | the items of one more group are the new rightmost directories relative to the previous group's prefix, then its sources, and that group becomes the previous one |
| Merging.SamePrefixAddsNothing | lib/src/merge.rs:90-100 | a group repeating the previous group's prefix emits no directory |
| Merging.UnrelatedGroupItems | lib/src/merge.rs:90-100 | a prefix sharing nothing with the previous one emits every one of its directories, shortest first |
| Merging.RecurringPrefixAddedAgain | lib/src/merge.rs:81-101 | with prefixes a, b, a and different first components, the directories of a are emitted twice, because only the preceding group is remembered |
| Merging.MergeDirectoriesValid | lib/src/merge.rs:94-96 | every emitted directory name is a valid name, so the `expect` cannot panic |
| Merging.ApplyFailsOnUnreadable | lib/src/merge.rs:103-108 | applying the items succeeds iff every merged source can be read as an archive; otherwise it stops at the first unreadable source and reports it |
| Merging.ApplyDirectories | lib/src/merge.rs:117-127 | directory items never fail (zip-library failures are not modelled) and write one directory record each, in order, with the static options |
| Merging.ApplyAppend | lib/src/merge.rs:117-138 | applying two item lists one after the other is applying their concatenation, stopping at the first failure |
| Merging.MergeFailureStops | lib/src/merge.rs:103-114 | once a prefix of the groups fails, the later groups add nothing |
| Merging.AddDirectories | lib/src/merge.rs:90-100 | the inner loop appends the group's new directory records and cannot fail (zip-library failures are not modelled) |
| Merging.MergeSources | lib/src/merge.rs:103-112 | the source loop appends each readable archive's records in order and stops at the first unreadable one |
| Merging.MergeGroupInto | lib/src/merge.rs:82-112 | one group appends exactly its specified records and reports its failure |
| Merging.MergeNextGroup | lib/src/merge.rs:82-113 | one iteration of the group loop extends the log to the first i+1 groups' records, and moves the previous prefix on to this group's |
| Merging.Merge | lib/src/merge.rs:64-141 | the writer grows by exactly the records of the emitted items, written with the static mtime options, and the result is the first unreadable source, if any |
| LegacyMerging.LegacyDirectoriesAreGivenPrefixes | libmedusa-zip/src/merge.rs:81-86 | the directories emitted are exactly the given prefixes, one per group that has one, in group order: no parent directories are synthesized |
| LegacyMerging.LegacySourcesInOrder | libmedusa-zip/src/merge.rs:81-95 | each source yields exactly one `MergeZip`, in group order and then source order |
| LegacyMerging.LegacyDirectoryFirst | libmedusa-zip/src/merge.rs:81-95 | a group with a prefix emits its one directory first and then its sources, in order |
| LegacyMerging.LegacyFailureStops | libmedusa-zip/src/merge.rs:87-93 | once the items of a prefix of the groups fail, later groups add nothing |
| LegacyMerging.LegacyMergeGroup | libmedusa-zip/src/merge.rs:81-95 | one group appends exactly its directory record (with default options) and its sources' records, and reports its first unreadable source |
| LegacyMerging.LegacyMerge | libmedusa-zip/src/merge.rs:64-134 | the writer grows by exactly the records of the emitted items, with default options; success iff no source is unreadable, then returning the finished writer's records once, and otherwise the first unreadable source |
| CliMerge.PrefixOf | cli/src/merge.rs:42-48 | `+/` and only it means no prefix; any other prefix argument gives the validated name of the text between '+' and '/' |
| CliMerge.ParseMergeArgs | cli/src/merge.rs:26-75 | the loop, with its invariant that no sources are pending while no group is open, returns exactly the grouping of the arguments |
| CliMerge.GroupsErrorPersists | cli/src/merge.rs:46-47 | once a prefix fails to validate, the whole parse fails with that error whatever follows |
| CliMerge.GroupsFailures | cli/src/merge.rs:42-48 | the parse succeeds iff every prefix argument's prefix validates, and an error is that of some prefix argument |
| CliMerge.GroupsValid | cli/src/merge.rs:42-48 | every group the parse returns has no prefix or a valid one |
| CliMerge.GroupsSources | cli/src/merge.rs:39-73 | the groups' sources, in order, are exactly the non-prefix arguments |
| CliMerge.GroupsCount | cli/src/merge.rs:34-73 | there is one group per prefix argument, plus one without a prefix when the first argument is a source; no arguments give no groups; the first group's prefix is that of the first argument |
| CliMerge.TrailingPrefixGroup | cli/src/merge.rs:49-72 | a prefix argument at the end still yields a group, with no sources |
| CliMerge.ExampleGroups | cli/src/merge.rs:39-73 | `x.zip +/ y.zip` gives two groups without a prefix, one source each, and no arguments give no groups |
| LegacyLib.ValidateName | libmedusa-zip/src/lib.rs:135-149 | `NameIsEmpty` exactly for the empty name, and every other error carries the name |
| LegacyLib.ValidateNameAccepts | libmedusa-zip/src/lib.rs:135-149 | a name is accepted iff none of its '/'-pieces is empty |
| LegacyLib.ValidateNameVersusValidate | libmedusa-zip/src/lib.rs:135-149 | every name the current `validate` accepts is accepted here; apart from names starting with "./", which only the current check rejects, the two agree |
| LegacyLib.DotSlashAcceptedOnlyHere | libmedusa-zip/src/lib.rs:135-149 | "./a" is accepted by the older check and rejected as `NameStartsWithDotSlash` by the current one (lib/src/lib.rs:137-140) |
| LegacyLib.DirectoryComponentsShape | libmedusa-zip/src/lib.rs:151-159 | the directory components are the '/'-pieces without the last, count('/') of them, none containing '/', and joining them with the last piece gives the name back |
| LegacyLib.ZipOptionsFor | libmedusa-zip/src/lib.rs:96-107 | `Reproducible` fixes the time to 1980-01-01 00:00:00, `CurrentTime` keeps the library defaults, and nothing but the time differs from the defaults |
| LegacyLib.ZipSingle | libmedusa-zip/src/lib.rs:233-269 | a single-member archive is made iff the input can be read (else an I/O error); it is named by the output name and holds the input's file with the reproducibility options |
| LegacyLib.NameLessIsStrictWeakOrder | libmedusa-zip/src/lib.rs:120-130 | ordering intermediate archives by plain name text is a strict weak order |
| LegacyLib.FirstBad | libmedusa-zip/src/lib.rs:178-183 | the position of the first name that fails validation, or the length when none does |
| LegacyLib.WriteLogAllGood | libmedusa-zip/src/lib.rs:176-219 | when every name validates, the write loop succeeds with the full log |
| LegacyLib.WriteLogBadAt | libmedusa-zip/src/lib.rs:183 | when name i is the first to fail, the log is that of the entries before it, neither that file nor its directories are written, and its error is reported |
| LegacyLib.WriteLogSucceeds | libmedusa-zip/src/lib.rs:176-219 | writing succeeds iff every name validates |
| LegacyLib.LogFiles | libmedusa-zip/src/lib.rs:176-219 | the file records of the log are the archives' members, once each, in the order written |
| LegacyLib.LogParentsFirst | libmedusa-zip/src/lib.rs:187-212 | every file record comes after a directory record for each directory containing it |
| LegacyLib.WriteEntry | libmedusa-zip/src/lib.rs:187-218 | one file appends the directories new relative to the previous file's, then the file, and the previous directories become this file's |
| LegacyLib.WriteZipEntry | libmedusa-zip/src/lib.rs:178-219 | one iteration either reports the first bad name, writing nothing, or appends that entry's records |
| LegacyLib.WriteInOrder | libmedusa-zip/src/lib.rs:176-219 | the loop appends exactly the specified log and fails exactly with the first bad name's error |
| LegacyLib.WriteZip | libmedusa-zip/src/lib.rs:161-224 | the archives are sorted by plain name text, as a permutation, before writing; the writer grows by exactly their log, and the result is the first bad name, if any |
| LegacyLib.ZipSingles | libmedusa-zip/src/lib.rs:280-285 | making the intermediate archives succeeds iff every input can be read, then giving one archive per input, in order |
| LegacyLib.NamesSurvivePermutation | libmedusa-zip/src/lib.rs:174 | sorting changes neither whether all names validate nor whether all archives are well formed |
| LegacyLib.Zip | libmedusa-zip/src/lib.rs:271-295 | success iff every input is readable and every output name validates; an unreadable input is reported before anything is written; on success the writer holds a sorted permutation of the archives, written with each file once and its parent directories first; when the inputs are readable but a name is bad, the error is that of the first bad name in the sorted order and the writer holds the records of the archives before it |
| LegacyLib.InputPaths | libmedusa-zip/src/lib.rs:362-383 | one pair per crawled path, in order: the resolved path and the unresolved path as text |
| LegacyLib.InputPathsAgree | libmedusa-zip/src/lib.rs:362-383 | when the current conversion (lib/src/crawl.rs:125-156) succeeds, it names and sources each file as the older pairs do, and those names pass the older check |
| LegacyZip.FromOptionsAccepts | libmedusa-zip/src/zip.rs:404-464 | parsing succeeds iff no level is given or the level lies in the method's range (deflate and bzip2 0..=9, zstd -7..=22, none for stored); on success the strategy keeps the method and exactly the given level; a level with stored fails with `CompressionLevelWithStored`, any other failure is `InvalidCompressionLevel` with the method, level and range |
| LegacyZip.NegativeLevelOnlyForZstd | libmedusa-zip/src/zip.rs:405-407 | a negative level is accepted iff the method is zstd and the level is at least -7 |
| LegacyZip.SetStaticCompression | libmedusa-zip/src/zip.rs:467-495 | the options get the strategy's ZIP method and level, and time, permissions and the large-file flag are untouched |
| LegacyZip.ExplicitOverridesAutomatic | libmedusa-zip/src/zip.rs:148-181 | an explicit timestamp wins over the automatic strategy both statically and per file (and per file cannot fail); `Reproducible` gives the minimum ZIP time; statically `PreserveSourceTime` behaves as `CurrentTime`; the static rule changes only the time |
| LegacyZip.CurrentAgrees | libmedusa-zip/src/zip.rs:268-298 | the struct-form time behaviour (automatic strategy plus optional explicit time) computes the same options, statically and per file, as the newer enum form it maps to |
| LegacyZip.StaticOptions | libmedusa-zip/src/zip.rs:985-990 | the loop applies the static initializers in order, giving exactly their fold |
| LegacyZip.SharedOptionsEffect | libmedusa-zip/src/zip.rs:985-990 | the shared options, built from the defaults by the time rule then the compression rule, carry the static time, the strategy's method and level, no permissions and no large-file flag |
| LegacyZip.RecordMatchesSync | libmedusa-zip/src/zip.rs:696-753 | with the large-file branch corrected, the entry an opened handle produces is exactly the synchronous writer's entry, failing exactly when it fails, and only for files, with an input-read or ZIP error |
| LegacyZip.LargeFileSkipsFileOptions | libmedusa-zip/src/zip.rs:715-749 | as written, only files longer than 10000 bytes differ from the corrected record: they are written with the shared options only, so the corrected record carries the file's permissions where the written one does not |
| LegacyZip.LargeFileExample | libmedusa-zip/src/zip.rs:726-727 | a 20000-byte file with mode 0o755: as written the parallel path records no permissions while the synchronous path records 0o755, and with `PreserveSourceTime` and no source time the parallel path succeeds where the synchronous path fails |
| LegacyZip.RunMatchesSync | libmedusa-zip/src/zip.rs:811-857 | one intermediate archive writes the same entries, in order, as the synchronous writer and fails exactly when it does |
| LegacyZip.RunIntermediateAppend | libmedusa-zip/src/zip.rs:813-821 | running two lists one after the other equals running their concatenation: stop at the first list's failure, else append the second list's entries and outcome |
| LegacyZip.ParallelRunIsRun | libmedusa-zip/src/zip.rs:902-917 | merging the chunks' intermediate archives in order fails exactly as one run over all entries; on success it writes the same entries, on failure nothing |
| LegacyZip.EmptyPlanPanics | libmedusa-zip/src/zip.rs:897-904 | an empty input gives an empty plan and the chunk size as written is 0, which `chunks` rejects |
| LegacyZip.ChunkSize | libmedusa-zip/src/zip.rs:897-901 | the corrected chunk size is always at least 1 |
| LegacyZip.ChunkSizeSound | libmedusa-zip/src/zip.rs:897-904 | for non-empty input the corrected size equals the written one and never exceeds the length; the chunks concatenate back to the entries; fewer than 20 entries make one chunk; at 20 or more, 20 chunks of that size fit in the input; an empty input makes no chunks |
| LegacyZip.OpenHandle | libmedusa-zip/src/zip.rs:696-753 | a directory spec gives a directory handle and only it does; a failure is an input-read error; resolving the handle gives exactly the (corrected) record of the entry |
| LegacyZip.WriteHandle | libmedusa-zip/src/zip.rs:826-856 | writing a resolvable handle appends exactly its entry; a failing one reports its error and leaves the archive unchanged |
| LegacyZip.IntermediateEntry | libmedusa-zip/src/zip.rs:813-856 | one step of the intermediate pipeline: a failure is the run's failure from this entry on; otherwise the archive so far followed by the rest of the run equals the archive before followed by the run from this entry |
| LegacyZip.ZipIntermediate | libmedusa-zip/src/zip.rs:797-871 | the intermediate archive of a chunk holds exactly the run's entries, or the run's first error |
| LegacyZip.ParallelRunSucceeds | libmedusa-zip/src/zip.rs:902-917 | when every chunk's archive succeeds, the output receives all of them concatenated in chunk order |
| LegacyZip.ParallelRunFails | libmedusa-zip/src/zip.rs:902-907 | when a chunk fails and all earlier chunks succeed, nothing is written and that chunk's error is reported |
| LegacyZip.ZipParallel | libmedusa-zip/src/zip.rs:884-920 | the output gains exactly the parallel run's entries over the corrected chunks, and the failure is the run's failure |
| LegacyZip.ParallelMatchesSync | libmedusa-zip/src/zip.rs:884-965 | with the corrected record and chunk size, the parallel path succeeds iff the synchronous one does, then writes the same entries; a failure writes nothing |
| LegacyZip.Zip | libmedusa-zip/src/zip.rs:967-1012 | an invalid compression option fails first and writes nothing; the input is sorted as a permutation; a duplicate name or an invalid prefix fails before anything is written; otherwise the archive succeeds iff the synchronous run of the plan does and then holds exactly its entries; the synchronous mode writes the completed records plus, after a failed copy (libmedusa-zip/src/zip.rs:955-956), the begun file entry; a failing parallel run writes nothing |

## Left out

- **Concurrency.** This covers tokio tasks, `spawn_blocking`, the mpsc and oneshot
  channels, `try_join_all`, `Arc<Mutex<…>>` and `OutputWrapper::{lease, reclaim}`. Only
  the order in which entries reach the output is modelled. A channel becomes the
  sequence of items sent on it.
- **Which error a parallel run reports.** When several parallel items fail, the
  source may report any one of them. The model reports the first failure in input
  order.
- **The zip byte format.** The model has no local headers, central directory, CRC-32
  or compression. It also leaves out temporary files, spooling, `finish` and
  `ZipArchive::by_name`. The writer is an append-only log of records.
- **Zip-library failures in the current crate.** In `ZipWriting` and `Merging` the
  calls into the zip library are assumed to succeed: `add_directory`, `start_file`,
  `finish_into_readable`, `merge_archive` and `ZipArchive::new` on a readable source
  (lib/src/zip.rs:563, 566, 660, 670, 685, 734, 774-777; lib/src/merge.rs:117-137).
  The errors `MedusaZipError::Zip` (lib/src/zip.rs:54), `MedusaInputReadError::Zip`
  (lib/src/zip.rs:498) and `MedusaMergeError::Zip` (lib/src/merge.rs:37) have no value
  in the model.
- ZipIntermediate: "any failure is a read error" holds because zip-library failures are not modelled; the source can also fail there with `MedusaInputReadError::Zip`.
- ParallelRunIsPrefix: "the error is a read error" holds only in the model, for the same reason; `merge_archive` and `finish_into_readable` can fail with `MedusaZipError::Zip` in the source.
- ZipSynchronous: `add_directory` and `start_file` are assumed to succeed, so the run's failure is never `MedusaZipError::Zip` here.
- AddDirectories: "cannot fail" holds only in the model; `add_directory` can fail with `MedusaMergeError::Zip` in the source. The same goes for `Merging.ApplyDirectories`.
- **Zip-library failures in the older crate.** The older writers also assume that
  their calls into the zip library succeed. The one exception is `LegacyZip`'s abstract
  `ZipLibrary` error. It stands only for a failed copy of a file of more than 10000
  bytes into an intermediate archive. These calls are taken to succeed:
  - `add_directory`, `ZipArchive::new`, `by_name`, `raw_copy_file` and `finish` in the
    single-file writer (libmedusa-zip/src/lib.rs:208, 215, 217, 218, 221);
  - `add_directory`, `start_file` and `merge_archive` in `zip_intermediate`
    (libmedusa-zip/src/zip.rs:832, 841, 850);
  - the temporary archive's `finish` and `ZipArchive::new`
    (libmedusa-zip/src/zip.rs:865-866);
  - the final `merge_archive` (libmedusa-zip/src/zip.rs:913);
  - `add_directory` and `start_file` in `zip_synchronous`
    (libmedusa-zip/src/zip.rs:938, 955);
  - `add_directory`, `merge_archive` and `finish` in the older merge
    (libmedusa-zip/src/merge.rs:106, 115, 128).

  `LegacyLib`'s `Zip` error variant is therefore never produced.
- LegacyLib.WriteZipEntry: an iteration fails only on a bad name here; the `add_directory`, `ZipArchive::new`, `by_name` and `raw_copy_file` failures (libmedusa-zip/src/lib.rs:208-218) are not modelled.
- LegacyLib.WriteLogSucceeds: "succeeds iff every name validates" holds only in the model, because the writer's `MedusaZipError::Zip` failures are not modelled.
- LegacyLib.WriteInOrder: fails only with the first bad name's error; the writer's `Zip` failures are not modelled.
- LegacyLib.WriteZip: the result is only the first bad name's error; the writer's `Zip` failures, `finish` (libmedusa-zip/src/lib.rs:221) included, are not modelled.
- LegacyLib.Zip: "success iff every input is readable and every output name validates" holds only in the model; the output writer's `MedusaZipError::Zip` is not modelled.
- LegacyZip.WriteHandle: a resolvable handle always appends; the `add_directory`, `start_file` and `merge_archive` failures (libmedusa-zip/src/zip.rs:832, 841, 850) are not modelled.
- LegacyZip.ZipIntermediate: fails only with the run's first entry error; the temporary archive's zip-library failures (libmedusa-zip/src/zip.rs:832-866) are not modelled, except for the large-file copy.
- LegacyZip.ParallelRunIsRun: "a failure writes nothing" holds only in the model. In the source, a failed `merge_archive` into the output (libmedusa-zip/src/zip.rs:913) on chunk k leaves chunks 0 to k-1 merged.
- LegacyZip.ParallelMatchesSync: "a failure writes nothing" is the model's, for the same reason as `LegacyZip.ParallelRunIsRun`.
- LegacyZip.ZipParallel: `merge_archive` into the output is assumed to succeed, so it never leaves part of the chunks merged.
- LegacyZip.Zip: apart from the large-file copy, the zip-library failures of both paths are not modelled.
- LegacyMerging.LegacyMergeGroup: the `add_directory` and `merge_archive` failures (libmedusa-zip/src/merge.rs:106, 115) are not modelled.
- LegacyMerging.LegacyMerge: "success iff no source is unreadable" holds only in the model; `MedusaMergeError::Zip` from `add_directory`, `merge_archive` and `finish` (libmedusa-zip/src/merge.rs:106, 115, 128) is not modelled.
- **Unreadable merge sources.** A source archive that cannot be opened
  (`MedusaMergeError::Io`) and one that `ZipArchive::new` rejects (`MedusaMergeError::Zip`)
  both become `SourceUnreadable` in `Merging` and `LegacyMerging`
  (lib/src/merge.rs:103-108; libmedusa-zip/src/merge.rs:88-90).
- **Infrastructure errors.** `JoinError`, `SendError` and `TryFromIntError` from task
  joins, channel sends and integer conversions are not modelled. In the model none of
  these can happen.
- **Time handling.** The model leaves out the local UTC offset, reading the clock,
  RFC 3339 parsing of explicit timestamps, and the 1980-2107 range check of the zip
  time type.
  - The current time is a parameter.
  - A source file's modification time is either available or unavailable.
  - When a modification time does not fit, that is a flag on the metadata.
- **Permissions.** Unix permission bits are an opaque number copied from the
  metadata. The non-unix branch of `PreservePermsBehavior` is not modelled.
- **Ignore patterns.** The regular expressions are an opaque predicate on the
  unresolved path's text.
- **Directory reading.** `read_dir` order is whatever order the directory node
  lists its children in.
- **Crawl termination.** The source keeps no visited set, so a symbolic-link cycle
  recurses without end. The model's crawl takes a fuel bound and reports `Diverges`
  when it runs out. This stands in for that non-termination.
- SplitIndices: the ranges are character offsets into a string of characters, where the source's `char_indices` gives byte offsets into UTF-8 text; both cut out the same pieces.
- FileSources: does not model the `expect` panic on an unresolved path that is not valid UTF-8 (lib/src/crawl.rs:139-142), because paths here are sequences of characters.
- FileSources: does not model the `NameHasDoubleSlash` rejection (lib/src/lib.rs:145-146) of a name built from a root written with a repeated or trailing separator, such as `docs//x.txt` from the root `docs//`; paths are modelled by their non-empty components (`Paths.Parse`), so that name is `docs/x.txt` here and is accepted. The same holds for `ToMedusaZip` and `CrawlPaths`.
- CrawlSingle: states that each result extends the start's unresolved path, not the full chain of directory entries and links that leads from the start's resolved path to the result's.
- InputPaths: does not model the `expect` panic on an unresolved path that is not valid UTF-8 (libmedusa-zip/src/lib.rs:372-375), for the same reason.
- CrawlSingle: does not model I/O errors from `read_dir`, reading a directory entry, `symlink_metadata` on an existing path or `read_link`; only a missing path fails with an I/O error, and a special file fails the `is_file` assertion.
- **The older crate's entry names.** The older crate's `crate::EntryName` is not part of this model. The `Legacy` modules reuse `EntryNames` from the current crate in its place.
- **Dots inside names.** Only a leading "./" is rejected, as in the source. Interior
  "." and ".." components are kept as written.
- **`add_prefix` works on a value.** `EntryNames.AddPrefix` returns the prefixed name
  instead of updating `self` in place. The name's fields have no other aliases, so
  only the in-place update itself is not captured.
- **The older single-file crawler.** The older `libmedusa-zip/src/lib.rs` has its own
  `Input`/`MedusaCrawl` crawler (libmedusa-zip/src/lib.rs:460-475). It has the same
  shape as `LegacyCrawl`, but it has no ignores and no clean-up for export: its names
  keep a leading "./", and its resolved paths are not joined to the working directory.
  It is not modelled separately.
- **Files not part of this model.** These are `cli/src/main.rs`, `cli/src/util.rs`,
  `cli/src/crawl.rs` and `cli/src/destination.rs`, the Python bindings under `py/`, the
  benchmarks, `src/main.rs`, `crawl-zip.py` and `setup.py`. They hold argument parsing,
  JSON input and output, process orchestration, and mirror-enum conversions already
  covered by `CliZip`.
- **Where the older writer's behaviour is corrected.** `LegacyZip.Zip` and
  `LegacyZip.ZipParallel` use the corrected large-file rule and the corrected chunk
  size from the findings below. `LegacyZip.OpenHandle`, `RecordMatchesSync`,
  `RunMatchesSync`, `WriteHandle`, `IntermediateEntry`, `ZipIntermediate` and
  `ParallelRunIsRun` go through the same corrected `LegacyZip.Record`. The behaviour as written is kept beside them as
  `LegacyZip.RecordAsWritten` and `LegacyZip.ChunkSizeAsWritten`. Likewise,
  `ZipPlan.Plan` checks the combined prefix before it emits any directory. The loop
  as written is `ZipPlan.OwnPrefixDirectoriesAsWritten`.

## Findings

| source | as written | input that shows it | evidently intended | confidence | as-written member | corrected member |
|---|---|---|---|---|---|---|
| lib/src/zip.rs:443-449 | the silent and own prefixes are validated one at a time; each own-prefix directory is then joined and re-validated with `expect` | silent prefix "." and own prefix "a": each validates alone, but "./a" is rejected, so the `expect` panics | reject the combined prefix with a `NameFormat` error before emitting anything | high, not executed | ZipPlan.DotPrefixPanics | ZipPlan.PlanProperties |
| libmedusa-zip/src/zip.rs:726-727 | on the parallel path, a file longer than 10000 bytes is copied with the shared options only; the per-file rules are skipped | a 20000-byte file with mode 0o755: the parallel path records no permissions, while the synchronous path (libmedusa-zip/src/zip.rs:950-951) records 0o755 | apply the per-file rules to every file, as the synchronous path does, so that both modes write the same archive; the current `open_handle` (lib/src/zip.rs:539) applies them to every file | medium, not executed | LegacyZip.LargeFileExample | LegacyZip.ParallelMatchesSync |
| libmedusa-zip/src/zip.rs:897-904 | the chunk size is the entry count when there are fewer than 20 entries | an empty input list: the chunk size is 0, and `chunks(0)` panics | a chunk size of at least 1, so that an empty plan writes nothing | high, not executed | LegacyZip.EmptyPlanPanics | LegacyZip.ChunkSizeSound |
