# BlinkSync in Dafny

A model of BlinkSync, a one-way directory synchroniser. It copies every
selected file of a source tree into a destination tree, skips files that are
already up to date, optionally deletes what the source does not have, and
counts what it did in seven counters. The disk is an in-memory tree
(`FsTree.Tree`). Each directory maps names to file metadata (length, write
time, attributes) and to subdirectories. Which filesystem operation throws is
given by `fails`, a set of destination paths.

The modules follow the program:

- `FileSpec`: FileSpecToRegex and FileSpecsToRegex, as a glob matcher on the
  trimmed filespec.
- `FilespecList`: the cursor parser ParseFilespecs and its partner `Segments`.
- `Filter`: ShouldExclude.
- `Config`: the InputParams object, its AreSourceFilesFiltered predicate and
  the checks Main makes before it synchronises.
- `Lister`: GetFiles and GetDirectories, with their in-place removal loops.
- `Eraser`: DeleteDirectory.
- `SyncResults`: the counters and the Results object.
- `Passes`, `SyncSpec`: the order-independent description of one run.
  - `Synced` is what a run that gets through leaves.
  - `Runs` says whether it gets through.
  - `Delta` is how much it raises the counters.
  - `Left` is what a run that stops at a throwing operation may leave.
- `Reconciler`: ProcessDirectory and Sync as imperative methods over the
  listings. They are proved against `SyncSpec`.
- `SyncProperties`: properties of the specification:
  - a run with `-d` mirrors the filtered source;
  - a second run changes nothing and copies nothing;
  - without `-d` nothing is deleted.
- `SyncTools`, `MainTests`, `FilterTests`: the test helpers and every
  scenario of the test suite, stated as counter vectors.

## Model

| member | source | states |
|---|---|---|
| FileSpec.TrimStart | Source/BlinkSyncLib/BlinkSync.cs:544 | the result is a suffix of the filespec that does not start with white space, and only white space was removed |
| FileSpec.TrimEnd | Source/BlinkSyncLib/BlinkSync.cs:544 | the result is a prefix of the filespec that does not end with white space, and only white space was removed |
| FileSpec.TrimStartPadding | Source/BlinkSyncLib/BlinkSync.cs:544 | leading white space does not change the trimmed filespec |
| FileSpec.TrimEndPadding | Source/BlinkSyncLib/BlinkSync.cs:544 | trailing white space does not change the trimmed filespec |
| FileSpec.CompileIgnoresPadding | Source/BlinkSyncLib/BlinkSync.cs:542-549 | a padded filespec compiles to the matcher of the bare filespec |
| FileSpec.TrimKeepsGlob | Source/BlinkSyncLib/BlinkSync.cs:544-547 | trimming introduces no regex metacharacter |
| FileSpec.FileSpecsToRegex | Source/BlinkSyncLib/BlinkSync.cs:554-562 | one matcher per filespec, in the same order, each the compilation of its filespec |
| FileSpec.LiteralMatch | Source/BlinkSyncLib/BlinkSync.cs:545-548 | a filespec without `*` or `?` matches exactly the names equal to it up to case, so `.` is literal and the match is anchored at both ends |
| FileSpec.StarMatch | Source/BlinkSyncLib/BlinkSync.cs:546 | `*` matches every run of characters, the empty one included, that holds no line feed |
| FileSpec.QuestionMarkMatch | Source/BlinkSyncLib/BlinkSync.cs:547 | `?` matches the empty name or one character other than a line feed, because it becomes `.?` |
| FileSpec.ConcatMatch | Source/BlinkSyncLib/BlinkSync.cs:545-548 | matches compose: a match of p followed by a match of q matches p followed by q |
| FileSpec.LiteralOccurs | Source/BlinkSyncLib/BlinkSync.cs:545-548 | every literal character of a filespec occurs, up to case, in every name it matches |
| FileSpec.Mismatch | Source/BlinkSyncLib/BlinkSync.cs:545-548 | a name lacking a literal character of the filespec does not match it |
| FileSpec.SelfMatch | Source/BlinkSyncLib/BlinkSync.cs:545-548 | a filespec without wildcards matches itself |
| FileSpec.SuffixMatch | Source/BlinkSyncLib/BlinkSync.cs:546-548 | `*` followed by a literal matches every name ending in that literal |
| FileSpec.PrefixMatch | Source/BlinkSyncLib/BlinkSync.cs:546-548 | a literal followed by `*` matches every name starting with it |
| FileSpec.InfixMatch | Source/BlinkSyncLib/BlinkSync.cs:546-548 | a literal between two stars matches every name containing it |
| FileSpec.MatchIgnoresCase | Source/BlinkSyncLib/BlinkSync.cs:548 | a name matches exactly when its lower-case form matches (RegexOptions.IgnoreCase) |
| FileSpec.Lower | Source/BlinkSyncLib/BlinkSync.cs:548 | the lower-case form keeps the length and folds each character |
| FilespecList.IndexOf | Source/BlinkSyncLib/BlinkSync.cs:480-487 | the first index at or after `from` holding the character, or -1 when there is none |
| FilespecList.ScanSegment | Source/BlinkSyncLib/BlinkSync.cs:476-487 | a quoted segment makes the parse fail; an unquoted one ends at the next comma searched from pos+1, or at the end |
| FilespecList.ParseStep | Source/BlinkSyncLib/BlinkSync.cs:484-495 | one turn of the loop on an unquoted segment appends that segment and resumes after the comma |
| FilespecList.ParseFilespecs | Source/BlinkSyncLib/BlinkSync.cs:465-500 | false when iArg is past the arguments; otherwise true exactly when `Segments` of the token succeeds, and then one matcher per segment in order |
| FilespecList.ParseJoin | Source/BlinkSyncLib/BlinkSync.cs:474-497 | an unquoted comma-separated list parses back to its filespecs, in order |
| FilespecList.ParseTrailingComma | Source/BlinkSyncLib/BlinkSync.cs:493-495 | a trailing comma adds no pattern |
| FilespecList.QuotedSegmentFails | Source/BlinkSyncLib/BlinkSync.cs:476-494 | a segment starting with a quote fails the parse wherever it stands, lone or unterminated quotes included |
| FilespecList.EmptyTokenParses | Source/BlinkSyncLib/BlinkSync.cs:471-499 | an empty token parses to an empty list |
| Filter.AnyAccepts | Source/BlinkSyncLib/BlinkSync.cs:511-518 | true exactly when some pattern of the list accepts the name |
| Filter.ShouldExclude | Source/BlinkSyncLib/BlinkSync.cs:506-537 | with an exclude list: true exactly when some pattern matches; else with an include list: true exactly when none matches; else false |
| Filter.ExcludeListDecidesAlone | Source/BlinkSyncLib/BlinkSync.cs:508-521 | with an exclude list present the include list is never consulted |
| Filter.IncludeIsComplementOfExclude | Source/BlinkSyncLib/BlinkSync.cs:508-534 | including by a list excludes exactly what excluding by the same list keeps |
| Filter.EmptyLists | Source/BlinkSyncLib/BlinkSync.cs:508-534 | an empty include list excludes every name; an empty exclude list excludes none |
| Config.InputParams.constructor | Source/BlinkSyncLib/InputParams.cs:11-51 | a new InputParams has every flag false and every list null |
| Config.FilteredAgreesWithLegacy | Source/BlinkSyncLib/InputParams.cs:53-60 | the property agrees with the older field-based areSourceFilesFiltered (BlinkSync.cs:624-631) on every configuration |
| Config.FilteredDependsOnlyOnSourceSettings | Source/BlinkSyncLib/InputParams.cs:53-60 | two configurations that agree on ExcludeHidden and on which of the four source lists are null agree on AreSourceFilesFiltered |
| Config.DeleteExclusionsDoNotFilter | Source/BlinkSyncLib/InputParams.cs:46-60 | the delete-exclusion lists never change AreSourceFilesFiltered |
| Config.QuietAndDeleteDoNotFilter | Source/BlinkSyncLib/InputParams.cs:11-60 | IsQuiet and DeleteFromDest never change AreSourceFilesFiltered |
| Config.ExcludeHiddenAloneFilters | Source/BlinkSyncLib/InputParams.cs:57 | ExcludeHidden with every list null filters |
| Config.EmptyListFilters | Source/BlinkSyncLib/InputParams.cs:57-58 | a present but empty list filters |
| Config.CheckAsWritten | Source/BlinkSyncLib/BlinkSync.cs:135-166 | Main goes ahead exactly when: no include list sits beside an exclude list on one axis; the raw arguments fail the prefix test against the other's full path; delete exclusions come with `-d`; the source exists |
| Config.RelativeNestedAccepted | Source/BlinkSyncLib/BlinkSync.cs:145-151 | as written, a relative destination inside the source passes the containment test |
| Config.SiblingRejected | Source/BlinkSyncLib/BlinkSync.cs:145-151 | as written, the sibling `C:\data2` of `C:\data` is rejected, although neither is inside the other |
| Config.CheckInvocation | Source/BlinkSyncLib/BlinkSync.cs:135-166 | the same checks with containment decided on the full paths, component by component |
| Config.AcceptedIsConsistent | Source/BlinkSyncLib/BlinkSync.cs:135-166 | an accepted configuration has no include list beside an exclude list, delete exclusions only with `-d`, and neither directory inside or equal to the other |
| Config.SiblingsAccepted | Source/BlinkSyncLib/BlinkSync.cs:145-151 | the corrected test accepts two different entries of one parent |
| FsTree.Lookup | Source/BlinkSyncLib/BlinkSync.cs:244 | a Hashtable lookup: the entry when the name is present, null otherwise |
| Lister.Enumerate | Source/BlinkSyncLib/BlinkSync.cs:407 | the native listing holds every name of the directory exactly once, in an unspecified order |
| Lister.Without | Source/BlinkSyncLib/BlinkSync.cs:413-425 | the listing with the dropped names removed keeps exactly the other names, in order |
| Lister.RemoveDroppedFiles | Source/BlinkSyncLib/BlinkSync.cs:413-425 | the RemoveAt loop leaves the native listing without the dropped files, in order, and filesIgnored rises by the number removed |
| Lister.RemoveDroppedDirs | Source/BlinkSyncLib/BlinkSync.cs:443-455 | the same for subdirectories and directoriesIgnored |
| Lister.FastPathDropsNothing | Source/BlinkSyncLib/BlinkSync.cs:410-412 | skipping the filter when AreSourceFilesFiltered is false loses nothing: no entry would have been dropped |
| Lister.GetFiles | Source/BlinkSyncLib/BlinkSync.cs:404-430 | the native listing minus exactly the files that are hidden under ExcludeHidden or excluded by the file lists, order kept; filesIgnored rises by that number and no other counter changes |
| Lister.GetDirectories | Source/BlinkSyncLib/BlinkSync.cs:435-460 | the same for subdirectories, the directory lists and directoriesIgnored |
| Eraser.ClearFiles | Source/BlinkSyncLib/BlinkSync.cs:374-381 | every file loses its read-only flag and nothing else changes |
| Eraser.ClearSubdirs | Source/BlinkSyncLib/BlinkSync.cs:384-391 | every subdirectory below loses read-only, recursively |
| Eraser.ClearReadOnly | Source/BlinkSyncLib/BlinkSync.cs:372-397 | the subtree with read-only cleared everywhere, the top directory included |
| Eraser.ClearedIsWritable | Source/BlinkSyncLib/BlinkSync.cs:372-397 | after clearing, no entry of the subtree is read-only |
| Eraser.ClearedKeepsEverythingElse | Source/BlinkSyncLib/BlinkSync.cs:372-397 | clearing keeps every name and every other attribute, length and write time |
| Eraser.ClearWritableIsIdentity | Source/BlinkSyncLib/BlinkSync.cs:377-395 | clearing a subtree with nothing read-only changes nothing |
| Eraser.DeleteDirectory | Source/BlinkSyncLib/BlinkSync.cs:370-399 | succeeds exactly when the removal does not throw; on success the subtree is gone, otherwise it stays with read-only cleared |
| SyncResults.Results.constructor | Source/BlinkSyncLib/BlinkSync.cs:634-642 | a new Results has every counter at zero |
| SyncResults.Results.Set | Source/BlinkSyncLib/BlinkSync.cs:644-654 | the seven counters take exactly the given values |
| SyncResults.Results.CompareTo | Source/BlinkSyncLib/BlinkSync.cs:656-701 | true exactly when all seven counters agree; otherwise names the first differing counter in the order copied, up to date, deleted, ignored, created, directories deleted, directories ignored |
| SyncResults.SumCountersRemove | Source/BlinkSyncLib/BlinkSync.cs:323-331 | the counters of the recursion are one child's plus the others', in any order |
| SyncResults.SumCountersMonotone | Source/BlinkSyncLib/BlinkSync.cs:323-331 | a recursion stopped early adds no more than the whole recursion |
| Passes.CopiedOverAll | Source/BlinkSyncLib/BlinkSync.cs:238-283 | once the whole source listing is walked, every selected source file is in the destination |
| Passes.RemovedFromAll | Source/BlinkSyncLib/BlinkSync.cs:285-316 | once the whole destination listing is walked, every file to delete is gone |
| SyncSpec.RunsFrom | Source/BlinkSyncLib/BlinkSync.cs:201-365 | a run gets through exactly when the directory exists or is created, the file half gets through, and the directory half gets through |
| SyncSpec.SyncedIsLeft | Source/BlinkSyncLib/BlinkSync.cs:196-365 | the state of a run that gets through is one that `Left` allows, so `Left` is a relaxation of `Synced` |
| Reconciler.BuildTable | Source/BlinkSyncLib/BlinkSync.cs:226-236 | the Hashtable holds exactly the listed names, each with its metadata |
| Reconciler.CopyOrSkip | Source/BlinkSyncLib/BlinkSync.cs:240-282 | up to date exactly when the destination file has equal length, write time and attributes; otherwise the file is overwritten with the source's metadata, or, when the copy throws, left as it was or with read-only cleared |
| Reconciler.CopyFiles | Source/BlinkSyncLib/BlinkSync.cs:238-283 | succeeds exactly when no needed copy throws; then every selected file is in place and the counts are the sizes of the copy and up-to-date sets; on failure each file is as before, copied or cleared, and files needing no copy are untouched |
| Reconciler.DeleteOneFile | Source/BlinkSyncLib/BlinkSync.cs:288-315 | a destination file is deleted exactly when the filtered source lacks it and the delete-exclusion list does not spare it |
| Reconciler.DeleteFiles | Source/BlinkSyncLib/BlinkSync.cs:285-316 | succeeds exactly when no needed deletion throws; then exactly the files to delete are gone and counted; on failure each file is as before, deleted or cleared |
| Reconciler.FileTables | Source/BlinkSyncLib/BlinkSync.cs:221-236 | the two Hashtables are the selected source files and all destination files |
| Reconciler.FilesPass | Source/BlinkSyncLib/BlinkSync.cs:238-316 | the file half: succeeds exactly when FilesRun; then leaves SyncedFiles and adds exactly FilesDelta; after a failed copy nothing is deleted |
| Reconciler.SyncFiles | Source/BlinkSyncLib/BlinkSync.cs:221-316 | the same, from the listings, and the directory counters do not move |
| Reconciler.SyncChild | Source/BlinkSyncLib/BlinkSync.cs:326-330 | one recursive call: succeeds exactly when the child's run gets through, and returns the child as its run leaves it, also on failure |
| Reconciler.SyncSubdirs | Source/BlinkSyncLib/BlinkSync.cs:323-331 | the recursion loop: succeeds exactly when every child run gets through; then each selected subdirectory holds its Synced tree and the counters rise by the sum of the children's Deltas; on failure the children done and the failing one keep their partial trees |
| Reconciler.DeleteOneSubdir | Source/BlinkSyncLib/BlinkSync.cs:338-360 | a destination subdirectory is deleted, whole, exactly when the source listing lacks it and the delete-exclusion list does not spare it |
| Reconciler.DeleteSubdirs | Source/BlinkSyncLib/BlinkSync.cs:333-363 | succeeds exactly when no needed deletion throws; then exactly the subdirectories to delete are gone and counted; on failure each is as before, deleted or cleared |
| Reconciler.ListSubdirs | Source/BlinkSyncLib/BlinkSync.cs:318-321 | the filtered source subdirectories and every destination subdirectory; directoriesIgnored rises by the number dropped |
| Reconciler.DeletePassDirs | Source/BlinkSyncLib/BlinkSync.cs:333-363 | the subdirectory deletion pass: leaves SyncedDirs when it gets through, and removes or clears only subdirectories to delete |
| Reconciler.CountDeletedDirectories | Source/BlinkSyncLib/BlinkSync.cs:353 | directoriesDeleted rises by the deletions and nothing else changes |
| Reconciler.SyncDirs | Source/BlinkSyncLib/BlinkSync.cs:318-363 | the directory half: succeeds exactly when DirsRun; then leaves SyncedDirs and adds exactly DirsDelta; after a failed recursion no subdirectory is deleted |
| Reconciler.CreateDirectory | Source/BlinkSyncLib/BlinkSync.cs:201-219 | a missing directory is created and counted unless the creation throws; an existing one is kept |
| Reconciler.SyncContents | Source/BlinkSyncLib/BlinkSync.cs:221-365 | both halves: succeed exactly when both get through; after a failed file half the subdirectories and directory counters are untouched |
| Reconciler.ProcessDirectory | Source/BlinkSyncLib/BlinkSync.cs:196-365 | returns true exactly when no needed operation throws (Runs); then the destination is Synced and the counters rise by Delta; on failure it stops at the first throw: what it leaves is within Left, no later stage runs, counters keep their gains and stay within Delta, and a failed creation changes nothing |
| Reconciler.Sync | Source/BlinkSyncLib/BlinkSync.cs:187-191 | ProcessDirectory on the root directories, with the same guarantees |
| SyncProperties.CopiedPlusUpToDate | Source/BlinkSyncLib/BlinkSync.cs:238-283 | on success filesCopied plus filesUpToDate rises by the number of selected source files |
| SyncProperties.SelectedPlusIgnored | Source/BlinkSyncLib/BlinkSync.cs:404-430 | every source file is either selected or counted as ignored |
| SyncProperties.IgnoredSourceFileDeleted | Source/BlinkSyncLib/BlinkSync.cs:221-316 | with `-d`, a destination copy of a source file the filter drops is deleted unless spared |
| SyncProperties.SyncedDirsEntries | Source/BlinkSyncLib/BlinkSync.cs:318-363 | after the directory half each subdirectory is the synced child when selected, untouched otherwise, and gone when deleted |
| SyncProperties.MirrorsFilteredSource | Source/Test/MainTests.cs:294-305 | with `-d` and no delete exclusions, a run that gets through leaves exactly the selected files, with their metadata, and the selected subdirectories, recursively |
| SyncProperties.SyncedIdempotent | Source/BlinkSyncLib/BlinkSync.cs:196-365 | a second run over the result changes nothing |
| SyncProperties.SecondRunCannotFail | Source/BlinkSyncLib/BlinkSync.cs:196-365 | a second run needs no copy, deletion or creation, so no failing operation can stop it |
| SyncProperties.SecondRunQuiet | Source/BlinkSyncLib/BlinkSync.cs:238-283 | a second run copies, deletes and creates nothing and counts every selected file up to date |
| SyncProperties.DeltaSplit | Source/BlinkSyncLib/BlinkSync.cs:196-365 | each counter's rise is this directory's share plus the sum over the recursive runs |
| SyncProperties.NoDeleteCountsNoDeletion | Source/BlinkSyncLib/BlinkSync.cs:286-334 | without `-d` neither deletion counter rises anywhere in the tree |
| SyncProperties.NoDeleteKeepsEverything | Source/BlinkSyncLib/BlinkSync.cs:286-334 | without `-d` every destination entry survives and unselected files keep their metadata |
| SyncProperties.NothingFailsRuns | Source/BlinkSyncLib/BlinkSync.cs:196-365 | when no operation throws, the run gets through |
| SyncTools.CompareByteArrays | Source/Test/SyncTools.cs:85-99 | true exactly when the lengths are equal and every element agrees |
| MainTests.StripMetadataFromFilename | Source/Test/MainTests.cs:444-472 | the loop agrees with `Strip`: the name and flags, or the exception it throws |
| MainTests.StripPlain | Source/Test/MainTests.cs:446-451 | a name not starting with `*` comes back unchanged with both flags false |
| MainTests.StripTagged | Source/Test/MainTests.cs:453-472 | a tagged name gives back the name after the first bar, with isHidden and isCopy set exactly by `h` and `c` |
| MainTests.StripUnknown | Source/Test/MainTests.cs:465-468 | any other flag before the bar throws, naming it |
| MainTests.StripUnterminated | Source/Test/MainTests.cs:453-455 | flags with no bar after them run off the end and throw |
| MainTests.Initialization | Source/Test/MainTests.cs:21-27 | a fresh InputParams with IsQuiet set and everything else at its default |
| MainTests.RunScenario | Source/Test/MainTests.cs:287-289 | a fresh Results after Sync holds exactly Delta and the destination is Synced |
| MainTests.CompareWithExpected | Source/Test/SyncTools.cs:101-152 | Set then CompareTo answers true exactly when the counters equal the expected ones |
| MainTests.TestOneCase | Source/Test/MainTests.cs:267-307 | passes exactly when Delta equals the expected counters; with `-d` and no delete exclusions the destination mirrors the filtered source |
| MainTests.DestinationFolderDoesNotExist | Source/Test/MainTests.cs:30-39 | no destination, `-d`: (4,0,0,0,2,0,0) |
| MainTests.DestinationFolderExists | Source/Test/MainTests.cs:42-51 | destination with an empty foo, `-d`: (4,0,0,0,0,0,0) |
| MainTests.TwoFilesUpToDate | Source/Test/MainTests.cs:54-63 | two exact copies present: (2,2,0,0,0,0,0) |
| MainTests.TwoFilesDifferent | Source/Test/MainTests.cs:66-75 | two files written at another time: (4,0,0,0,0,0,0) |
| MainTests.TwoExtraFilesDeleted | Source/Test/MainTests.cs:79-88 | two extra files, `-d`: (4,0,2,0,0,0,0) |
| MainTests.ExtraDirectoryDeleted | Source/Test/MainTests.cs:92-101 | an extra directory, `-d`: (4,0,0,0,1,1,0) |
| MainTests.TwoExtraFilesKept | Source/Test/MainTests.cs:104-113 | two extra files, no `-d`: (4,0,0,0,0,0,0) |
| MainTests.ExtraDirectoryKept | Source/Test/MainTests.cs:116-123 | an extra directory, no `-d`: (4,0,0,0,1,0,0) |
| MainTests.TwoHiddenCopied | Source/Test/MainTests.cs:126-135 | two hidden files without ExcludeHidden: (4,0,0,0,2,0,0) |
| MainTests.TwoHiddenExcluded | Source/Test/MainTests.cs:138-146 | two hidden files with ExcludeHidden: (2,0,0,2,2,0,0) |
| MainTests.Copying4FilesDestinationFolderDoesNotExist | Source/Test/MainTests.cs:30-39 | the scenario passes and the destination mirrors the source |
| MainTests.Copying4FilesDestinationFolderExists | Source/Test/MainTests.cs:42-51 | the scenario passes and the destination mirrors the source |
| MainTests.Copying4FilesTwoFilesAlreadyExistAndAreUpToDate | Source/Test/MainTests.cs:54-63 | the scenario passes and the destination mirrors the source |
| MainTests.Copying4FilesTwoFilesAlreadyExistButAreDifferent | Source/Test/MainTests.cs:66-75 | the scenario passes and the destination mirrors the source |
| MainTests.Copying4FilesTwoAdditionalFilesExistInDestination | Source/Test/MainTests.cs:79-88 | the scenario passes and the destination mirrors the source |
| MainTests.Copying4FilesAdditionalDirectoryExistsInDestination | Source/Test/MainTests.cs:92-101 | the scenario passes and the destination mirrors the source |
| MainTests.Copying4FilesTwoAdditionalFileExistInDestination | Source/Test/MainTests.cs:104-113 | the scenario passes |
| MainTests.Copying4FilesAdditionalDirectoryInDestination | Source/Test/MainTests.cs:116-123 | the scenario passes |
| MainTests.Copying4FilesTwoAreHidden | Source/Test/MainTests.cs:126-135 | the scenario passes and the destination mirrors the source |
| MainTests.Copying4FilesTwoAreHiddenWithExcludeHidden | Source/Test/MainTests.cs:138-146 | the scenario passes |
| FilterTests.CompileBareSpecs | Source/Test/SyncTools.cs:16-24 | filespecs without padding compile to one matcher each, in order |
| FilterTests.ExcludeFileFilter | Source/Test/MainTests.cs:149-159 | excluding `*.jpg,*.wmv`: (3,0,0,1,2,0,0) |
| FilterTests.ExcludeFileFilterNotMatchAnyFiles | Source/Test/MainTests.cs:162-170 | excluding `*.abc,foo` matches nothing, because the match is anchored: (4,0,0,0,2,0,0) |
| FilterTests.ExcludeFileFilterCase | Source/Test/MainTests.cs:173-181 | excluding `*foo*`: (1,0,0,3,2,0,0) |
| FilterTests.DirectoryExcludeFilter | Source/Test/MainTests.cs:184-194 | excluding directories `foo*`: (3,0,0,0,2,0,1) |
| FilterTests.FileIncludeFilter | Source/Test/MainTests.cs:197-207 | including `*.jpg,txt*`: (2,0,0,2,2,0,0) |
| FilterTests.DirectoryIncludeFilter | Source/Test/MainTests.cs:210-221 | including directories `foo*`: (3,0,0,0,2,0,2) |
| FilterTests.DirectoryIncludeFilterNotMatchAnySubdirectories | Source/Test/MainTests.cs:224-233 | including directories `marvin`: (2,0,0,0,1,0,3) |
| FilterTests.ExcludeFromDeletionFileFilter | Source/Test/MainTests.cs:236-247 | sparing `*.jpg` from deletion: (4,0,1,0,0,0,0) |
| FilterTests.ExcludeFromDeletionDirectoryFilter | Source/Test/MainTests.cs:251-262 | sparing directories `f*` from deletion: (4,0,2,0,0,0,0) |
| FilterTests.CopyingFilesExcludeFileFilter | Source/Test/MainTests.cs:149-159 | the scenario, with its list from FileSpecsToRegex, passes |
| FilterTests.CopyingFilesExcludeFileFilterNotMatchAnyFiles | Source/Test/MainTests.cs:162-170 | the scenario passes |
| FilterTests.CopyingFilesExcludeFileFilterCase | Source/Test/MainTests.cs:173-181 | the scenario passes |
| FilterTests.CopyingFileDirectoryExcludeFilter | Source/Test/MainTests.cs:184-194 | the scenario passes |
| FilterTests.CopyingFilesFileIncludeFilter | Source/Test/MainTests.cs:197-207 | the scenario passes |
| FilterTests.CopyingFilesDirectoryIncludeFilter | Source/Test/MainTests.cs:210-221 | the scenario passes |
| FilterTests.CopyingFilesDirectoryIncludeFilterNotMatchAnySubdirectories | Source/Test/MainTests.cs:224-233 | the scenario passes |
| FilterTests.CopyingFilesExcludeFromDeletionFileFilter | Source/Test/MainTests.cs:236-247 | the scenario passes |
| FilterTests.CopyingFilesExcludeFromDeletionDirectoryFilter | Source/Test/MainTests.cs:251-262 | the scenario passes |

The test-side copies of FileSpecToRegex, FileSpecsToRegex and ParseFilespecs
(Source/Test/SyncTools.cs:16-80) are identical to the library's. They share
`FileSpec.Compile`, `FileSpec.FileSpecsToRegex` and
`FilespecList.ParseFilespecs`. SyncResults.Set and CompareTo in
Source/Test/SyncTools.cs:101-152 are `SyncResults.Results.Set` and
`SyncResults.Results.CompareTo`.

## Left out

- FileSpec.Accepts: case is folded for ASCII letters only. .NET's IgnoreCase folds every Unicode letter, following culture rules.
- FileSpec.FileSpecsToRegex: requires filespecs free of the regex metacharacters `+ ( ) [ ] ^ $ \ | { }`. The source passes them through to the Regex engine, which is not modelled.
- FilespecList.ParseFilespecs: requires the same of the token it parses, for the same reason.
- Config.CheckAsWritten: Path.GetFullPath and Directory.Exists are inputs. String.StartsWith, which is culture-sensitive, is an ordinal character-wise prefix.
- Reconciler.CopyOrSkip: a copy is taken to give the destination the source's length and write time. Only SetAttributes is visible in the source; what CopyTo keeps is not.
- Reconciler.ProcessDirectory: an I/O error is the `fails` oracle, a set of destination paths that throw. Errors on the source side, and the reasons a real operation throws, are not modelled.
- Reconciler.ProcessDirectory: names are taken to be unique in each directory, so Hashtable.Add never throws.
- Reconciler.ProcessDirectory: names are case-sensitive map keys, as in the source's Hashtables, but the filesystem beneath is case-insensitive. With `-d`, a source `A.txt` over a destination `a.txt` is copied over `a.txt`, then deleted, because the deletion pass works from the listing taken before the copy. The model keeps the file. A subdirectory whose name differs only in case is recursed into and then deleted in the same way.
- Reconciler.ProcessDirectory: a Tree may hold a file and a subdirectory with the same name. The collisions on which the source would throw are left to the `fails` set.
- Reconciler.ProcessDirectory: clearing IsReadOnly before a copy (Source/BlinkSyncLib/BlinkSync.cs:258-262) sits outside the try. An exception there escapes ProcessDirectory rather than making it return false. The model treats every failure of a copy as a false return.
- Reconciler.ProcessDirectory: CopyTo followed by SetAttributes is one atomic step. A copy that succeeds with a SetAttributes that throws is not modelled.
- Reconciler.ProcessDirectory: source and destination are separate values. A destination nested inside the source, which Main as written lets through (see Findings), cannot be expressed.
- Eraser.DeleteDirectory: a deletion that throws keeps the whole subtree, cleared of read-only. A real Delete(true) may stop halfway and leave part of the subtree deleted.
- SyncResults.Results: counters are `nat`, not 32-bit `int`, so overflow is not modelled.
- Lister.RemoveDroppedFiles: the dropped files are counted in a local and added to filesIgnored when the loop ends, where the source adds one per removal. Nothing reads the counter in between.
- Lister.RemoveDroppedDirs: likewise for directoriesIgnored.
- MainTests.TestOneCase: the MD5 digests of the two trees (CalcHash, BuildCRCStream) are replaced by the structural predicate `Mirrors`. Creating and deleting the test directories is not modelled, and neither are the file contents, whose lengths come from a generator seeded by the path.
- Console output, the argument scanning of Main, PrintUsage, PrintInvalidCommandLine and Environment.Exit are not modelled. Only the checks Main makes on the parsed configuration are.
- Source/BlinkSyncLib/FileInfoComparer.cs and DirectoryInfoComparer.cs are not part of this model. They only order listings for the digest.
- Source/BlinkSyncLib/SyncResults.cs is represented by the `Counters` datatype and the `Results` class.
- Symbolic links, and cycles through them, are not modelled: a tree is finite.

## Findings

| source | as written | input that shows it | evidently intended | confidence | as-written member | corrected member |
|---|---|---|---|---|---|---|
| Source/BlinkSyncLib/BlinkSync.cs:147 | compares the raw `destDir` with the full path of the source, and the raw `srcDir` with the full path of the destination, as character prefixes | in `C:\work`, `src` and `src\out`: the raw `src\out` does not start with `C:\work\src`, so a destination inside the source is accepted. Also `C:\data` and `C:\data2`: rejected, although they are siblings | compare the two full paths, component by component: reject exactly when one is the other or lies below it | not executed | Config.CheckAsWritten, Config.RelativeNestedAccepted, Config.SiblingRejected | Config.CheckInvocation, Config.AcceptedIsConsistent, Config.SiblingsAccepted |

The corrected test changes a second behaviour too. A sibling that merely
shares a prefix (`C:\data` beside `C:\data2`) is rejected as written
(`Config.SiblingRejected`) and accepted by the fix (`Config.SiblingsAccepted`).
