# Duplicate File Finder (by file name), modelled in Dafny

This project models the core of `dup_finder_by_filename.py`, an interactive script that finds duplicate files by name and deletes or exports them. The script works in five steps:

- It reads a comma-separated list of folders, cleans the list and keeps the entries that are directories.
- It walks every kept folder and records each file name in `file_map`, together with the list of paths where that name was seen. The names seen more than once go into `duplicates`.
- Menu options 2 and 4 delete duplicates. Option 2 covers every group; option 4 covers the groups of the names the user types. For each group, the paths are sorted newest first by modification time. The first path is kept and every other path is passed to `os.remove`, each removal in its own `try`. If a modification time cannot be read, the whole group is skipped.
- Menu option 3 exports one row per duplicate path. A row holds the name, the path, and the modification time or "N/A".
- The export goes to the first free file name among `duplicate_files.xlsx`, `duplicate_files(1).xlsx`, `duplicate_files(2).xlsx`, and so on.

Modules, one file each:

| file | module | what it models |
|---|---|---|
| `common.dfy` | `Common` | paths as strings, `Option`, `Result`, `Distinct` |
| `filesystem.dfy` | `FileSystems` | the disk as a map from path to node; `os.path.join`, `basename`, `isdir`, `getmtime`, `os.remove`; the `FileSystem` class whose `entries` the deletions change |
| `path_collector.dfy` | `PathCollector` | `split(",")`, `strip()`, the cleaning loop and comprehension, directory validation |
| `indexer.dfy` | `Indexer` | the walk order, `file_map` as an insertion-ordered dict, `duplicates` |
| `retention.dfy` | `Retention` | the key pass of `sorted`, the stable newest-first sort, keep-head/delete-tail |
| `deletion.dfy` | `Deletion` | the removal loop, the per-group `try` (as written and corrected), options 2 and 4 |
| `export.dfy` | `Export` | the export rows, `str(counter)`, the collision-avoiding export path |

Each loop of the script is a `method` with a loop and invariants. Each method is proved against a function that specifies the loop as a fold over a sequence. The lemmas state what the script promises about those functions.

The disk is a `map<Path, Node>`. A node says whether the path is a directory, holds its modification time (`None` when `getmtime` would raise), and says whether removal is refused (`locked`: permission denied or file in use). `os.walk` is a parameter, `walk: Path -> seq<WalkStep>`. Each step is the `(root, files)` pair the walk yields for a visited directory; the model does not generate the walk from the map.

## Model

| member | source | states |
|---|---|---|
| FileSystems.Join | dup_finder_by_filename.py:59 | the joined path ends with the file name |
| FileSystems.BaseNameOfJoin | dup_finder_by_filename.py:59 | the base name of `join(root, f)` is `f` when `f` has no separator |
| FileSystems.RemoveFile | dup_finder_by_filename.py:130 | `os.remove` succeeds exactly on an existing, unlocked non-directory; reports not-found exactly when the path is absent; removes that path only and changes no other node |
| FileSystems.FileSystem.Remove | dup_finder_by_filename.py:130 | the class's `entries` become what `RemoveFile` says; success iff the path was removable |
| PathCollector.SplitCommas | dup_finder_by_filename.py:30 | `split(",")` never returns an empty list |
| PathCollector.SplitThenJoin | dup_finder_by_filename.py:30 | joining the pieces with commas gives back the input |
| PathCollector.JoinThenSplit | dup_finder_by_filename.py:30 | splitting a comma-join of comma-free pieces gives back the pieces |
| PathCollector.Strip | dup_finder_by_filename.py:31 | a non-empty result neither starts nor ends with whitespace |
| PathCollector.StripShape | dup_finder_by_filename.py:31 | the result is a slice of the input and everything removed on either side is whitespace |
| PathCollector.CleanNames | dup_finder_by_filename.py:190 | every name kept is non-empty, comma-free and has no surrounding whitespace |
| PathCollector.CleanPiecesMembers | dup_finder_by_filename.py:190 | a name is kept iff it is the non-empty strip of some piece |
| PathCollector.CleanPiecesAppend | dup_finder_by_filename.py:190 | cleaning keeps input order (it distributes over concatenation) |
| PathCollector.ParseFolderList | dup_finder_by_filename.py:29-33 | the loop builds exactly the cleaned list, and every folder in it is a clean name |
| PathCollector.Directories | dup_finder_by_filename.py:40-45 | every kept folder is an input entry and a directory |
| PathCollector.NotFound | dup_finder_by_filename.py:41-43 | every reported folder is an input entry that is not a directory |
| PathCollector.ValidationPartitions | dup_finder_by_filename.py:40-45 | kept and reported folders together are the input, with multiplicity |
| PathCollector.ValidationKeepsDirectories | dup_finder_by_filename.py:40-49 | a folder is kept iff it is a directory; the kept list is empty iff no entry is a directory |
| PathCollector.ValidateFolders | dup_finder_by_filename.py:40-45 | the loop returns exactly the kept and the reported folders, in input order |
| Indexer.StepEntryOrigin | dup_finder_by_filename.py:58-59 | each entry of a walk step is `(f, join(root, f))` for a listed `f` |
| Indexer.ScanEntryOrigin | dup_finder_by_filename.py:56-59 | each visited entry comes from a step of the walk of a valid folder |
| Indexer.IndexKeys | dup_finder_by_filename.py:52-59 | `file_map` is a well-formed dict whose keys are the names in order of first appearance |
| Indexer.FirstSeenShape | dup_finder_by_filename.py:59 | the key order has no repetition and holds exactly the names seen |
| Indexer.IndexGroup | dup_finder_by_filename.py:59 | the list under a name is the paths visited with that name, in visit order |
| Indexer.IndexHasEntry | dup_finder_by_filename.py:59 | every visited file is stored under its own name |
| Indexer.IndexCountsEveryEntry | dup_finder_by_filename.py:56-59 | the lists hold exactly as many paths as files were visited |
| Indexer.ScanKeyedByBaseName | dup_finder_by_filename.py:57-59 | every stored path has its key as base name, when the walk lists plain names |
| Indexer.BuildFileMap | dup_finder_by_filename.py:52-59 | the triple loop builds the fold over the walk; the result is well-formed and stores every visited file |
| Indexer.DuplicatesOfExact | dup_finder_by_filename.py:62-64 | the comprehension keeps exactly the keys with more than one path, with their lists |
| Indexer.DuplicatesExact | dup_finder_by_filename.py:62-64 | `duplicates` is well-formed, holds exactly the names with more than one path, with the same lists, and keeps the base-name keying |
| Indexer.FindDuplicates | dup_finder_by_filename.py:62-64 | the loop builds `duplicates`: the keys with more than one path, in insertion order, with their lists |
| Indexer.SharedNameIsDuplicate | dup_finder_by_filename.py:56-64 | two visited files with the same name make that name a duplicate |
| Indexer.DuplicateKeyGivesSharedName | dup_finder_by_filename.py:56-64 | every duplicate name comes from two visited files that share it |
| Indexer.NoDuplicatesIff | dup_finder_by_filename.py:62-66 | "no duplicate files" iff no two visited files share a name |
| Indexer.RepeatedFolderScan | dup_finder_by_filename.py:56-59 | entering `/a` twice visits `/a/x` twice |
| Indexer.RepeatedFolderRepeatsPaths | dup_finder_by_filename.py:56-64 | entering `/a` twice makes `x` a duplicate listing `/a/x` twice |
| Retention.Stamp | dup_finder_by_filename.py:123 | on success, one key per path; on failure, the path named is in the group and unreadable |
| Retention.StampAt | dup_finder_by_filename.py:123 | on success, position `i` holds path `i` and its readable time |
| Retention.StampSucceeds | dup_finder_by_filename.py:123 | when every time can be read, the key pass succeeds |
| Retention.StampFailsFirst | dup_finder_by_filename.py:123 | a failure names the first unreadable path of the list |
| Retention.SortNewestFirst | dup_finder_by_filename.py:123 | the sort is a permutation |
| Retention.SortSorted | dup_finder_by_filename.py:123 | the sort puts newer paths first and equal times in list order (stable, `reverse=True`) |
| Retention.SortDistinct | dup_finder_by_filename.py:123 | sorting keeps a repetition-free list repetition-free |
| Retention.SortPaths | dup_finder_by_filename.py:123 | sorting keeps every path of the list, with its multiplicity |
| Retention.RankedMultiset | dup_finder_by_filename.py:123 | on success, `paths_sorted` holds the group's paths, occurrence for occurrence |
| Retention.DecideAsWritten | dup_finder_by_filename.py:123-125 | as written, `latest` plus `to_delete` are the group's paths occurrence for occurrence, so `to_delete` has one path fewer than the group |
| Retention.Decide | dup_finder_by_filename.py:123-125 | the corrected decision never schedules the kept path for deletion |
| Retention.KeepIsNewest | dup_finder_by_filename.py:123-124 | the kept path has the greatest time, and no earlier path in the list has that time |
| Retention.DecisionCoversGroup | dup_finder_by_filename.py:123-125 | the kept path is not scheduled for deletion; every path is either kept or scheduled |
| Retention.AsWrittenAgreesOnDistinct | dup_finder_by_filename.py:123-125 | when no path is listed twice, the script's slicing and the corrected decision coincide, and all paths but one are scheduled |
| Retention.DecideFailure | dup_finder_by_filename.py:121-135 | a group is skipped iff it is empty or some time cannot be read |
| Retention.AsWrittenDeletesKeptFile | dup_finder_by_filename.py:123-125 | with `/a/x` listed twice, the script keeps `/a/x` and also schedules it for deletion |
| Deletion.RemoveEachShape | dup_finder_by_filename.py:128-133 | every scheduled path is tried in order whatever happened before; a file vanishes iff it was scheduled and removable; nothing else changes |
| Deletion.RemoveEachOutcome | dup_finder_by_filename.py:128-133 | a removal succeeds iff the path was removable at the start and was not already listed earlier |
| Deletion.CleanGroupEffect | dup_finder_by_filename.py:121-135 | a skipped group changes nothing; a cleaned group keeps its kept file, and a file vanishes only if it is a removable non-kept path of the group |
| Deletion.CleanNamedFrame | dup_finder_by_filename.py:223-239 | files outside the requested groups are untouched; no file is created or altered |
| Deletion.CleanNamedOrder | dup_finder_by_filename.py:223-239 | the reports name exactly the requested names that are keys of `duplicates`, one for one and in request order |
| Deletion.CleanNamedReports | dup_finder_by_filename.py:223-239 | every requested name that is a key gets a report, in request order, even after a skipped group; a report exists only for such a name; a cleaned report keeps a path of its group; unknown names change nothing |
| Deletion.KeepersSurvive | dup_finder_by_filename.py:120-135 | every file kept for a cleaned group is still on disk at the end |
| Deletion.CleanGroupAgreesOnDistinct | dup_finder_by_filename.py:121-135 | when no path is listed twice, cleaning a group with the script's slicing and with the corrected decision has the same effect and report |
| Deletion.AsWrittenLosesOnlyCopy | dup_finder_by_filename.py:123-130 | with `/a/x` listed twice, the script removes the only copy; the corrected decision keeps it |
| Deletion.RemoveOlderCopies | dup_finder_by_filename.py:128-133 | the removal loop has the effect and reports of `RemoveEach` |
| Deletion.CleanOneGroup | dup_finder_by_filename.py:121-135 | the per-group `try` has the effect and report of `CleanGroup` |
| Deletion.DeleteAllDuplicates | dup_finder_by_filename.py:120-135 | option 2 processes every key of `duplicates` in insertion order |
| Deletion.DeleteNamedDuplicates | dup_finder_by_filename.py:223-239 | option 4 processes the typed names in order, passing over names that are not duplicates |
| Export.Cell | dup_finder_by_filename.py:151-156 | the cell is "N/A" iff the time cannot be read, and otherwise holds that time |
| Export.GroupRecordAt | dup_finder_by_filename.py:150-162 | row `i` of a group holds the name, the i-th path and its cell |
| Export.GroupRecordMember | dup_finder_by_filename.py:150-162 | a row belongs to a group's rows iff it holds the group's name, one of its paths and that path's cell |
| Export.RecordsCount | dup_finder_by_filename.py:148-162 | one row per stored path |
| Export.RecordsMember | dup_finder_by_filename.py:148-162 | a row is exported iff it names a duplicate, one of its paths, and that path's time or "N/A" |
| Export.BuildExportRecords | dup_finder_by_filename.py:148-162 | the nested loop builds exactly the rows, one per stored path |
| Export.NatToString | dup_finder_by_filename.py:174 | `str(counter)` is a non-empty string of decimal digits |
| Export.NatToStringRoundTrip | dup_finder_by_filename.py:174 | reading the digits back gives the counter |
| Export.NatToStringBound | dup_finder_by_filename.py:172-176 | a counter written with `d` digits is below `10^d` |
| Export.ExistingCandidateBounded | dup_finder_by_filename.py:172-176 | a candidate that exists has a counter below `10^L`, where `L` bounds the existing path lengths |
| Export.ChooseExportPath | dup_finder_by_filename.py:167-176 | the loop ends; the chosen path does not exist, and every candidate before it does |

## Left out

- Menus, prompts, `print` output, the y/n confirmations, the `exit` command and the re-prompt loops are left out. They are interaction, not computation. The checks they guard are modelled as lemmas: `ValidationKeepsDirectories` covers the empty-folder-list check, and `NoDuplicatesIff` covers the no-duplicates check.
- Menu option 1 and the listing loops of option 4 are left out, because they only print.
- Reading the line with `input().strip()` (lines 20-22 and 189) is left out. `ParseFolderList` and `CleanNames` take that already-stripped line.
- `pd.DataFrame`, `to_excel` and the `PermissionError` it may raise are left out, because they are foreign I/O. The model stops at the rows and the chosen path.
- Export.Cell: `datetime.fromtimestamp(...).strftime(...)` is left out, because the formatting is presentation. Times are integers, and a row holds the integer time. The script also writes "N/A" when that formatting raises (a time before 1970 on Windows, or a year past 9999); the model writes the integer time in that case.
- `os.walk` is a parameter. The model does not derive the walk from the directory map, so its order and its treatment of links and unreadable directories are not modelled.
- Paths follow `posixpath` (`/`). The Windows `ntpath` rules for drive letters and backslashes are not modelled.
- Removing a file does not change any other node, so a directory's modification time is not updated.
- Retention.DecideFailure: there is no "oldest" value for a time that cannot be read. `getmtime` raising inside `sorted` ends the group's `try`, and the group is skipped (lines 123 and 134-135).
- Deletion.KeepersSurvive: requires that no name is typed twice. The proof also assumes every group is keyed by the base name of its paths, which holds for the scan by `Indexer.ScanKeyedByBaseName`. A name typed twice in option 4 is processed twice; this case is not covered by the lemma. Paths are compared as strings, so one file reached under two spellings (folders `/a,/a/.` give `/a/x` and `/a/./x`) is two paths to the model. The corrected decision then keeps one spelling and removes the other, which deletes the kept file. The lemma, and the correction in the Findings row, hold only when each file is reached under one spelling.
- Deletion.CleanOneGroup: runs the corrected decision (`Retention.Decide`), not the script's `to_delete = paths_sorted[1:]`. The two differ only on a group that lists a path twice: there the script removes the kept file and the model keeps it. `Deletion.CleanGroupAgreesOnDistinct` proves that they agree on every other group, and `Deletion.AsWrittenLosesOnlyCopy` shows the difference.
- Deletion.DeleteNamedDuplicates: cleans each group with `CleanOneGroup`, so it runs the corrected decision and differs from the script's lines 227-229 only on groups that list a path twice.
- Deletion.DeleteAllDuplicates: cleans each group with `CleanOneGroup`, so it runs the corrected decision and differs from the script's lines 123-125 only on groups that list a path twice.
- Deletion.DeleteAllDuplicates: runs the same loop as option 4 over `duplicates`' own keys, instead of iterating `duplicates.items()` directly. Every key is present, so the `in duplicates` test always passes.

## Findings

| source | as written | input that shows it | evidently intended | confidence | as-written member | corrected member |
|---|---|---|---|---|---|---|
| dup_finder_by_filename.py:123-130 (and 227-234) | `to_delete = paths_sorted[1:]` may contain `latest` itself when a path is listed twice in the group; `os.remove` then deletes the kept file | folders `/a,/a` (or `/a,/a/b` for a file under `/a/b`) with a single file `/a/x`: `x` becomes a "duplicate" listing `/a/x` twice, and option 2 or 4 removes the only copy | never delete the file that is kept: schedule every path other than `latest` | not executed | Retention.DecideAsWritten, Retention.AsWrittenDeletesKeptFile, Deletion.AsWrittenLosesOnlyCopy, Indexer.RepeatedFolderRepeatsPaths | Retention.Decide with Retention.DecisionCoversGroup, Deletion.CleanGroupEffect, Deletion.CleanGroupAgreesOnDistinct, Deletion.KeepersSurvive |
