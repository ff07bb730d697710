# File-explorer simulator: path model, checks, navigation and task synthesis

This project models the core of a browser-based Windows-style file-explorer
exercise. A student works on a simulated file system: a forest of folder and
file nodes under "This PC" (roots such as `C:`), plus a Recycle Bin. A teacher
builds an exercise by editing a start structure into a target structure. The
teacher page then:

- diffs the two snapshots;
- interprets the diff as renames, moves, copies, additions, removals,
  restores and permanent deletions;
- synthesises one task with one check per interpreted change.

The student page evaluates those checks against the live file system and
derives a score. Older exercises use "legacy" task types. A converter turns
these into tasks of the Task DSL, and a validator checks DSL task lists.

Modules, one per concern of the source:

| module (file) | models |
|---|---|
| `Paths` (paths.dfy) | the backslash path helpers: name, parent, root, join, normalisation, and the protected system folders |
| `Tree` (tree.dfy) | file-system nodes, `flattenStructure`, id lookup, folder lookup by path, default root, rename validation, protected selection, structure comparison |
| `Naming` (naming.dfy) | unique child names `name (k).ext`. The class `ChildList` models a folder's child list, which adding, pasting and cut-removal update in place. |
| `Evaluator` (evaluator.dfy) | existence queries, Recycle Bin queries, `evaluateCheck` for every check type, task evaluation and the score |
| `Navigation` (session.dfy) | the explorer's history. The class `Session` holds the current path, history, history index and undo list that `navigate`, `goBack`, `goForward` and `goUp` update. |
| `Diff` (diff.dfy) | the teacher's diff detectors and `interpretDiffsFromFlats`, whose loops are kept as methods proved against specification functions |
| `Synth` (synth.dfy) | normalised diff records, `createTaskFromDiff`, task generation (class `TeacherState`), `parseEntriesInput`, and the zip-check synchronisation of an edited task (class `EditedTask`) |
| `TaskDsl` (taskdsl.dfy) | the DSL's type table, required fields, `hasValue`, `normalizeTasks` and `validateTasks` |
| `Legacy` (legacy.dfy) | `makeLegacySubjectId`, `getFirstCheck`, `convertLegacyTaskToDsl` per legacy type, and `toDslTasks` |

`Text`, `Seqs`, `Wrappers` and `Tasks` hold shared helpers and data types:

- string split/join/trim/lower-case and `indexOf`;
- filter and dedup;
- `Option`;
- the task/check records.

## Conventions and deliberate readings of the code

- **Absent strings.** A JavaScript `undefined`, `null` or empty string in a
  task or check field is modelled as the empty string `""`. The source's
  guards (`if (!check.path)`) treat all three alike.
- **Snapshots as values.** The file system is a `seq<Node>` of roots. A
  node is a datatype with a kind, a name, an id and children. Snapshots and
  clones therefore have value semantics.
- **Copies keep their ids.** `cloneNodeWithNewIds` only fills in ids that
  are missing. The model passes nodes through unchanged.
- **Paths are `seq<char>`.** The separator is `\`. Lower-casing is ASCII
  `A`–`Z` only.
- **Score.** `Math.round(completed / total * 100)` is modelled as the
  integer nearest to `100 * completed / total`, rounding halves up. That is
  `(200 * completed + total) / (2 * total)`. An empty task list yields
  `None`: the source divides 0 by 0 and returns `NaN`.
- **Where the specification prose and the code differ, the model follows the
  code.** In particular:
  - Identical snapshots still produce rename records for files that share a
    folder with another file (`Diff.IdenticalSnapshotsRename`).
  - A file can be claimed both as renamed and as moved (`Diff.DoubleClaim`).
  - "Added" is decided on the type and name of an item, not its path.
  - `fileExists` does not look at the node kind, so an existing folder
    counts as a file (`Evaluator.FolderCountsAsFile`).
  - Only the Recycle Bin ancestor lookup folds case
    (`Evaluator.AncestorLookupFoldsCase`).

## Model

| member | source | states |
|---|---|---|
| Paths.NameFromPath | src/core/script-core.js:338-341 | the name is the text after the last `\`, and it never contains a separator |
| Paths.NameIsLastPart | src/core/script-core.js:338-341 | the name is the last part of the path split at backslashes, the part the source pops |
| Paths.ParentPath | src/core/script-core.js:327-332 | the single-root parent is absent exactly for `C:`; a path whose last backslash comes after its first character goes up to what precedes that backslash (so `C:\x` goes up to `C:`), and any other path goes up to `C:` |
| Evaluator.LegacyParentOfJoin | src/core/script-core.js:327-332 | the legacy parent of `p\n` is `p`, for every non-empty `p` including `C:` |
| Paths.RootFromPath | src/core/script-core.js:373-378 | a root read from a path is non-empty and free of separators |
| Paths.IsRootPath | src/core/script-core.js:380-384 | a root path is a non-special path with exactly one non-empty segment, and that segment is its root |
| Paths.RootNameIsRootPath | src/core/script-core.js:380-384 | a bare root name such as `C:` or `OneDrive` is a root path whose root is itself |
| Paths.JoinPathMultiRoot | src/core/script-core.js:406-409 | joining under an empty parent or `This PC` gives the name alone; in every case the joined path ends with the name |
| Paths.NameOfJoin | src/core/script-core.js:406-409 | a backslash-free name is the last segment of the path it is joined into |
| Paths.LastSepOfJoin | src/core/script-core.js:406-409 | in `parent\name` with a separator-free name, the last separator is the one the join inserted |
| Paths.ParentPathMultiRoot | src/core/script-core.js:391-401 | there is no parent exactly for This PC; the Recycle Bin and every root go up to This PC; any other path with a separator is its parent joined with its name |
| Paths.ParentOfJoin | src/core/script-core.js:391-409 | joining a name onto a folder path and taking the parent gives the folder back, and taking the name gives the name back |
| Paths.SepJoinIsOrdinary | src/core/script-core.js:369-384 | a joined path is neither a special location nor a root, and its segments are the folder's segments plus the name |
| Paths.NormalizePath | src/core/script-core.js:412-415 | the normalised path has no `/`, no trailing `\`, is never longer than the input, and the empty path stays empty |
| Paths.NormalizeFixedPoint | src/core/script-core.js:412-415 | a path without `/` and without a trailing `\` is left unchanged |
| Paths.NormalizePathIdempotent | src/core/script-core.js:412-415 | normalising twice equals normalising once |
| Paths.ProtectedIgnoresSpelling | src/core/script-core.js:427-430 | a path is protected exactly when its normalised spelling is |
| Paths.ProtectedAreNormal | src/core/script-core.js:417-425 | every listed protected folder is non-empty and already normalised |
| Paths.IsProtectedFolderPath | src/core/script-core.js:427-430 | a path is protected exactly when it is non-empty and its normalised form is one of the four protected folders |
| Tree.FlattenIsPreOrder | src/core/script-core.js:633-669 | the flat list mirrors a pre-order walk of the tree, one fact per node in the same order |
| Tree.Flatten | src/core/script-core.js:633-669 | the flat list holds, in pre-order, one fact per node below the roots (system) or below the single root, each with its path, and nothing for an absent structure |
| Tree.FlattenRootsIsPreOrder | src/core/script-core.js:633-669 | flattening every root gives the roots' descendants in pre-order with their paths |
| Tree.FlattenCountsItems | src/core/script-core.js:3676-3684 | flattening a folder yields exactly as many facts as `countTotalItems` counts |
| Tree.CountTotalItems | src/core/script-core.js:3676-3684 | the count is the number of nodes below the root |
| Tree.SumFolderCounts | src/core/script-core.js:3676-3684 | the counts of a child list add up to its nodes below the list itself |
| Tree.FlattenPathsLinked | src/core/script-core.js:633-669 | every flattened fact lies directly under the base path or under a folder fact of the same list |
| Tree.FindNodeByIdSpec | src/core/script-core.js:519-548 | the found node is the first node with that id in pre-order over the searched roots, and none is found only when no node has the id |
| Tree.FindNodeById | src/core/script-core.js:519-548 | an empty id finds nothing; otherwise the result is the first node in search order with that id |
| Tree.SearchIsFirstInPreOrder | src/core/script-core.js:522-532 | the recursive search returns the first pre-order node with the id |
| Tree.PathByIdIffNodeById | src/core/script-core.js:550-580 | a path is found for an id exactly when a node with that id is found |
| Tree.GetPathById | src/core/script-core.js:550-580 | an empty id has no path; a path found is non-empty and belongs to a node that `findNodeById` finds |
| Tree.PathByIdIsFactPath | src/core/script-core.js:550-580 | the path found for an id is the path flattenStructure gives the first node carrying that id (when no root carries it) |
| Tree.WalkRootsAgree | src/core/script-core.js:553-572 | the path walk over all roots succeeds exactly when the node search does |
| Tree.GetRootFolder | src/core/script-core.js:1733-1736 | returns the first root of that name, and returns none only when no root has that name |
| Tree.FindChildFolder | src/core/script-core.js:1754-1757 | returns the first child that is a folder of that name, and returns none only when there is no such child |
| Tree.GetFolder | src/core/script-core.js:1738-1762 | the empty path and the special locations resolve to no folder |
| Tree.GetFolderBySegments | src/core/script-core.js:1738-1762 | an ordinary path resolves by looking up its first segment as a root and walking the remaining segments |
| Tree.GetFolderOfJoin | src/core/script-core.js:1738-1762 | the folder at `p\n` is the child folder `n` of the folder at `p` |
| Tree.NormalizeToSystemRoot | src/core/script-core.js:1261-1287 | a normalised structure is always a multi-root system structure |
| Tree.NormalizePreservesFacts | src/core/script-core.js:1261-1287 | wrapping a single-root structure into a system root leaves its flattened facts unchanged |
| Tree.GetDefaultRootPath | src/core/script-core.js:1289-1294 | the default root is `C:` whenever a `C:` root exists; otherwise it is the first root's name when that is not empty, and `C:` when there are no roots or the first has an empty name |
| Tree.ValidateRename | src/core/script-core.js:2412-2423 | a rename is accepted exactly when the new name is non-empty, differs from the old name and is not taken; a rejection carries the reason `empty`, `same` or `duplicate` |
| Tree.RenameFirst | src/core/script-core.js:2425-2446 | a rename keeps the length, order and ids of the items, and changes only the item with the old name |
| Tree.RenameFirstAt | src/core/script-core.js:2425-2446 | the first item with the old name takes the new name and every other item is unchanged |
| Tree.RenameFirstAbsent | src/core/script-core.js:2425-2446 | without an item of the old name the list is unchanged |
| Tree.AcceptedRenameKeepsNamesDistinct | src/core/script-core.js:2412-2446 | an accepted rename keeps the names in a folder distinct |
| Tree.GetProtectedSelection | src/core/script-core.js:438-446 | returns exactly the selected items that are protected folders under the parent path |
| Tree.ExtraItems | src/core/script-core.js:3638-3645 | reports no extra items exactly when every current name also occurs in the target |
| Tree.CompareStructures | src/core/script-core.js:3599-3652 | success holds exactly when the error list is empty |
| Tree.CompareItemsEmptyIffSameShape | src/core/script-core.js:3608-3646 | the item comparison reports nothing exactly when the two child lists have the same shape |
| Tree.CompareStructuresSpec | src/core/script-core.js:3599-3652 | the comparison succeeds exactly when both trees have the same names, kinds and nested children |
| Tree.ItemsMapReadAsWritten | src/core/script-core.js:3602-3606 | reading a plain object keyed by item name gives an own item exactly for present names (other than `__proto__`), and undefined only for names that are neither present nor inherited |
| Tree.ExtraItemsAsWritten | src/core/script-core.js:3638-3645 | the extra-items loop as written reports nothing exactly when every name reads truthy in the target map |
| Tree.MissingOrMismatchAsWritten | src/core/script-core.js:3613-3628 | as written, an item is reported missing exactly when the current map reads undefined |
| Tree.ExtraItemsAsWrittenAgrees | src/core/script-core.js:3638-3645 | for names outside `Object.prototype` the loop as written reports what the model reports |
| Tree.InheritedNamesAsWritten | src/core/script-core.js:3602-3646 | as written, a current file `constructor` is not reported extra and a missing target file `toString` is reported as a type mismatch; the model reports the extra and the missing item |
| Naming.ChildNames | src/core/script-core.js:599 | the name set holds exactly the children's names |
| Naming.ExtOf | src/core/script-core.js:600-602 | the extension starts at the last dot, and it is empty when the name has no dot |
| Naming.CandidateInjective | src/core/script-core.js:603-604 | distinct counters give distinct candidate names `base (k)ext` |
| Naming.CandidateLonger | src/core/script-core.js:603-604 | a candidate name is always longer than the desired name, so it never equals it |
| Naming.EnsureUniqueChildName | src/core/script-core.js:594-609 | the name is free; it is the desired name if that is free, and otherwise the candidate with the smallest counter that is free |
| Naming.FirstFreeName | src/core/script-core.js:596-608 | the counting loop returns a free name; it is the desired name if free, and otherwise the first free candidate |
| Naming.SearchResult | src/core/script-core.js:599-606 | when the loop stops, every smaller counter's candidate was taken |
| Naming.TriedCount | src/core/script-core.js:599-606 | the loop's tried names are pairwise distinct, so the loop terminates within one more step than the number of children |
| Naming.ChildList.AddWithUniqueName | src/core/script-core.js:611-617 | appends the item under a free name (its own if free), changes nothing else, and keeps folder names distinct |
| Naming.ChildList.PasteClipboardItems | src/core/script-core.js:2779-2800 | appends every clipboard item in order, each under a name free at its moment of insertion, reports (original, inserted) pairs, and keeps folder names distinct |
| Naming.ChildList.RemoveCutItems | src/core/script-core.js:2802-2810 | the folder keeps exactly the children whose names are not on the clipboard |
| Naming.ShouldClearClipboardAfterPaste | src/core/script-core.js:2812-2815 | only a cut clears the clipboard, and a cut clears it exactly when the target folder differs from the source folder |
| Naming.WithoutNames | src/core/script-core.js:2807-2809 | keeps exactly the children whose names are outside the removed set |
| Naming.WithoutNamesKeepsDistinct | src/core/script-core.js:2802-2810 | removing cut items keeps names distinct, and the remaining names are the old names minus the cut names |
| Evaluator.FileExistsIffFound | src/core/script-core.js:911-923 | `fileExists` holds exactly when `getFileByPath` finds a node, and the found node carries the path's last name |
| Evaluator.FolderCountsAsFile | src/core/script-core.js:907-916 | an existing folder also passes `fileExists` |
| Evaluator.FolderExists | src/core/script-core.js:907-909 | a folder exists only at a non-empty, non-special path whose root is a root of the structure |
| Evaluator.GetFileByPath | src/core/script-core.js:918-923 | a found item is a child of the existing parent folder and carries the path's last name |
| Evaluator.FileExists | src/core/script-core.js:911-916 | a file exists exactly when `getFileByPath` finds an item |
| Evaluator.RecycleBinHasItem | src/core/script-core.js:925-941 | a hit needs a non-empty path and a bin entry of that type whose name is the path's last name |
| Evaluator.BinItemOfJoin | src/core/script-core.js:925-941 | for `parent\name`, the bin holds the item exactly when an entry of that type and name was deleted from the same parent, compared after normalisation |
| Evaluator.BinItemNameIsExact | src/core/script-core.js:925-941 | the name comparison is exact: an entry is found under its own name and not under a different one |
| Evaluator.RecycleBinHasAncestorFolder | src/core/script-core.js:943-959 | a hit needs a non-empty path and a binned folder whose path is shorter than the normalised path |
| Evaluator.AncestorFolderIgnoresCase | src/core/script-core.js:943-959 | the ancestor lookup gives the same answer for a path and its lower-case form |
| Evaluator.AncestorLookupFoldsCase | src/core/script-core.js:943-959 | a binned folder is found as the ancestor of a path that lies below it in any letter case |
| Evaluator.LowerNormalizeCommute | src/core/script-core.js:943-959 | lower-casing before or after normalising gives the same lower-case path |
| Evaluator.RequireCheckFields | src/core/script-core.js:961-975 | the check is accepted exactly when every required field is present |
| Evaluator.EvaluateCheck | src/core/script-core.js:991-1142 | a passing check has a known type and every field that type requires |
| Evaluator.PassingCheckIsWellFormed | src/core/script-core.js:991-1142 | a check that passes has a known type and all the fields that type requires |
| Evaluator.MovedAndCopiedExclusive | src/core/script-core.js:1019-1029 | a file-moved check and a file-copied check over the same paths never both pass |
| Evaluator.PermanentlyDeletedFolderIsGone | src/core/script-core.js:1064-1069 | a folder-permanently-deleted check fails while the folder still exists |
| Evaluator.PermanentlyDeletedFileIsGone | src/core/script-core.js:1056-1063 | file-permanently-deleted passes only when no file is found at the path |
| Evaluator.RestoredAndPermanentlyDeletedExclusive | src/core/script-core.js:1045-1062 | a file-restored check and a file-permanently-deleted check on one path never both pass |
| Evaluator.EvaluateTask | src/core/script-core.js:1144-1159 | records one verdict per check in order, and a task is complete exactly when it has checks and all of them pass |
| Evaluator.EvaluateTasksFromConfig | src/core/script-core.js:1144-1159 | evaluates every task in order |
| Evaluator.TaskWithoutChecksIncomplete | src/core/script-core.js:1146-1149 | a task without checks is never complete |
| Evaluator.CalculateScore | src/core/script-core.js:977-985 | the score is absent only for no tasks, at most 100, and the nearest integer to the percentage of completed tasks |
| Evaluator.ScoreExtremes | src/core/script-core.js:977-985 | all tasks complete scores 100, and none complete scores 0 |
| Evaluator.ScoreMonotone | src/core/script-core.js:977-985 | completing more of the same tasks never lowers the score |
| Navigation.InitialState | src/core/script-core.js:1325-1327 | a fresh session sits on the default root (GetDefaultRootPath) with a one-entry history and no undo entries |
| Navigation.PushAction | src/core/script-core.js:678-683 | the undo list gains the action at its end and keeps only the newest five |
| Navigation.NavigationKeepsValid | src/core/script-core.js:1650-1730 | navigate, go back, go forward and go up all keep the history index inside the history and the current path equal to its entry |
| Navigation.NavigateOutcome | src/core/script-core.js:1650-1696 | a reachable target cuts the forward history and appends itself as current, an unreachable one changes nothing, and moving clears the undo list |
| Navigation.BackThenForward | src/core/script-core.js:1698-1716 | going back and then forward returns to the same place and history |
| Navigation.NothingForwardAfterNavigate | src/core/script-core.js:1650-1716 | right after a navigation there is nothing to go forward to |
| Navigation.GoUpToParentFolder | src/core/script-core.js:1718-1730 | going up from `p\n` lands on `p` and records it in the history |
| Navigation.Session.constructor | src/core/script-core.js:1325-1327 | a new session is valid and in the initial state |
| Navigation.Session.ResetUndoHistory | src/core/script-core.js:833-835 | empties the undo list and changes nothing else |
| Navigation.Session.PushHistory | src/core/script-core.js:678-683 | records the action as `PushAction` prescribes |
| Navigation.Session.Navigate | src/core/script-core.js:1650-1696 | the new state is the navigation outcome of the old state |
| Navigation.NavigateByDecision | src/core/script-core.js:1650-1696 | the navigation outcome, case by case: a virtual location is entered with an empty undo list, a found folder is entered and the undo list survives only when the path is the current one, and anything else changes only the undo list |
| Navigation.Session.Visit | src/core/script-core.js:1689-1692 | drops the forward history, appends the path and makes it current, leaving the undo list alone |
| Navigation.Session.GoBack | src/core/script-core.js:1698-1706 | the new state is one step back in the history, or unchanged at the start |
| Navigation.Session.GoForward | src/core/script-core.js:1708-1716 | the new state is one step forward in the history, or unchanged at the end |
| Navigation.Session.GoUp | src/core/script-core.js:1718-1730 | the new state is the go-up outcome of the old state |
| Navigation.NormalizeStudentChecklistState | src/core/script-core.js:195-199 | the checklist has exactly `count` entries; entry i is the truthiness (`!!v`) of the stored value at i, and false beyond the stored array or when the stored value is not an array |
| Diff.DiffStructures | src/teacher/script-teacher.js:1048-1059 | the raw diff carries both flattened snapshots, and each missing bin is read as empty |
| Diff.DetectRenames | src/teacher/script-teacher.js:1122-1157 | has no more records than there are initial files, and a record is in the list exactly when it renames an initial file to a same-folder partner in the target |
| Diff.RenameRecorded | src/teacher/script-teacher.js:1122-1157 | every file with a same-folder partner in the target is recorded as renamed |
| Diff.IdenticalSnapshotsRename | src/teacher/script-teacher.js:1122-1157 | with identical snapshots, two files in one folder still give a rename record |
| Diff.DetectMoved | src/teacher/script-teacher.js:1223-1304 | holds exactly the moves of initial items of the given kind that left their path and whose name occurs elsewhere in the target |
| Diff.DoubleClaim | src/teacher/script-teacher.js:1122-1264 | one file can be reported both as renamed and as moved |
| Diff.MoveRecorded | src/teacher/script-teacher.js:1223-1304 | every vanished item whose name reappears in the target is recorded as moved |
| Diff.SplitBuildPathKey | src/teacher/script-teacher.js:1306-1314 | splitting a built key returns the type and the normalised path |
| Diff.SplitPathKeyRejoins | src/teacher/script-teacher.js:1310-1314 | splitting a key at its first bar and rejoining gives the key back |
| Diff.BuildRecycleBinPathSet | src/teacher/script-teacher.js:1316-1327 | holds exactly the keys of complete bin entries, each once, and each with a bar |
| Diff.BuildRecycleBinFolderPathSet | src/teacher/script-teacher.js:1329-1341 | the set holds normalised paths only, and is empty exactly when no bin entry is a folder with both an original path and a name |
| Diff.NormalizeIdempotentAll | src/core/script-core.js:412-415 | normalising a normalised path changes nothing, for every path |
| Diff.DescendantIsLonger | src/teacher/script-teacher.js:1343-1349 | a descendant's normalised path is longer than its ancestor's, so the relation is irreflexive and asymmetric |
| Diff.IsDescendantPath | src/teacher/script-teacher.js:1343-1349 | a descendant's normalised path is longer than its ancestor's, and a path is never its own descendant |
| Diff.DetectCopied | src/teacher/script-teacher.js:1360-1395 | every copy names a source item that still exists and a new target item of the same kind and name at a path that was not there before; its source is the first initial item of that kind and name still present in the target |
| Diff.CopyRecorded | src/teacher/script-teacher.js:1366-1393 | every target item with a new path whose first same-kind, same-name source still present in the target sits elsewhere is recorded as a copy of that source |
| Diff.BinRecordsDisjoint | src/teacher/script-teacher.js:1470-1494 | no bin entry is reported both as restored and as permanently deleted |
| Diff.DetectAdded | src/teacher/script-teacher.js:1165-1191 | holds exactly the target items whose type and name are new and whose path is not the target of another change |
| Diff.DetectRemoved | src/teacher/script-teacher.js:1196-1210 | holds exactly the initial items that are gone and were not renamed or moved |
| Diff.RemovedPartition | src/teacher/script-teacher.js:1514-1531 | soft and permanent removals split the removed candidates with nothing lost or duplicated |
| Diff.AddExcludedPaths | src/teacher/script-teacher.js:1453-1457 | adds each non-empty path and its normalised spelling to the exclusions |
| Diff.CollectRestored | src/teacher/script-teacher.js:1470-1481 | the loop collects exactly the restored bin keys, in order |
| Diff.CollectBinDeleted | src/teacher/script-teacher.js:1484-1494 | the loop collects exactly the bin keys that vanished everywhere, in order |
| Diff.SplitRemoved | src/teacher/script-teacher.js:1514-1531 | the loop splits removals into those that reached the bin and those that did not |
| Diff.InterpretDiffsFromFlats | src/teacher/script-teacher.js:1404-1539 | the method's result is the interpreted diff of the two snapshots and bins |
| Diff.InterpretedDiffs | src/teacher/script-teacher.js:1404-1538 | every added item is in the target and new by type and name; every removed item is in the initial snapshot and its path is gone from the target |
| Diff.AddedItemsAreNew | src/teacher/script-teacher.js:1404-1539 | an added item is in the target, has a new type and name, and is not the target of any move, rename, copy or restore |
| Diff.RemovedClassified | src/teacher/script-teacher.js:1404-1539 | removals are exactly the vanished items that were not renamed or moved, split by whether the target bin holds them |
| Diff.BinRecordsClassified | src/teacher/script-teacher.js:1466-1494 | a restored entry was binned before and is back in the tree; a permanently deleted one is neither in the tree nor in the bin; no entry is both |
| Synth.ItemRecords | src/teacher/script-teacher.js:1547-1572 | one record per item, with the folder or file kind by the item's type |
| Synth.MoveRecords | src/teacher/script-teacher.js:1574-1594 | keeps the moves of the expected type as records with from, to and name |
| Synth.RenameRecords | src/teacher/script-teacher.js:1596-1602 | one renamed-file record per rename, with from and to |
| Synth.CopyRecords | src/teacher/script-teacher.js:1604-1611 | one copied-file or copied-folder record per copy |
| Synth.BinRecords | src/teacher/script-teacher.js:1613-1630 | one restored or permanently-deleted record per bin record, with the kind chosen by type |
| Synth.NormalizedKinds | src/teacher/script-teacher.js:1544-1633 | every normalised record has one of the thirteen diff kinds |
| Synth.NormalizedCount | src/teacher/script-teacher.js:1544-1633 | normalisation never invents records, and loses none when moves carry their expected type |
| Synth.NormalizedAddedFirst | src/teacher/script-teacher.js:1544-1553 | additions come first, in order |
| Synth.NormalizedBinLast | src/teacher/script-teacher.js:1621-1632 | permanent deletions from the bin come last, in order |
| Synth.NormalizedDiffsComplete | src/teacher/script-teacher.js:1072-1092 | the normalised diff holds one record per interpreted change |
| Synth.ShapeOf | src/teacher/script-teacher.js:1637-1814 | each of the thirteen diff kinds has a task shape, and no other kind does |
| Synth.ShapesMatchEvaluator | src/teacher/script-teacher.js:1637-1814 | every generated check type is one the evaluator knows, with the fields the evaluator requires |
| Synth.CreateTaskFromDiff | src/teacher/script-teacher.js:1637-1814 | a known diff kind yields one task with one check of the right type carrying the diff's paths, and an unknown kind yields none |
| Synth.GeneratedCheckWellFormed | src/teacher/script-teacher.js:1637-1814 | a generated check passes the evaluator's field test exactly when the diff's paths are filled |
| Synth.TasksFromRecords | src/teacher/script-teacher.js:1956-1965 | produces one task per known record, in order, each with one check |
| Synth.GeneratedTaskPerEntry | src/teacher/script-teacher.js:1956-1965 | generation yields one single-check task per interpreted change |
| Synth.TeacherState.GenerateTasksFromDiffs | src/teacher/script-teacher.js:1956-1965 | stores and returns the generated tasks |
| Synth.ParseEntriesInput | src/teacher/script-teacher.js:385-390 | every entry is non-empty, trimmed and on one line, and a string is an entry exactly when it is non-empty and is one of the trimmed lines |
| Synth.EntriesOf | src/teacher/script-teacher.js:385-390 | `parts.map(trim).filter(Boolean)`: no more entries than lines, and a string is an entry exactly when it is non-empty and one of the trimmed lines |
| Synth.EntriesTrimmed | src/teacher/script-teacher.js:385-390 | every entry is non-empty and already trimmed, and lines without a newline give entries without one |
| Synth.EntriesOfConcat | src/teacher/script-teacher.js:385-390 | the entries of two runs of lines are the entries of the first followed by those of the second, so the order of the lines is kept |
| Synth.EntriesOfLine | src/teacher/script-teacher.js:385-390 | one line gives its trimmed text, or nothing when that is empty; with EntriesOfConcat this fixes the entries and their order |
| Synth.EntriesRoundTrip | src/teacher/script-teacher.js:385-390 | parsing clean entries joined by newlines gives them back |
| Synth.EntriesEditorStable | src/teacher/script-teacher.js:385-390 | writing parsed entries back and parsing again changes nothing |
| Synth.ZipChecks | src/teacher/script-teacher.js:984-1010 | only zip tasks get synchronised checks; a zip-compress task gets `zip-exists` on its zip path and `zip-contains` on that path with mode `all`; a zip-extract task gets `zip-extracted-to` with its zip path and destination folder |
| Synth.SyncedZipTask | src/teacher/script-teacher.js:984-1010 | synchronisation only replaces the checks, and leaves non-zip tasks untouched |
| Synth.SyncedZipChecksWellFormed | src/teacher/script-teacher.js:984-1010 | synchronising is idempotent; a zip-compress task gets two checks and a zip-extract task one, and these pass the field test exactly when the zip paths are filled |
| Synth.ZipNameOfZipPath | src/core/script-core.js:338-341 | a path ending in `.zip` has a last name ending in `.zip` |
| Synth.ZipExistsMeans | src/core/script-core.js:1071-1076 | a `zip-exists` check passes exactly when its path ends in `.zip` and the item found there is an archive |
| Synth.ZipContainsMeans | src/core/script-core.js:1077-1095 | a `zip-contains` check passes exactly when the item at its zip path is a listed archive whose entries meet the mode |
| Synth.ZipExtractedMeans | src/core/script-core.js:1096-1136 | a `zip-extracted-to` check passes exactly when the archive and destination exist and every expected entry is in place |
| Synth.NamedEntriesInPlace | src/core/script-core.js:1114-1121 | a list of bare entry names is in place exactly when each name is a file or a folder directly inside the destination |
| Synth.SyncedZipCompressPasses | src/teacher/script-teacher.js:984-1010 | the synchronised checks of a zip-compress task all pass exactly when an archive sits at its `.zip` path and lists every entry of the task |
| Synth.SyncedZipExtractPasses | src/teacher/script-teacher.js:984-1010 | the synchronised check of a zip-extract task passes exactly when the archive and destination folder exist and each entry of the task exists, as file or folder, directly in the destination |
| Synth.EditedTask.SyncZipTaskChecks | src/teacher/script-teacher.js:984-1010 | the edited task becomes its synchronised form |
| TaskDsl.TypeName | src/core/task-dsl.js:8-18 | every DSL type has a non-empty name starting with a lower-case letter |
| TaskDsl.ParseType | src/core/task-dsl.js:8-18 | parsing accepts exactly the names of DSL types |
| TaskDsl.ParseTypeAcceptsTaskTypes | src/core/task-dsl.js:8-18 | parsing accepts exactly the listed task types |
| TaskDsl.ParseTypeName | src/core/task-dsl.js:8-18 | a type's name parses back to that type |
| TaskDsl.RequiredFields | src/core/task-dsl.js:20-30 | every type needs two or three fields, and all types except the zip types need a subject first |
| TaskDsl.HasValue | src/core/task-dsl.js:118-127 | a field has a value when it is present and not null; arrays always count; a string counts when it has a non-whitespace character |
| TaskDsl.HasValueIffTrimmed | src/core/task-dsl.js:118-127 | a string field has a value exactly when its trimmed form is non-empty |
| TaskDsl.NormalizeTasks | src/core/task-dsl.js:134-136 | an array is returned as is, and anything else becomes the empty list |
| TaskDsl.FailingFields | src/core/task-dsl.js:176-180 | lists exactly the required fields without a value |
| TaskDsl.FieldErrors | src/core/task-dsl.js:176-180 | one message per missing field, in order |
| TaskDsl.Classify | src/core/task-dsl.js:156-175 | tells apart non-objects, tasks without a type, unknown types and known types |
| TaskDsl.ClassifyKnown | src/core/task-dsl.js:164-175 | a task is of a known type exactly when it is an object whose type is a known name |
| TaskDsl.StrictErrors | src/core/task-dsl.js:182-187 | at most one error, raised exactly when `strict` is present and not a boolean |
| TaskDsl.ValidateTasks | src/core/task-dsl.js:145-191 | valid exactly when there are no errors; an absent list is valid; any other non-array gives exactly one error |
| TaskDsl.ValidateArray | src/core/task-dsl.js:150-190 | an array is valid exactly when its tasks' errors concatenate to nothing |
| TaskDsl.TaskErrorsIffMalformed | src/core/task-dsl.js:156-188 | a task reports no errors exactly when it is well formed |
| TaskDsl.TaskErrorsCount | src/core/task-dsl.js:156-188 | an unclassifiable task reports exactly one error; a known one reports its missing fields in order, then the strict error |
| TaskDsl.ListErrorsIffMalformed | src/core/task-dsl.js:154-189 | the list reports no errors exactly when every task is well formed |
| TaskDsl.ValidIffAllWellFormed | src/core/task-dsl.js:145-191 | an array validates exactly when all of its tasks are well formed |
| TaskDsl.ValidityComposes | src/core/task-dsl.js:145-191 | a concatenation validates exactly when both parts do, and its errors are the parts' errors in order |
| TaskDsl.NormalizeKeepsVerdict | src/core/task-dsl.js:134-152 | validating the normalised list gives the same verdict as validating the input, for arrays and absent lists |
| TaskDsl.TableReadAsWritten | src/core/task-dsl.js:170-176 | a table lookup finds an own entry exactly for the DSL type names |
| TaskDsl.TaskErrorsAsWritten | src/core/task-dsl.js:156-188 | the code as written fails exactly for unknown types named like an inherited object member |
| TaskDsl.InheritedTypeThrows | src/core/task-dsl.js:170-180 | a task of type `toString` makes the validator as written fail |
| TaskDsl.InheritedTypeReported | src/core/task-dsl.js:170-174 | the corrected validator reports `toString` as an unknown type |
| TaskDsl.AsWrittenAgrees | src/core/task-dsl.js:154-189 | without such types, the code as written and the corrected validator agree |
| Legacy.MakeLegacySubjectId | src/teacher/script-teacher.js:2088-2093 | a subject id starts with `legacy:` and is never blank |
| Legacy.SubjectIdIdentifiesPath | src/teacher/script-teacher.js:2088-2093 | two paths get the same subject id exactly when they normalise alike |
| Legacy.GetFirstCheck | src/teacher/script-teacher.js:2095-2098 | returns the first check of the asked type in the task, and returns none only when there is no such check |
| Legacy.FirstOfEither | src/teacher/script-teacher.js:2106-2108 | returns the first check of the first type if there is one, otherwise the first check of the second type, and none only when neither type occurs |
| Legacy.DslTask | src/teacher/script-teacher.js:2100-2297 | a converted task gets the DSL type name, non-strict mode, and the source's description and checks, and every other field starts empty |
| Legacy.ConvertMove | src/teacher/script-teacher.js:2104-2123 | converts exactly when the first file-moved or folder-moved check has a from and a to; the move then takes its subject id, from path and to path from that check, and otherwise fails with "Missing move check data"; a converted task sets no field outside its case |
| Legacy.ConvertRename | src/teacher/script-teacher.js:2125-2141 | converts exactly when the first file-renamed check has a from and a to; the rename then takes its subject id from the from path and its names from the last segments, and otherwise fails with "Missing rename check data"; a converted task sets no field outside its case |
| Legacy.ConvertDelete | src/teacher/script-teacher.js:2143-2162 | converts exactly when the first not-exists check, or else the task's first check, has a path; the delete then takes its subject id and from path from it, and otherwise fails with "Missing delete path"; a converted task sets no field outside its case |
| Legacy.ConvertPermanentDelete | src/teacher/script-teacher.js:2164-2185 | converts exactly when the first permanently-deleted check, or else the task's first check, has a path; the task then takes its subject id and from path from it, and otherwise fails with "Missing permanent delete path"; a converted task sets no field outside its case |
| Legacy.ConvertCreate | src/teacher/script-teacher.js:2187-2206 | converts exactly when the first exists check, or else the task's first check, has a path; the create then takes its subject id and to path from it, and otherwise fails with "Missing create path"; a converted task sets no field outside its case |
| Legacy.ConvertRestore | src/teacher/script-teacher.js:2208-2226 | converts exactly when the first restored check (no fallback) has a path; the restore then takes its subject id and to path from it, and otherwise fails with "Missing restore path"; a converted task sets no field outside its case |
| Legacy.ConvertCopy | src/teacher/script-teacher.js:2228-2247 | converts exactly when the first copied check (no fallback) has a from and a to; the copy then takes its subject id, from path and to path from it, and otherwise fails with "Missing copy check data"; a converted task sets no field outside its case |
| Legacy.ConvertZipCompress | src/teacher/script-teacher.js:2249-2272 | converts exactly when the first zip-exists check has a path, which becomes the output path and gives the output name; the inputs are the entry ids of the first zip-contains check's entries (none without one); otherwise it fails with "Missing zip output path"; a converted task sets no field outside its case |
| Legacy.ConvertZipExtract | src/teacher/script-teacher.js:2274-2293 | converts exactly when the first zip-extracted-to check has a zip path and a destination folder, which give the archive id and destination path; otherwise it fails with "Missing zip extract data"; a converted task sets no field outside its case |
| Legacy.ConvertLegacyTaskToDsl | src/teacher/script-teacher.js:2100-2297 | a conversion yields a known DSL type and keeps the description and checks; a supported legacy type converts exactly as its case says (selected check, fields, failure message), and an unknown type fails as unsupported; a converted task sets no field outside its case |
| Legacy.ConvertKind | src/teacher/script-teacher.js:2100-2297 | each legacy type converts to its DSL counterpart exactly when its selected check carries the data, with the subject, archive or output taken from that check, and otherwise fails naming what is missing; a converted task sets no field outside its case |
| Legacy.EntryIds | src/teacher/script-teacher.js:2255-2258 | one legacy entry id per zip entry |
| Legacy.Outcome | src/teacher/script-teacher.js:2308-2318 | a task already of a DSL type passes through unchanged |
| Legacy.ToDslTasks | src/teacher/script-teacher.js:2300-2324 | every task ends up as either a DSL task or an error |
| Legacy.ToDslTasksOutcomes | src/teacher/script-teacher.js:2300-2324 | no errors exactly when every task converts, and then the tasks are converted in order; each error names the index of a failing task; DSL tasks pass through and every result has a DSL type |
| Legacy.GeneratedTaskConverts | src/teacher/script-teacher.js:1637-1814 | a task generated from a diff converts exactly when the diff's paths are filled, with the subject taken from them |
| Legacy.ShapeIsLegacy | src/teacher/script-teacher.js:1637-1814 | every generated task type is a legacy type whose converter looks for the generated check type |
| Legacy.SingleCheckConverts | src/teacher/script-teacher.js:2104-2247 | a one-check legacy task converts exactly when the check's paths are filled |
| Legacy.TaskToValue | src/core/task-dsl.js:156-188 | encoding a task for the validator keeps exactly its defined fields |
| Legacy.EncodedValidity | src/core/task-dsl.js:156-188 | an encoded task is well formed exactly when all fields its type requires are present |
| Legacy.ConvertedValidity | src/teacher/script-teacher.js:2100-2297 | a converted task validates exactly when the paths its type needs are filled |
| Legacy.RequiredVersusPaths | src/core/task-dsl.js:20-30 | with the subject set, a type's required fields are present exactly when its path fields are filled |
| Legacy.LegacyZipExtractPassesThrough | src/teacher/script-teacher.js:2300-2324 | a legacy zip-extract task without an archive id passes through unconverted and then fails validation |
| Legacy.LegacyZipExtractRejected | src/teacher/script-teacher.js:2300-2324 | the validator rejects a zip-extract task without an archive id, on its own and as a one-task list |
| Legacy.OutcomeCorrected | src/teacher/script-teacher.js:2274-2324 | the corrected conversion differs from the original only for zip-extract tasks without an archive id |
| Legacy.ToDslTasksCorrected | src/teacher/script-teacher.js:2300-2324 | every task ends up as either a DSL task or an error under the corrected conversion |
| Legacy.CorrectedZipExtractConverts | src/teacher/script-teacher.js:2274-2293 | a synchronised legacy zip-extract task converts to a zip-extract of its archive, and it validates exactly when the destination is filled |

## Left out

- The DOM, rendering, drag and drop, dialogs, storage, downloads, SCORM reporting and `fetch`. These are browser I/O with no logic of their own worth proving.
- Timers and animation, for the same reason.
- `confirm()`-guarded flows and `undoLastAction`. These depend on user interaction.
- `debugLog` and console output.
- Id generation (`generateId`, `ensureNodeIdsRecursive`, `cloneNodeWithNewIds`). Ids are opaque strings, and copies keep theirs.
- `deepClone`. It is implicit in the value semantics of datatypes.
- The Dutch description text of generated tasks (`generateDefaultTaskDescription`). It is a parameter `describe`, which the task records verbatim.
- `localeCompare` ordering of lists shown in the UI.
- Evaluator.CalculateScore: rounds exactly. The floating-point product `completed / total * 100` can land just below a `.5` boundary, and then `Math.round` would round down where the model rounds up.
- A non-array `checks`, `entries` or `inputIds`: read as the empty list, as the source's `Array.isArray` guards do.
- Null tasks, and task values that are not objects, in the teacher code: the model's tasks are records. The DSL validator still sees arbitrary values through `TaskDsl`'s `Value` type.
- `window.TaskDSL` and a global `normalizePath`: assumed present. The fallbacks for their absence are not modelled.
- Legacy.TaskToValue: encodes only the fields the validator reads, not the full task object.
- Synth.ParseEntriesInput: treats `\r` as whitespace to trim, rather than splitting on `\r\n`. The entries are the same, because trimming removes a trailing `\r`.
- TaskDsl.ValidateTasks: looks type names up in the required-fields table as own keys only, so a type such as `toString` is reported as unknown. As written, the source reads the inherited `Object.prototype` member and throws (src/core/task-dsl.js:170-180); `TaskDsl.TaskErrorsAsWritten` models that and the Findings table records the difference. `TaskDsl.TaskErrors` uses the same lookup.
- Tree.ExtraItems: looks names up as own keys only. The source's plain-object map also answers for inherited `Object.prototype` names; `Tree.ExtraItemsAsWritten` models that and the Findings table records the difference.
- Tree.CompareStructures: reports errors for each name in first-occurrence order. The source lists integer-like names first, in ascending order, because `Object.keys` does; the set of errors is the same.
- Tree.CompareItemsEmptyIffSameShape: holds for own-key lookups. As written, an item named `__proto__` replaces the map's prototype instead of becoming a key, so it is never compared; that case is not modelled.
- Tree.CompareStructuresSpec: states the corrected comparison. The inherited-name difference of the code as written is `Tree.InheritedNamesAsWritten`.
- Navigation.NormalizeStudentChecklistState: numbers are integers, so the falsy `NaN` and fractional values are not modelled.
- A `null` entry in a task's `checks`: `evaluateCheck` reads `check.type` and throws (src/core/script-core.js:1001, reached from line 1147). The model's checks are records, so this case cannot arise.
- Tree.RenameFirst: models only the rename of the item list. The undo entry, the selection update and the log line of `applyRename` are left out.
- Tree.GetProtectedSelection: assumes an array of selected names. The non-array guard returns an empty list, which the empty sequence covers.
- Naming.ChildList.RemoveCutItems: works on the child list of the source folder once it is found. The lookup of that folder by path is `Tree.GetFolder`.
- `src/core/default-structure.js` and `src/student/script-student.js`: not part of this model, beyond the initial structure's shape.
- The undo history's stored snapshots. Only the length bound and order of `pushHistory` are modelled.

## Findings

| source | as written | input that shows it | evidently intended | confidence | as-written member | corrected member |
|---|---|---|---|---|---|---|
| src/core/task-dsl.js:170-180 | the unknown-type test looks up the type name in a plain object, so inherited members such as `toString` pass it; the required-field list is then a function, and calling `forEach` on it throws | `validateTasks([{ type: "toString" }])` | report `tasks[0]` as having an unknown type | not executed | TaskDsl.InheritedTypeThrows | TaskDsl.InheritedTypeReported |
| src/core/script-core.js:3602-3646 | `getItemsMap` builds a plain object, so a lookup of a name that is not an item's sees `Object.prototype` members such as `constructor` and `toString`, which are truthy | current folder with a file `constructor`, target folder empty: `compareStructures` returns `success: true` | look names up as own keys only (a `Map`), reporting the extra item | not executed | Tree.InheritedNamesAsWritten | Tree.CompareStructuresSpec |
| src/teacher/script-teacher.js:2300-2324 | `toDslTasks` passes every task whose type is already a DSL type through unconverted, including a legacy zip-extract task that carries `zipPath` and `destinationFolder` but no `archiveId` | a task `{ type: "zip-extract", zipPath: "C:\\a.zip", destinationFolder: "C:\\out", checks: [...] }` | convert it through the zip-extract branch at lines 2274-2293, so that it gains an archive id and validates | not executed | Legacy.LegacyZipExtractPassesThrough | Legacy.CorrectedZipExtractConverts |
