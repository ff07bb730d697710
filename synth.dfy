/**
  * The teacher's task synthesiser: interpreted diffs are reshaped into
  * kind-tagged records, each record of a known kind becomes a legacy task
  * with exactly one check, and the zip-task editor keeps a zip task's checks
  * in step with its zip path, destination folder and entry list.
  */
module Synth {
  import opened Wrappers
  import opened Text
  import opened Paths
  import opened Tree
  import opened Tasks
  import opened Evaluator
  import opened Diff
  import opened Seqs

  /** A normalized diff record; a field the record's kind does not carry is "". */
  datatype DiffRecord = DiffRecord(kind: string, path: string, from: string, to: string, name: string)

  /** The thirteen record kinds createTaskFromDiff knows. */
  const DiffKinds: set<string> := {
    "added-folder", "added-file", "removed-folder", "removed-file",
    "permanently-deleted-folder", "permanently-deleted-file",
    "moved-file", "moved-folder", "renamed-file", "copied-folder", "copied-file",
    "restored-folder", "restored-file"}

  // --- normalizeInterpretedDiffs ------------------------------------------------------

  /** One path record per item, the kind chosen by the item's type. */
  function ItemRecords(items: seq<Fact>, folderKind: string, fileKind: string): (r: seq<DiffRecord>)
    ensures |r| == |items|
    ensures forall x :: x in r ==> x.kind == folderKind || x.kind == fileKind
    ensures forall i :: 0 <= i < |items| ==>
      r[i] == DiffRecord(if items[i].kind == Folder then folderKind else fileKind, items[i].path, "", "", items[i].name)
  {
    if items == [] then []
    else
      var item := items[0];
      [DiffRecord(if item.kind == Folder then folderKind else fileKind, item.path, "", "", item.name)] +
      ItemRecords(items[1..], folderKind, fileKind)
  }

  /** One from/to record per move of the given type; moves of the other type are skipped. */
  function MoveRecords(items: seq<MoveRec>, kind: NodeKind, recordKind: string): (r: seq<DiffRecord>)
    ensures |r| <= |items|
    ensures forall x :: x in r ==> x.kind == recordKind
    ensures (forall i :: 0 <= i < |items| ==> items[i].kind == kind) ==>
      |r| == |items| &&
      forall i :: 0 <= i < |items| ==> r[i] == DiffRecord(recordKind, "", items[i].from, items[i].to, items[i].name)
  {
    if items == [] then []
    else
      var m := items[0];
      var rest := MoveRecords(items[1..], kind, recordKind);
      if m.kind == kind then [DiffRecord(recordKind, "", m.from, m.to, m.name)] + rest else rest
  }

  /** One renamed-file record per rename; a rename record carries no name. */
  function RenameRecords(items: seq<RenameRec>): (r: seq<DiffRecord>)
    ensures |r| == |items|
    ensures forall x :: x in r ==> x.kind == "renamed-file"
    ensures forall i :: 0 <= i < |items| ==> r[i] == DiffRecord("renamed-file", "", items[i].from, items[i].to, "")
  {
    if items == [] then [] else [DiffRecord("renamed-file", "", items[0].from, items[0].to, "")] + RenameRecords(items[1..])
  }

  /** One copied-folder or copied-file record per copy. */
  function CopyRecords(items: seq<CopyRec>): (r: seq<DiffRecord>)
    ensures |r| == |items|
    ensures forall x :: x in r ==> x.kind == "copied-folder" || x.kind == "copied-file"
    ensures forall i :: 0 <= i < |items| ==>
      r[i] == DiffRecord(if items[i].kind == Folder then "copied-folder" else "copied-file", "", items[i].from, items[i].to, items[i].name)
  {
    if items == [] then []
    else
      var c := items[0];
      [DiffRecord(if c.kind == Folder then "copied-folder" else "copied-file", "", c.from, c.to, c.name)] + CopyRecords(items[1..])
  }

  /** One path record per bin record; a type string other than "folder" counts as a file. */
  function BinRecords(items: seq<BinRec>, folderKind: string, fileKind: string): (r: seq<DiffRecord>)
    ensures |r| == |items|
    ensures forall x :: x in r ==> x.kind == folderKind || x.kind == fileKind
    ensures forall i :: 0 <= i < |items| ==>
      r[i] == DiffRecord(if items[i].kind == "folder" then folderKind else fileKind, items[i].path, "", "", items[i].name)
  {
    if items == [] then []
    else
      var b := items[0];
      [DiffRecord(if b.kind == "folder" then folderKind else fileKind, b.path, "", "", b.name)] +
      BinRecords(items[1..], folderKind, fileKind)
  }

  /** The number of entries over all nine categories. */
  function EntryCount(d: Diffs): nat
  {
    |d.added| + |d.removed| + |d.removedPermanent| + |d.moved| + |d.movedFolders| +
    |d.renamed| + |d.copied| + |d.restored| + |d.binPermanentlyDeleted|
  }

  /** The moves are all file moves and the folder moves all folder moves. */
  predicate MovesTyped(d: Diffs)
  {
    (forall i :: 0 <= i < |d.moved| ==> d.moved[i].kind == File) &&
    (forall i :: 0 <= i < |d.movedFolders| ==> d.movedFolders[i].kind == Folder)
  }

  /**
    * normalizeInterpretedDiffs: the records of the nine categories in the
    * fixed order added, removed, removedPermanent, moved, movedFolders,
    * renamed, copied, restored, binPermanentlyDeleted.
    */
  function NormalizeInterpretedDiffs(d: Diffs): seq<DiffRecord>
  {
    Front(d) + BinRecords(d.binPermanentlyDeleted, "permanently-deleted-folder", "permanently-deleted-file")
  }

  /** The records of every category but the bin's permanent deletes. */
  function Front(d: Diffs): seq<DiffRecord>
  {
    ItemRecords(d.added, "added-folder", "added-file") +
    (ItemRecords(d.removed, "removed-folder", "removed-file") +
     ItemRecords(d.removedPermanent, "permanently-deleted-folder", "permanently-deleted-file") +
     MoveRecords(d.moved, File, "moved-file") +
     MoveRecords(d.movedFolders, Folder, "moved-folder") +
     RenameRecords(d.renamed) +
     CopyRecords(d.copied) +
     BinRecords(d.restored, "restored-folder", "restored-file"))
  }

  /** Every normalized record has one of the thirteen kinds a task can be made from. */
  lemma NormalizedKinds(d: Diffs)
    ensures forall x :: x in NormalizeInterpretedDiffs(d) ==> x.kind in DiffKinds
  {
    var a := ItemRecords(d.added, "added-folder", "added-file");
    var b := ItemRecords(d.removed, "removed-folder", "removed-file");
    var c := ItemRecords(d.removedPermanent, "permanently-deleted-folder", "permanently-deleted-file");
    var e := MoveRecords(d.moved, File, "moved-file");
    var f := MoveRecords(d.movedFolders, Folder, "moved-folder");
    var g := RenameRecords(d.renamed);
    var h := CopyRecords(d.copied);
    var k := BinRecords(d.restored, "restored-folder", "restored-file");
    var l := BinRecords(d.binPermanentlyDeleted, "permanently-deleted-folder", "permanently-deleted-file");
    ItemsKnown(d.added, "added-folder", "added-file");
    ItemsKnown(d.removed, "removed-folder", "removed-file");
    ItemsKnown(d.removedPermanent, "permanently-deleted-folder", "permanently-deleted-file");
    MovesKnown(d.moved, File, "moved-file");
    MovesKnown(d.movedFolders, Folder, "moved-folder");
    assert KnownKinds(g) && KnownKinds(h);
    BinKnown(d.restored, "restored-folder", "restored-file");
    BinKnown(d.binPermanentlyDeleted, "permanently-deleted-folder", "permanently-deleted-file");
    KnownAppend(b, c);
    KnownAppend(b + c, e);
    KnownAppend(b + c + e, f);
    KnownAppend(b + c + e + f, g);
    KnownAppend(b + c + e + f + g, h);
    KnownAppend(b + c + e + f + g + h, k);
    KnownAppend(a, b + c + e + f + g + h + k);
    KnownAppend(Front(d), l);
  }

  predicate KnownKinds(r: seq<DiffRecord>)
  {
    forall x :: x in r ==> x.kind in DiffKinds
  }

  lemma ItemsKnown(items: seq<Fact>, folderKind: string, fileKind: string)
    requires folderKind in DiffKinds && fileKind in DiffKinds
    ensures KnownKinds(ItemRecords(items, folderKind, fileKind))
  {
  }

  lemma MovesKnown(items: seq<MoveRec>, kind: NodeKind, recordKind: string)
    requires recordKind in DiffKinds
    ensures KnownKinds(MoveRecords(items, kind, recordKind))
  {
  }

  lemma BinKnown(items: seq<BinRec>, folderKind: string, fileKind: string)
    requires folderKind in DiffKinds && fileKind in DiffKinds
    ensures KnownKinds(BinRecords(items, folderKind, fileKind))
  {
  }

  lemma KnownAppend(a: seq<DiffRecord>, b: seq<DiffRecord>)
    requires KnownKinds(a) && KnownKinds(b)
    ensures KnownKinds(a + b)
  {
  }

  /** No record is invented, and when the moves are typed none is dropped: one record per entry. */
  lemma NormalizedCount(d: Diffs)
    ensures |NormalizeInterpretedDiffs(d)| <= EntryCount(d)
    ensures MovesTyped(d) ==> |NormalizeInterpretedDiffs(d)| == EntryCount(d)
  {
  }

  /** The added items come first, in order, each with its path and name. */
  lemma NormalizedAddedFirst(d: Diffs)
    ensures forall i :: 0 <= i < |d.added| ==>
      var x := NormalizeInterpretedDiffs(d)[i];
      x.kind == (if d.added[i].kind == Folder then "added-folder" else "added-file") &&
      x.path == d.added[i].path && x.name == d.added[i].name
  {
    var added := ItemRecords(d.added, "added-folder", "added-file");
    var front := Front(d);
    PrefixIndexes(added, front[|added|..]);
    PrefixIndexes(front, NormalizeInterpretedDiffs(d)[|front|..]);
  }

  /** The bin's permanent deletes come last, in order, each with its path and name. */
  lemma NormalizedBinLast(d: Diffs)
    ensures forall i :: 0 <= i < |d.binPermanentlyDeleted| ==>
      var x := NormalizeInterpretedDiffs(d)[|Front(d)| + i];
      x.kind == (if d.binPermanentlyDeleted[i].kind == "folder" then "permanently-deleted-folder" else "permanently-deleted-file") &&
      x.path == d.binPermanentlyDeleted[i].path && x.name == d.binPermanentlyDeleted[i].name
  {
    var bins := BinRecords(d.binPermanentlyDeleted, "permanently-deleted-folder", "permanently-deleted-file");
    SuffixIndexes(Front(d), bins);
  }

  lemma PrefixIndexes(a: seq<DiffRecord>, b: seq<DiffRecord>)
    ensures forall i :: 0 <= i < |a| ==> (a + b)[i] == a[i]
  {
  }

  lemma SuffixIndexes(a: seq<DiffRecord>, b: seq<DiffRecord>)
    ensures forall i :: 0 <= i < |b| ==> (a + b)[|a| + i] == b[i]
  {
  }

  /** normalizeDiffs: the records of the interpreted difference between two snapshots. */
  function NormalizeDiffs(raw: RawDiff): seq<DiffRecord>
  {
    NormalizeInterpretedDiffs(InterpretedDiffs(raw.initialFlat, raw.targetFlat, raw.initialBin, raw.targetBin))
  }

  /** The interpreter's moves are typed by phase, so no entry is dropped: one record per entry. */
  lemma NormalizedDiffsComplete(raw: RawDiff)
    ensures |NormalizeDiffs(raw)| == EntryCount(InterpretedDiffs(raw.initialFlat, raw.targetFlat, raw.initialBin, raw.targetBin))
  {
    var d := InterpretedDiffs(raw.initialFlat, raw.targetFlat, raw.initialBin, raw.targetBin);
    forall i | 0 <= i < |d.moved| ensures d.moved[i].kind == File {
      assert d.moved[i] in d.moved;
    }
    forall i | 0 <= i < |d.movedFolders| ensures d.movedFolders[i].kind == Folder {
      assert d.movedFolders[i] in d.movedFolders;
    }
    assert MovesTyped(d);
    NormalizedCount(d);
  }

  // --- createTaskFromDiff -------------------------------------------------------------

  /** What a record kind turns into: the legacy task type, the check type, and whether the check names from/to (else a path). */
  datatype TaskShape = TaskShape(taskType: string, checkType: string, pair: bool)

  function ShapeOf(kind: string): (r: Option<TaskShape>)
    ensures r.Some? <==> kind in DiffKinds
  {
    if kind == "added-folder" then Some(TaskShape("folder-created", "folder-exists", false))
    else if kind == "removed-file" then Some(TaskShape("file-deleted", "file-not-exists", false))
    else if kind == "moved-file" then Some(TaskShape("file-moved", "file-moved", true))
    else if kind == "moved-folder" then Some(TaskShape("folder-moved", "folder-moved", true))
    else if kind == "renamed-file" then Some(TaskShape("file-renamed", "file-renamed", true))
    else if kind == "removed-folder" then Some(TaskShape("folder-deleted", "folder-not-exists", false))
    else if kind == "permanently-deleted-file" then Some(TaskShape("file-permanently-deleted", "file-permanently-deleted", false))
    else if kind == "permanently-deleted-folder" then Some(TaskShape("folder-permanently-deleted", "folder-permanently-deleted", false))
    else if kind == "added-file" then Some(TaskShape("file-created", "file-exists", false))
    else if kind == "copied-file" then Some(TaskShape("file-copied", "file-copied", true))
    else if kind == "copied-folder" then Some(TaskShape("folder-copied", "folder-copied", true))
    else if kind == "restored-file" then Some(TaskShape("file-restored", "file-restored", false))
    else if kind == "restored-folder" then Some(TaskShape("folder-restored", "folder-restored", false))
    else None
  }

  /** Every generated check type is one the evaluator knows, and it demands exactly the fields the record supplies. */
  lemma ShapesMatchEvaluator(kind: string)
    requires kind in DiffKinds
    ensures ShapeOf(kind).value.checkType in CheckTypes
    ensures RequiredCheckFields(ShapeOf(kind).value.checkType) == if ShapeOf(kind).value.pair then ["from", "to"] else ["path"]
  {
  }

  /**
    * createTaskFromDiff: a record of one of the thirteen kinds becomes a
    * task of the matching legacy type with exactly one check, whose from/to
    * or path is the record's; its description is `describe` applied to the
    * task without one. Any other kind gives None (null).
    */
  function CreateTaskFromDiff(d: DiffRecord, describe: Task -> string): (r: Option<Task>)
    ensures r.Some? <==> d.kind in DiffKinds
    ensures r.Some? ==> |r.value.checks| == 1
    ensures r.Some? ==>
      var shape := ShapeOf(d.kind).value;
      var c := r.value.checks[0];
      r.value.kind == shape.taskType && c.kind == shape.checkType &&
      (if shape.pair then c.from == d.from && c.to == d.to && c.path == "" else c.path == d.path && c.from == "" && c.to == "") &&
      r.value.description == describe(r.value.(description := ""))
  {
    match ShapeOf(d.kind)
    case None => None
    case Some(shape) =>
      var check := if shape.pair then FromToCheck(shape.checkType, d.from, d.to) else PathCheck(shape.checkType, d.path);
      var task := LegacyTask(shape.taskType, "", [check]);
      Some(task.(description := describe(task)))
  }

  /**
    * A generated check has every field the evaluator demands exactly when
    * the record's from and to (for a move, rename or copy) or its path (for
    * the others) are non-empty; otherwise it can never pass.
    */
  lemma GeneratedCheckWellFormed(d: DiffRecord, describe: Task -> string)
    requires d.kind in DiffKinds
    ensures var c := CreateTaskFromDiff(d, describe).value.checks[0];
      c.kind in CheckTypes &&
      (RequireCheckFields(c, RequiredCheckFields(c.kind)) <==>
        if ShapeOf(d.kind).value.pair then d.from != "" && d.to != "" else d.path != "")
  {
    ShapesMatchEvaluator(d.kind);
  }

  /** `records.map(createTaskFromDiff).filter(Boolean)`. */
  function TasksFromRecords(records: seq<DiffRecord>, describe: Task -> string): (r: seq<Task>)
    ensures |r| <= |records|
    ensures forall t :: t in r ==> |t.checks| == 1
    ensures (forall i :: 0 <= i < |records| ==> records[i].kind in DiffKinds) ==>
      |r| == |records| && forall i :: 0 <= i < |records| ==> r[i] == CreateTaskFromDiff(records[i], describe).value
  {
    if records == [] then []
    else
      var rest := TasksFromRecords(records[1..], describe);
      match CreateTaskFromDiff(records[0], describe)
      case None => rest
      case Some(t) => [t] + rest
  }

  /** The tasks generateTasksFromDiffs produces for a raw difference. */
  function GeneratedTasks(raw: RawDiff, describe: Task -> string): seq<Task>
  {
    TasksFromRecords(NormalizeDiffs(raw), describe)
  }

  /** Every interpreted entry yields exactly one task, with exactly one check. */
  lemma GeneratedTaskPerEntry(raw: RawDiff, describe: Task -> string)
    ensures |GeneratedTasks(raw, describe)| ==
      EntryCount(InterpretedDiffs(raw.initialFlat, raw.targetFlat, raw.initialBin, raw.targetBin))
    ensures forall t :: t in GeneratedTasks(raw, describe) ==> |t.checks| == 1
  {
    NormalizedDiffsComplete(raw);
    NormalizedKinds(InterpretedDiffs(raw.initialFlat, raw.targetFlat, raw.initialBin, raw.targetBin));
    KnownRecordsCount(NormalizeDiffs(raw), describe);
  }

  /** Records of known kinds give one task each. */
  lemma {:induction false} KnownRecordsCount(records: seq<DiffRecord>, describe: Task -> string)
    requires forall x :: x in records ==> x.kind in DiffKinds
    ensures |TasksFromRecords(records, describe)| == |records|
  {
    if records != [] {
      assert records[0] in records;
      KnownRecordsCount(records[1..], describe);
    }
  }

  /** The teacher page's state that task generation writes. */
  class TeacherState {
    var generatedTasks: seq<Task>

    constructor()
      ensures generatedTasks == []
    {
      generatedTasks := [];
    }

    /** generateTasksFromDiffs: interpret, normalize, create the tasks, and store them. */
    method GenerateTasksFromDiffs(raw: RawDiff, describe: Task -> string) returns (tasks: seq<Task>)
      modifies this
      ensures tasks == GeneratedTasks(raw, describe)
      ensures generatedTasks == tasks
    {
      var d := InterpretDiffsFromFlats(raw.initialFlat, raw.targetFlat, raw.initialBin, raw.targetBin);
      var records := NormalizeInterpretedDiffs(d);
      tasks := TasksFromRecords(records, describe);
      generatedTasks := tasks;
    }
  }

  // --- Zip task editor ------------------------------------------------------------------

  /**
    * parseEntriesInput: the lines of the text (split at "\n"; a "\r" before
    * it is white space and trimmed away with the rest), each trimmed, the
    * empty ones dropped.
    */
  function ParseEntriesInput(value: string): (r: seq<string>)
    ensures forall i :: 0 <= i < |r| ==> r[i] != "" && Trim(r[i]) == r[i] && '\n' !in r[i]
    ensures forall e :: e in r <==> e != "" && e in Map(Split(value, '\n'), Trim)
  {
    EntriesTrimmed(Split(value, '\n'));
    EntriesOf(Split(value, '\n'))
  }

  /** `Boolean` on a string: only "" is falsy. */
  predicate NonEmpty(e: string)
  {
    e != ""
  }

  /**
    * `parts.map(trim).filter(Boolean)`: the trimmed parts that are not empty,
    * in order (EntriesOfConcat, EntriesOfLine).
    */
  function EntriesOf(parts: seq<string>): (r: seq<string>)
    ensures |r| <= |parts|
    ensures forall e :: e in r <==> e != "" && e in Map(parts, Trim)
  {
    Filter(Map(parts, Trim), NonEmpty)
  }

  /**
    * Every entry is non-empty and already trimmed; trimming adds no
    * character, so lines without a newline give entries without one.
    */
  lemma EntriesTrimmed(parts: seq<string>)
    ensures forall i :: 0 <= i < |EntriesOf(parts)| ==> EntriesOf(parts)[i] != "" && Trim(EntriesOf(parts)[i]) == EntriesOf(parts)[i]
    ensures (forall i :: 0 <= i < |parts| ==> '\n' !in parts[i]) ==>
              forall i :: 0 <= i < |EntriesOf(parts)| ==> '\n' !in EntriesOf(parts)[i]
  {
    var r := EntriesOf(parts);
    forall i | 0 <= i < |r|
      ensures r[i] != "" && Trim(r[i]) == r[i]
      ensures (forall j :: 0 <= j < |parts| ==> '\n' !in parts[j]) ==> '\n' !in r[i]
    {
      assert r[i] in Map(parts, Trim);
      var j :| 0 <= j < |parts| && r[i] == Trim(parts[j]);
      TrimIdempotent(parts[j]);
    }
  }

  /**
    * Parsing is a homomorphism on the list of lines: the entries of two runs
    * of lines are the entries of the first followed by those of the second.
    * With EntriesOfLine this fixes the entries and their order.
    */
  lemma EntriesOfConcat(a: seq<string>, b: seq<string>)
    ensures EntriesOf(a + b) == EntriesOf(a) + EntriesOf(b)
  {
    MapConcat(a, b, Trim);
    FilterConcat(Map(a, Trim), Map(b, Trim), NonEmpty);
  }

  /** One line gives its trimmed text, unless that is empty. */
  lemma EntriesOfLine(p: string)
    ensures EntriesOf([p]) == if Trim(p) == "" then [] else [Trim(p)]
  {
    assert Map([p], Trim) == [Trim(p)];
    assert [Trim(p)][..0] == [];
  }

  /** Clean parts are kept as they are. */
  lemma {:induction false} EntriesOfClean(parts: seq<string>)
    requires forall i :: 0 <= i < |parts| ==> parts[i] != "" && Trim(parts[i]) == parts[i] && '\n' !in parts[i]
    ensures EntriesOf(parts) == parts
  {
    if parts != [] {
      assert Map(parts, Trim) == parts;
      FilterKeepsAll(parts, NonEmpty);
    }
  }

  /**
    * The editor shows the entries joined by "\n" and reads them back with
    * parseEntriesInput: clean entries survive the round trip unchanged.
    */
  lemma EntriesRoundTrip(entries: seq<string>)
    requires forall i :: 0 <= i < |entries| ==> entries[i] != "" && Trim(entries[i]) == entries[i] && '\n' !in entries[i]
    ensures ParseEntriesInput(Join(entries, '\n')) == entries
  {
    if entries == [] {
      assert Split("", '\n') == [""];
      assert Trim("") == "";
    } else {
      SplitJoin(entries, '\n');
      EntriesOfClean(entries);
    }
  }

  /** Parsing what the editor shows for parsed entries gives the same entries. */
  lemma EntriesEditorStable(value: string)
    ensures ParseEntriesInput(Join(ParseEntriesInput(value), '\n')) == ParseEntriesInput(value)
  {
    EntriesRoundTrip(ParseEntriesInput(value));
  }

  /** Bare-name `expectEntries` elements for a list of entry strings. */
  function NamedEntries(entries: seq<string>): (r: seq<Entry>)
    ensures |r| == |entries|
    ensures forall i :: 0 <= i < |entries| ==> r[i] == NamedEntry(entries[i])
  {
    if entries == [] then [] else [NamedEntry(entries[0])] + NamedEntries(entries[1..])
  }

  /**
    * The checks syncZipTaskChecks writes: for zip-extract one
    * zip-extracted-to check, for zip-compress a zip-exists and an "all"
    * zip-contains check, each from the task's fields (a non-array entry list
    * is the empty list); None for any other type, whose checks stay.
    */
  function ZipChecks(task: Task): (r: Option<seq<Check>>)
    ensures r.Some? <==> task.kind == "zip-extract" || task.kind == "zip-compress"
    ensures task.kind == "zip-compress" ==>
      |r.value| == 2 &&
      r.value[0].kind == "zip-exists" && r.value[0].path == task.zipPath &&
      r.value[1].kind == "zip-contains" && r.value[1].zipPath == task.zipPath && r.value[1].mode == "all"
    ensures task.kind == "zip-extract" ==>
      |r.value| == 1 && r.value[0].kind == "zip-extracted-to" &&
      r.value[0].zipPath == task.zipPath && r.value[0].destinationFolder == task.destinationFolder
  {
    var entries := ListOrEmpty(task.entries);
    if task.kind == "zip-extract" then
      Some([NoCheckFields.(kind := "zip-extracted-to", zipPath := task.zipPath,
                           destinationFolder := task.destinationFolder, expectEntries := Items(NamedEntries(entries)))])
    else if task.kind == "zip-compress" then
      Some([PathCheck("zip-exists", task.zipPath),
            NoCheckFields.(kind := "zip-contains", zipPath := task.zipPath, entries := Items(entries), mode := "all")])
    else None
  }

  /** The task after syncZipTaskChecks: the zip checks replace its checks; nothing else changes. */
  function SyncedZipTask(task: Task): (r: Task)
    ensures r == task.(checks := r.checks)
    ensures ZipChecks(task).None? ==> r == task
  {
    match ZipChecks(task)
    case Some(checks) => task.(checks := checks)
    case None => task
  }

  /**
    * Synchronising twice is synchronising once, and a synchronised zip
    * task's checks are all known to the evaluator and have every field it
    * demands exactly when the task has a zip path (and, to extract, a
    * destination folder); the entries they carry are the task's.
    */
  lemma {:induction false} SyncedZipChecksWellFormed(task: Task)
    ensures SyncedZipTask(SyncedZipTask(task)) == SyncedZipTask(task)
    ensures task.kind == "zip-compress" ==>
      var cs := SyncedZipTask(task).checks;
      |cs| == 2 && cs[1].entries == Items(ListOrEmpty(task.entries)) &&
      forall i :: 0 <= i < 2 ==>
        (cs[i].kind in CheckTypes && (RequireCheckFields(cs[i], RequiredCheckFields(cs[i].kind)) <==> task.zipPath != ""))
    ensures task.kind == "zip-extract" ==>
      var cs := SyncedZipTask(task).checks;
      |cs| == 1 && cs[0].kind in CheckTypes && ListOrEmpty(cs[0].expectEntries) == NamedEntries(ListOrEmpty(task.entries)) &&
      (RequireCheckFields(cs[0], RequiredCheckFields(cs[0].kind)) <==> task.zipPath != "" && task.destinationFolder != "")
  {
    var cs := SyncedZipTask(task).checks;
    if task.kind == "zip-compress" {
      assert RequiredCheckFields(cs[0].kind) == ["path"];
      assert RequiredCheckFields(cs[1].kind) == ["zipPath", "entries"];
    } else if task.kind == "zip-extract" {
      assert RequiredCheckFields(cs[0].kind) == ["zipPath", "destinationFolder", "expectEntries"];
    }
  }

  /** A path ending in ".zip" names an item whose name ends in ".zip". */
  lemma ZipNameOfZipPath(path: string)
    requires EndsWith(path, ".zip")
    ensures EndsWith(NameFromPath(path), ".zip")
  {
    assert path[|path| - 4..] == NameFromPath(path)[|NameFromPath(path)| - 4..];
  }

  /** requireCheckFields over a list of one, two or three fields is the conjunction of their presence. */
  lemma RequireOne(c: Check, a: string)
    ensures RequireCheckFields(c, [a]) == FieldPresent(c, a)
  {
    assert [a][1..] == [];
  }

  lemma RequireTwo(c: Check, a: string, b: string)
    ensures RequireCheckFields(c, [a, b]) == (FieldPresent(c, a) && FieldPresent(c, b))
  {
    assert [a, b][1..] == [b];
    RequireOne(c, b);
  }

  lemma RequireThree(c: Check, a: string, b: string, d: string)
    ensures RequireCheckFields(c, [a, b, d]) == (FieldPresent(c, a) && FieldPresent(c, b) && FieldPresent(c, d))
  {
    assert [a, b, d][1..] == [b, d];
    RequireTwo(c, b, d);
  }

  /** zip-exists: the path ends in ".zip" and the item found there is an archive. */
  lemma ZipExistsMeans(roots: seq<Node>, bin: seq<BinEntry>, c: Check)
    requires c.kind == "zip-exists"
    ensures EvaluateCheck(roots, bin, c) <==>
      c.path != "" && EndsWith(c.path, ".zip") &&
      GetFileByPath(roots, c.path).Some? && GetFileByPath(roots, c.path).value.isZip
  {
    ZipExistsCase(roots, bin, c);
    PathFieldOnly(c);
  }

  /** A check that requires only a path has its fields when the path is named. */
  lemma PathFieldOnly(c: Check)
    ensures RequireCheckFields(c, ["path"]) == (c.path != "")
  {
    RequireOne(c, "path");
  }

  /** The zip-exists case of evaluateCheck. */
  lemma ZipExistsCase(roots: seq<Node>, bin: seq<BinEntry>, c: Check)
    requires c.kind == "zip-exists"
    ensures EvaluateCheck(roots, bin, c) == ZipExistsPasses(roots, c)
  {
  }

  /** zip-contains: the archive found at the zip path lists the entries as the mode asks. */
  lemma ZipContainsMeans(roots: seq<Node>, bin: seq<BinEntry>, c: Check)
    requires c.kind == "zip-contains" && c.entries.Items?
    ensures EvaluateCheck(roots, bin, c) <==>
      c.zipPath != "" &&
      var item := GetFileByPath(roots, c.zipPath);
      item.Some? && EndsWith(item.value.name, ".zip") && item.value.zipEntries.Some? &&
      ZipListsEntries(item.value.zipEntries.value, c.entries.items, c.mode)
  {
    ZipContainsCase(roots, bin, c);
    ZipContainsFields(c);
  }

  /** The fields zip-contains requires are present when the zip path is named and the entry list is given. */
  lemma ZipContainsFields(c: Check)
    ensures RequireCheckFields(c, ["zipPath", "entries"]) == (c.zipPath != "" && !c.entries.Missing?)
  {
    RequireTwo(c, "zipPath", "entries");
  }

  /** The zip-contains case of evaluateCheck. */
  lemma ZipContainsCase(roots: seq<Node>, bin: seq<BinEntry>, c: Check)
    requires c.kind == "zip-contains"
    ensures EvaluateCheck(roots, bin, c) == ZipContainsPasses(roots, c)
  {
  }

  /** zip-extracted-to: the archive and the destination exist and every expected entry is in place. */
  lemma ZipExtractedMeans(roots: seq<Node>, bin: seq<BinEntry>, c: Check)
    requires c.kind == "zip-extracted-to" && c.expectEntries.Items?
    ensures EvaluateCheck(roots, bin, c) <==>
      c.zipPath != "" && c.destinationFolder != "" &&
      FileExists(roots, c.zipPath) && FolderExists(roots, c.destinationFolder) &&
      EntriesInPlace(roots, c.destinationFolder, c.expectEntries.items)
  {
    ZipExtractedCase(roots, bin, c);
    ZipExtractedFields(c);
  }

  /** The fields zip-extracted-to requires are present when both folders are named and the entry list is given. */
  lemma ZipExtractedFields(c: Check)
    ensures RequireCheckFields(c, ["zipPath", "destinationFolder", "expectEntries"]) ==
      (c.zipPath != "" && c.destinationFolder != "" && !c.expectEntries.Missing?)
  {
    RequireThree(c, "zipPath", "destinationFolder", "expectEntries");
  }

  /** The zip-extracted-to case of evaluateCheck. */
  lemma ZipExtractedCase(roots: seq<Node>, bin: seq<BinEntry>, c: Check)
    requires c.kind == "zip-extracted-to"
    ensures EvaluateCheck(roots, bin, c) == ZipExtractedPasses(roots, c)
  {
  }

  /** Every check of a two-check list passes exactly when both do. */
  lemma PairPasses(roots: seq<Node>, bin: seq<BinEntry>, cs: seq<Check>)
    requires |cs| == 2
    ensures (forall c :: c in cs ==> EvaluateCheck(roots, bin, c)) <==>
      EvaluateCheck(roots, bin, cs[0]) && EvaluateCheck(roots, bin, cs[1])
  {
    assert cs == [cs[0], cs[1]];
  }

  /**
    * A synchronised zip-compress task is complete exactly when a zip archive
    * sits at the task's zip path and lists every one of the task's entries.
    */
  lemma SyncedZipCompressPasses(roots: seq<Node>, bin: seq<BinEntry>, task: Task)
    requires task.kind == "zip-compress"
    ensures (forall c :: c in SyncedZipTask(task).checks ==> EvaluateCheck(roots, bin, c)) <==>
      task.zipPath != "" && EndsWith(task.zipPath, ".zip") &&
      var item := GetFileByPath(roots, task.zipPath);
      item.Some? && item.value.isZip && item.value.zipEntries.Some? &&
      forall e :: e in ListOrEmpty(task.entries) ==> e in item.value.zipEntries.value
  {
    var cs := SyncedZipTask(task).checks;
    var item := GetFileByPath(roots, task.zipPath);
    var wanted := ListOrEmpty(task.entries);
    PairPasses(roots, bin, cs);
    assert EvaluateCheck(roots, bin, cs[0]) <==>
      task.zipPath != "" && EndsWith(task.zipPath, ".zip") && item.Some? && item.value.isZip by {
      ZipExistsMeans(roots, bin, cs[0]);
    }
    assert EvaluateCheck(roots, bin, cs[1]) <==>
      task.zipPath != "" && item.Some? && EndsWith(item.value.name, ".zip") && item.value.zipEntries.Some? &&
      forall e :: e in wanted ==> e in item.value.zipEntries.value by {
      ZipContainsMeans(roots, bin, cs[1]);
      assert cs[1].entries == Items(wanted) && cs[1].mode == "all";
    }
    if EndsWith(task.zipPath, ".zip") && item.Some? {
      ZipNameOfZipPath(task.zipPath);
    }
  }

  /**
    * A synchronised zip-extract task is complete exactly when the archive
    * exists, the destination folder exists and every entry of the task is in
    * place, as a file or a folder, directly in that folder.
    */
  lemma SyncedZipExtractPasses(roots: seq<Node>, bin: seq<BinEntry>, task: Task)
    requires task.kind == "zip-extract"
    ensures (forall c :: c in SyncedZipTask(task).checks ==> EvaluateCheck(roots, bin, c)) <==>
      task.zipPath != "" && task.destinationFolder != "" &&
      FileExists(roots, task.zipPath) && FolderExists(roots, task.destinationFolder) &&
      forall n :: n in ListOrEmpty(task.entries) ==>
        var p := JoinPathMultiRoot(task.destinationFolder, n);
        FileExists(roots, p) || FolderExists(roots, p)
  {
    var cs := SyncedZipTask(task).checks;
    var entries := ListOrEmpty(task.entries);
    assert forall c :: c in cs ==> c == cs[0];
    assert cs[0].expectEntries == Items(NamedEntries(entries));
    ZipExtractedMeans(roots, bin, cs[0]);
    NamedEntriesInPlace(roots, task.destinationFolder, entries);
  }

  /** Bare entry names are in place when each names a file or a folder directly in the destination. */
  lemma NamedEntriesInPlace(roots: seq<Node>, dest: string, entries: seq<string>)
    ensures EntriesInPlace(roots, dest, NamedEntries(entries)) <==>
      forall n :: n in entries ==>
        var p := JoinPathMultiRoot(dest, n);
        FileExists(roots, p) || FolderExists(roots, p)
  {
    var named := NamedEntries(entries);
    forall n | n in entries ensures NamedEntry(n) in named {
      var i :| 0 <= i < |entries| && entries[i] == n;
      assert named[i] == NamedEntry(n);
    }
    forall e | e in named ensures exists n :: n in entries && e == NamedEntry(n) {
      var i :| 0 <= i < |named| && named[i] == e;
      assert entries[i] in entries;
    }
  }

  /** A task open in the editor, whose checks follow its zip fields. */
  class EditedTask {
    var task: Task

    constructor(task: Task)
      ensures this.task == task
    {
      this.task := task;
    }

    /** syncZipTaskChecks: rewrite the checks of a zip task from its fields; other tasks are left alone. */
    method SyncZipTaskChecks()
      modifies this
      ensures task == SyncedZipTask(old(task))
    {
      if task.kind == "zip-extract" {
        var entries := ListOrEmpty(task.entries);
        task := task.(checks := [NoCheckFields.(kind := "zip-extracted-to", zipPath := task.zipPath,
                                                destinationFolder := task.destinationFolder,
                                                expectEntries := Items(NamedEntries(entries)))]);
        return;
      }
      if task.kind == "zip-compress" {
        var entries := ListOrEmpty(task.entries);
        task := task.(checks := [PathCheck("zip-exists", task.zipPath),
                                 NoCheckFields.(kind := "zip-contains", zipPath := task.zipPath,
                                                entries := Items(entries), mode := "all")]);
      }
    }
  }
}
