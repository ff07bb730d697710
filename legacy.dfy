/**
  * The teacher's export converter: tasks in the legacy shape (a type such as
  * "file-moved" plus declarative checks) are turned into Task DSL tasks, one
  * outcome per input, before the exported list is validated.
  */
module Legacy {
  import opened Wrappers
  import opened Text
  import opened Paths
  import opened Seqs
  import opened Tasks
  import opened Evaluator
  import opened TaskDsl
  import opened Synth

  /** convertLegacyTaskToDsl's result: `{task}` or `{error}`. */
  datatype Conversion = Converted(task: Task) | Failed(error: string)

  /**
    * makeLegacySubjectId: "legacy:", the kind, ":", then the normalized path
    * ("unknown" standing in for a missing one).
    */
  function MakeLegacySubjectId(kind: string, path: string): (id: string)
    ensures StartsWith(id, "legacy:") && !IsBlank(id)
  {
    var id := "legacy:" + kind + ":" + NormalizePath(if path == "" then "unknown" else path);
    assert id[..7] == "legacy:";
    VisibleFirstNotBlank(id);
    id
  }

  /**
    * For one kind, two non-empty paths give the same subject id exactly when
    * they normalize to the same path, so differently spelled paths of one
    * item (forward slashes, trailing backslashes) share an id.
    */
  lemma SubjectIdIdentifiesPath(kind: string, p: string, q: string)
    requires p != "" && q != ""
    ensures MakeLegacySubjectId(kind, p) == MakeLegacySubjectId(kind, q) <==> NormalizePath(p) == NormalizePath(q)
  {
    var prefix := "legacy:" + kind + ":";
    if MakeLegacySubjectId(kind, p) == MakeLegacySubjectId(kind, q) {
      assert NormalizePath(p) == MakeLegacySubjectId(kind, p)[|prefix|..];
      assert NormalizePath(q) == MakeLegacySubjectId(kind, q)[|prefix|..];
    }
  }

  /** getFirstCheck: the first check of the given type, if any. */
  function GetFirstCheck(checks: seq<Check>, kind: string): (r: Option<Check>)
    ensures r.Some? ==> r.value in checks && r.value.kind == kind
    ensures r.Some? ==>
      exists i :: 0 <= i < |checks| && checks[i] == r.value &&
        forall j :: 0 <= j < i ==> checks[j].kind != kind
    ensures r.None? <==> forall c :: c in checks ==> c.kind != kind
  {
    Find(checks, (c: Check) => c.kind == kind)
  }

  /** The first check of type `a`, else the first of type `b`. */
  function FirstOfEither(checks: seq<Check>, a: string, b: string): (r: Option<Check>)
    ensures r.Some? ==> r.value in checks && (r.value.kind == a || r.value.kind == b)
    ensures r.None? <==> forall c :: c in checks ==> c.kind != a && c.kind != b
    ensures GetFirstCheck(checks, a).Some? ==> r == GetFirstCheck(checks, a)
    ensures r.Some? ==>
      exists i :: 0 <= i < |checks| && checks[i] == r.value &&
        ((r.value.kind == a && forall j :: 0 <= j < i ==> checks[j].kind != a) ||
         (r.value.kind == b && (forall c :: c in checks ==> c.kind != a) &&
          forall j :: 0 <= j < i ==> checks[j].kind != b))
  {
    match GetFirstCheck(checks, a)
    case Some(c) => Some(c)
    case None => GetFirstCheck(checks, b)
  }

  /** `found || checks[0]`. */
  function OrFirst(found: Option<Check>, checks: seq<Check>): (r: Option<Check>)
    ensures r.Some? ==> r.value in checks || found.Some?
    ensures r.None? <==> found.None? && checks == []
  {
    if found.Some? then found else if checks == [] then None else Some(checks[0])
  }

  /** The legacy types the converter has a case for. */
  datatype LegacyKind = Moved | Renamed | Deleted | PermanentlyDeleted | Created | Restored | Copied | ZipCompress | ZipExtracted

  function ParseLegacyKind(kind: string): Option<LegacyKind>
  {
    if kind == "file-moved" || kind == "folder-moved" then Some(Moved)
    else if kind == "file-renamed" then Some(Renamed)
    else if kind == "file-deleted" || kind == "folder-deleted" then Some(Deleted)
    else if kind == "file-permanently-deleted" || kind == "folder-permanently-deleted" then Some(PermanentlyDeleted)
    else if kind == "file-created" || kind == "folder-created" then Some(Created)
    else if kind == "file-restored" || kind == "folder-restored" then Some(Restored)
    else if kind == "file-copied" || kind == "folder-copied" then Some(Copied)
    else if kind == "zip-compress" then Some(ZipCompress)
    else if kind == "zip-extract" then Some(ZipExtracted)
    else None
  }

  /** `Missing <what> for "<type>"`. */
  function MissingMessage(what: string, kind: string): string
  {
    "Missing " + what + " for \"" + kind + "\""
  }

  /** `Task type "<type>" is unsupported`, "unknown" standing in for a missing type. */
  function UnsupportedMessage(kind: string): string
  {
    "Task type \"" + (if kind == "" then "unknown" else kind) + "\" is unsupported"
  }

  /** A converted task of DSL type `t`: not strict, keeping the source's description and checks. */
  function DslTask(t: DslType, source: Task): (r: Task)
    ensures r.kind == TypeName(t) && r.strict == Some(false)
    ensures r.description == source.description && r.checks == source.checks
    ensures BlankExcept(r, {})
  {
    LegacyTask(TypeName(t), source.description, source.checks).(strict := Some(false))
  }

  /**
    * No DSL field outside `keep` is set, and none of the legacy-only fields
    * is: the converter builds a fresh object holding only its case's fields.
    */
  predicate BlankExcept(t: Task, keep: set<string>)
  {
    ("subjectId" !in keep ==> t.subjectId == "") && ("fromPath" !in keep ==> t.fromPath == "") &&
    ("toPath" !in keep ==> t.toPath == "") && ("fromName" !in keep ==> t.fromName == "") &&
    ("toName" !in keep ==> t.toName == "") && ("inputIds" !in keep ==> t.inputIds.None?) &&
    ("outputName" !in keep ==> t.outputName == "") && ("outputPath" !in keep ==> t.outputPath == "") &&
    ("archiveId" !in keep ==> t.archiveId == "") && ("destPath" !in keep ==> t.destPath == "") &&
    t.zipPath == "" && t.destinationFolder == "" && t.entries == Missing
  }

  /** A converted task keeps its source's description and checks and is not strict. */
  predicate KeepsSource(r: Conversion, task: Task, t: DslType)
  {
    r.Converted? ==>
      r.task.kind == TypeName(t) && r.task.strict == Some(false) &&
      r.task.description == task.description && r.task.checks == task.checks
  }

  /** The subject id is made from the task's type and the non-empty path or from of one of its checks. */
  predicate SubjectFromChecks(r: Conversion, task: Task)
  {
    r.Converted? ==>
      exists c :: c in task.checks &&
        ((c.path != "" && r.task.subjectId == MakeLegacySubjectId(task.kind, c.path)) ||
         (c.from != "" && r.task.subjectId == MakeLegacySubjectId(task.kind, c.from)))
  }

  /**
    * The check a supported legacy type reads its data from: the first check
    * of the types it looks for, falling back to the task's first check for
    * the delete, permanent-delete and create cases.
    */
  function SelectedCheck(k: LegacyKind, checks: seq<Check>): Option<Check>
  {
    var found := FirstOfEither(checks, LookedUp(k).0, LookedUp(k).1);
    if k.Deleted? || k.PermanentlyDeleted? || k.Created? then OrFirst(found, checks) else found
  }

  /** Whether the selected check carries the data its case needs. */
  predicate HasData(k: LegacyKind, c: Check)
  {
    if UsesFromTo(k) then c.from != "" && c.to != ""
    else if k.ZipExtracted? then c.zipPath != "" && c.destinationFolder != ""
    else c.path != ""
  }

  /** What a case reports as missing when it fails. */
  function MissingWhat(k: LegacyKind): string
  {
    match k
    case Moved => "move check data"
    case Renamed => "rename check data"
    case Deleted => "delete path"
    case PermanentlyDeleted => "permanent delete path"
    case Created => "create path"
    case Restored => "restore path"
    case Copied => "copy check data"
    case ZipCompress => "zip output path"
    case ZipExtracted => "zip extract data"
  }

  /** A case converts exactly when its selected check exists and has the data, and otherwise names what is missing. */
  predicate Decided(k: LegacyKind, task: Task, r: Conversion)
  {
    var c := SelectedCheck(k, task.checks);
    (r.Converted? <==> c.Some? && HasData(k, c.value)) &&
    (r.Failed? ==> r.error == MissingMessage(MissingWhat(k), task.kind))
  }

  /** The entries of the first zip-contains check (none without one, or when they are not a list). */
  function ContainedEntries(checks: seq<Check>): seq<string>
  {
    var contains := GetFirstCheck(checks, "zip-contains");
    if contains.Some? then ListOrEmpty(contains.value.entries) else []
  }

  /** The fields a converted task takes from its selected check. */
  predicate ConvertedFrom(k: LegacyKind, task: Task, r: Conversion)
  {
    r.Converted? ==>
      SelectedCheck(k, task.checks).Some? &&
      var c := SelectedCheck(k, task.checks).value;
      match k
      case Moved =>
        r.task.subjectId == MakeLegacySubjectId(task.kind, c.from) && r.task.fromPath == c.from && r.task.toPath == c.to &&
        BlankExcept(r.task, {"subjectId", "fromPath", "toPath"})
      case Copied =>
        r.task.subjectId == MakeLegacySubjectId(task.kind, c.from) && r.task.fromPath == c.from && r.task.toPath == c.to &&
        BlankExcept(r.task, {"subjectId", "fromPath", "toPath"})
      case Renamed =>
        r.task.subjectId == MakeLegacySubjectId(task.kind, c.from) &&
        r.task.fromName == NameFromPath(c.from) && r.task.toName == NameFromPath(c.to) &&
        BlankExcept(r.task, {"subjectId", "fromName", "toName"})
      case Deleted =>
        r.task.subjectId == MakeLegacySubjectId(task.kind, c.path) && r.task.fromPath == c.path &&
        BlankExcept(r.task, {"subjectId", "fromPath"})
      case PermanentlyDeleted =>
        r.task.subjectId == MakeLegacySubjectId(task.kind, c.path) && r.task.fromPath == c.path &&
        BlankExcept(r.task, {"subjectId", "fromPath"})
      case Created =>
        r.task.subjectId == MakeLegacySubjectId(task.kind, c.path) && r.task.toPath == c.path &&
        BlankExcept(r.task, {"subjectId", "toPath"})
      case Restored =>
        r.task.subjectId == MakeLegacySubjectId(task.kind, c.path) && r.task.toPath == c.path &&
        BlankExcept(r.task, {"subjectId", "toPath"})
      case ZipCompress =>
        r.task.outputPath == c.path && r.task.outputName == NameFromPath(c.path) &&
        r.task.inputIds == Some(EntryIds(ContainedEntries(task.checks))) &&
        BlankExcept(r.task, {"inputIds", "outputName", "outputPath"})
      case ZipExtracted =>
        r.task.archiveId == MakeLegacySubjectId("archive", c.zipPath) && r.task.destPath == c.destinationFolder &&
        BlankExcept(r.task, {"archiveId", "destPath"})
  }

  /** file-moved, folder-moved: the first move check must have a from and a to. */
  function ConvertMove(task: Task): (r: Conversion)
    ensures KeepsSource(r, task, Move) && SubjectFromChecks(r, task)
    ensures Decided(Moved, task, r) && ConvertedFrom(Moved, task, r)
  {
    var c := FirstOfEither(task.checks, "file-moved", "folder-moved");
    assert SelectedCheck(Moved, task.checks) == c;
    if c.None? || c.value.from == "" || c.value.to == "" then Failed(MissingMessage("move check data", task.kind))
    else Converted(DslTask(Move, task).(subjectId := MakeLegacySubjectId(task.kind, c.value.from),
                                       fromPath := c.value.from, toPath := c.value.to))
  }

  /** file-renamed: the rename check must have a from and a to; the names are their last segments. */
  function ConvertRename(task: Task): (r: Conversion)
    ensures KeepsSource(r, task, Rename) && SubjectFromChecks(r, task)
    ensures Decided(Renamed, task, r) && ConvertedFrom(Renamed, task, r)
  {
    var c := GetFirstCheck(task.checks, "file-renamed");
    assert SelectedCheck(Renamed, task.checks) == c;
    if c.None? || c.value.from == "" || c.value.to == "" then Failed(MissingMessage("rename check data", task.kind))
    else Converted(DslTask(Rename, task).(subjectId := MakeLegacySubjectId(task.kind, c.value.from),
                                         fromName := NameFromPath(c.value.from), toName := NameFromPath(c.value.to)))
  }

  /** file-deleted, folder-deleted: the not-exists check, else the first check, must have a path. */
  function ConvertDelete(task: Task): (r: Conversion)
    ensures KeepsSource(r, task, Delete) && SubjectFromChecks(r, task)
    ensures Decided(Deleted, task, r) && ConvertedFrom(Deleted, task, r)
  {
    var c := OrFirst(FirstOfEither(task.checks, "file-not-exists", "folder-not-exists"), task.checks);
    assert SelectedCheck(Deleted, task.checks) == c;
    if c.None? || c.value.path == "" then Failed(MissingMessage("delete path", task.kind))
    else Converted(DslTask(Delete, task).(subjectId := MakeLegacySubjectId(task.kind, c.value.path),
                                         fromPath := c.value.path))
  }

  /** file- and folder-permanently-deleted: the matching check, else the first check, must have a path. */
  function ConvertPermanentDelete(task: Task): (r: Conversion)
    ensures KeepsSource(r, task, PermanentlyDelete) && SubjectFromChecks(r, task)
    ensures Decided(PermanentlyDeleted, task, r) && ConvertedFrom(PermanentlyDeleted, task, r)
  {
    var c := OrFirst(FirstOfEither(task.checks, "file-permanently-deleted", "folder-permanently-deleted"), task.checks);
    assert SelectedCheck(PermanentlyDeleted, task.checks) == c;
    if c.None? || c.value.path == "" then Failed(MissingMessage("permanent delete path", task.kind))
    else Converted(DslTask(PermanentlyDelete, task).(subjectId := MakeLegacySubjectId(task.kind, c.value.path),
                                                    fromPath := c.value.path))
  }

  /** file-created, folder-created: the exists check, else the first check, must have a path. */
  function ConvertCreate(task: Task): (r: Conversion)
    ensures KeepsSource(r, task, Create) && SubjectFromChecks(r, task)
    ensures Decided(Created, task, r) && ConvertedFrom(Created, task, r)
  {
    var c := OrFirst(FirstOfEither(task.checks, "file-exists", "folder-exists"), task.checks);
    assert SelectedCheck(Created, task.checks) == c;
    if c.None? || c.value.path == "" then Failed(MissingMessage("create path", task.kind))
    else Converted(DslTask(Create, task).(subjectId := MakeLegacySubjectId(task.kind, c.value.path),
                                         toPath := c.value.path))
  }

  /** file-restored, folder-restored: the restore check must have a path (no fallback). */
  function ConvertRestore(task: Task): (r: Conversion)
    ensures KeepsSource(r, task, Restore) && SubjectFromChecks(r, task)
    ensures Decided(Restored, task, r) && ConvertedFrom(Restored, task, r)
  {
    var c := FirstOfEither(task.checks, "file-restored", "folder-restored");
    assert SelectedCheck(Restored, task.checks) == c;
    if c.None? || c.value.path == "" then Failed(MissingMessage("restore path", task.kind))
    else Converted(DslTask(Restore, task).(subjectId := MakeLegacySubjectId(task.kind, c.value.path),
                                          toPath := c.value.path))
  }

  /** file-copied, folder-copied: the copy check must have a from and a to (no fallback). */
  function ConvertCopy(task: Task): (r: Conversion)
    ensures KeepsSource(r, task, Copy) && SubjectFromChecks(r, task)
    ensures Decided(Copied, task, r) && ConvertedFrom(Copied, task, r)
  {
    var c := FirstOfEither(task.checks, "file-copied", "folder-copied");
    assert SelectedCheck(Copied, task.checks) == c;
    if c.None? || c.value.from == "" || c.value.to == "" then Failed(MissingMessage("copy check data", task.kind))
    else Converted(DslTask(Copy, task).(subjectId := MakeLegacySubjectId(task.kind, c.value.from),
                                       fromPath := c.value.from, toPath := c.value.to))
  }

  /**
    * zip-compress: the zip-exists check must have a path, which becomes the
    * output path and gives the output name; the inputs are the entries of
    * the zip-contains check (none without one).
    */
  function ConvertZipCompress(task: Task): (r: Conversion)
    ensures KeepsSource(r, task, ZipCreate)
    ensures Decided(ZipCompress, task, r) && ConvertedFrom(ZipCompress, task, r)
    ensures r.Converted? ==> r.task.inputIds.Some?
    ensures r.Converted? ==>
      exists c :: c in task.checks && c.path != "" && r.task.outputPath == c.path && r.task.outputName == NameFromPath(c.path)
  {
    var exists_ := GetFirstCheck(task.checks, "zip-exists");
    assert SelectedCheck(ZipCompress, task.checks) == exists_;
    if exists_.None? || exists_.value.path == "" then Failed(MissingMessage("zip output path", task.kind))
    else
      Converted(DslTask(ZipCreate, task).(inputIds := Some(EntryIds(ContainedEntries(task.checks))),
                                          outputName := NameFromPath(exists_.value.path),
                                          outputPath := exists_.value.path))
  }

  /** zip-extract: the zip-extracted-to check must have a zip path and a destination folder. */
  function ConvertZipExtract(task: Task): (r: Conversion)
    ensures KeepsSource(r, task, ZipExtract)
    ensures Decided(ZipExtracted, task, r) && ConvertedFrom(ZipExtracted, task, r)
    ensures r.Converted? ==>
      exists c :: c in task.checks && c.zipPath != "" && c.destinationFolder != "" &&
        r.task.archiveId == MakeLegacySubjectId("archive", c.zipPath) && r.task.destPath == c.destinationFolder
  {
    var c := GetFirstCheck(task.checks, "zip-extracted-to");
    assert SelectedCheck(ZipExtracted, task.checks) == c;
    if c.None? || c.value.zipPath == "" || c.value.destinationFolder == "" then
      Failed(MissingMessage("zip extract data", task.kind))
    else Converted(DslTask(ZipExtract, task).(archiveId := MakeLegacySubjectId("archive", c.value.zipPath),
                                             destPath := c.value.destinationFolder))
  }

  /**
    * convertLegacyTaskToDsl: every supported legacy type is converted by its
    * case and any other type is unsupported. A converted task has a DSL type,
    * is not strict and keeps the description and checks.
    */
  function ConvertLegacyTaskToDsl(task: Task): (r: Conversion)
    ensures r.Converted? ==>
      ParseLegacyKind(task.kind).Some? && ParseType(r.task.kind).Some? && r.task.strict == Some(false) &&
      r.task.description == task.description && r.task.checks == task.checks
    ensures ParseLegacyKind(task.kind).None? ==> r == Failed(UnsupportedMessage(task.kind))
    ensures ParseLegacyKind(task.kind).Some? ==>
      var k := ParseLegacyKind(task.kind).value;
      (r.Converted? ==> ParseType(r.task.kind) == Some(DslTypeOf(k))) && Decided(k, task, r) && ConvertedFrom(k, task, r)
  {
    match ParseLegacyKind(task.kind)
    case None => Failed(UnsupportedMessage(task.kind))
    case Some(k) => ConvertKind(k, task)
  }

  /** The DSL type each legacy type becomes. */
  function DslTypeOf(k: LegacyKind): DslType
  {
    match k
    case Moved => Move
    case Renamed => Rename
    case Deleted => Delete
    case PermanentlyDeleted => PermanentlyDelete
    case Created => Create
    case Restored => Restore
    case Copied => Copy
    case ZipCompress => ZipCreate
    case ZipExtracted => ZipExtract
  }

  /**
    * The conversion case for a supported legacy type. The task it converts
    * to has the matching DSL type and takes its subject (for zip-extract,
    * its archive; for zip-compress, its output) from one of its checks.
    */
  function ConvertKind(k: LegacyKind, task: Task): (r: Conversion)
    ensures KeepsSource(r, task, DslTypeOf(k))
    ensures r.Converted? ==> ParseType(r.task.kind) == Some(DslTypeOf(k))
    ensures !k.ZipCompress? && !k.ZipExtracted? ==> SubjectFromChecks(r, task)
    ensures k.ZipExtracted? && r.Converted? ==>
      exists c :: c in task.checks && c.zipPath != "" && c.destinationFolder != "" &&
        r.task.archiveId == MakeLegacySubjectId("archive", c.zipPath) && r.task.destPath == c.destinationFolder
    ensures k.ZipCompress? && r.Converted? ==> r.task.inputIds.Some?
    ensures k.ZipCompress? && r.Converted? ==>
      exists c :: c in task.checks && c.path != "" && r.task.outputPath == c.path && r.task.outputName == NameFromPath(c.path)
    ensures Decided(k, task, r) && ConvertedFrom(k, task, r)
  {
    ParseTypeName(DslTypeOf(k));
    match k
    case Moved => ConvertMove(task)
    case Renamed => ConvertRename(task)
    case Deleted => ConvertDelete(task)
    case PermanentlyDeleted => ConvertPermanentDelete(task)
    case Created => ConvertCreate(task)
    case Restored => ConvertRestore(task)
    case Copied => ConvertCopy(task)
    case ZipCompress => ConvertZipCompress(task)
    case ZipExtracted => ConvertZipExtract(task)
  }

  /** The subject ids of a zip's entries. */
  function EntryIds(entries: seq<string>): (r: seq<string>)
    ensures |r| == |entries|
    ensures forall i :: 0 <= i < |entries| ==> r[i] == MakeLegacySubjectId("entry", entries[i])
  {
    if entries == [] then [] else [MakeLegacySubjectId("entry", entries[0])] + EntryIds(entries[1..])
  }

  /** What toDslTasks does with one task: a task of a DSL type is kept as it is, any other is converted. */
  function Outcome(task: Task): (r: Conversion)
    ensures ParseType(task.kind).Some? ==> r == Converted(task)
    ensures r.Converted? ==> ParseType(r.task.kind).Some?
  {
    if ParseType(task.kind).Some? then Converted(task) else ConvertLegacyTaskToDsl(task)
  }

  /** toDslTasks' result. */
  datatype DslConversion = DslConversion(dslTasks: seq<Task>, conversionErrors: seq<string>)

  /** A conversion error as reported: `tasks[<index>]: <error>`. */
  function ErrorLine(index: nat, error: string): string
  {
    At(index) + ": " + error
  }

  /** The outcomes `outcome` gives a list of tasks whose first has index `start`: the DSL tasks in order, and the errors in order. */
  function ToDslFrom(tasks: seq<Task>, start: nat, outcome: Task -> Conversion): (r: DslConversion)
    ensures |r.dslTasks| + |r.conversionErrors| == |tasks|
  {
    if tasks == [] then DslConversion([], [])
    else
      var rest := ToDslFrom(tasks[1..], start + 1, outcome);
      match outcome(tasks[0])
      case Converted(t) => DslConversion([t] + rest.dslTasks, rest.conversionErrors)
      case Failed(e) => DslConversion(rest.dslTasks, [ErrorLine(start, e)] + rest.conversionErrors)
  }

  /** toDslTasks: every input yields exactly one DSL task or one indexed error. */
  function ToDslTasks(tasks: seq<Task>): (r: DslConversion)
    ensures |r.dslTasks| + |r.conversionErrors| == |tasks|
  {
    ToDslFrom(tasks, 0, Outcome)
  }

  /** There are no errors exactly when every task has a converted outcome, and then the DSL tasks are the outcomes in place. */
  lemma {:induction false} ToDslFromAllConverted(tasks: seq<Task>, start: nat, outcome: Task -> Conversion)
    ensures var r := ToDslFrom(tasks, start, outcome);
      (r.conversionErrors == [] <==> forall i :: 0 <= i < |tasks| ==> outcome(tasks[i]).Converted?) &&
      (r.conversionErrors == [] ==>
        |r.dslTasks| == |tasks| && forall i :: 0 <= i < |tasks| ==> r.dslTasks[i] == outcome(tasks[i]).task)
  {
    if tasks != [] {
      var tail := tasks[1..];
      ToDslFromAllConverted(tail, start + 1, outcome);
      assert forall i :: 1 <= i < |tasks| ==> tasks[i] == tail[i - 1];
    }
  }

  /** Every error names the index of a task that failed and carries its message. */
  lemma {:induction false} ToDslFromErrors(tasks: seq<Task>, start: nat, outcome: Task -> Conversion)
    ensures forall e :: e in ToDslFrom(tasks, start, outcome).conversionErrors ==>
      exists i :: 0 <= i < |tasks| && outcome(tasks[i]).Failed? && e == ErrorLine(start + i, outcome(tasks[i]).error)
  {
    if tasks != [] {
      var tail := tasks[1..];
      var rest := ToDslFrom(tail, start + 1, outcome);
      ToDslFromErrors(tail, start + 1, outcome);
      forall e | e in ToDslFrom(tasks, start, outcome).conversionErrors
        ensures exists i :: 0 <= i < |tasks| && outcome(tasks[i]).Failed? && e == ErrorLine(start + i, outcome(tasks[i]).error)
      {
        if e in rest.conversionErrors {
          var j :| 0 <= j < |tail| && outcome(tail[j]).Failed? && e == ErrorLine(start + 1 + j, outcome(tail[j]).error);
          assert tasks[j + 1] == tail[j];
          assert start + 1 + j == start + (j + 1);
        } else {
          assert tasks[0] == tasks[0] && start == start + 0;
        }
      }
    }
  }

  /** The DSL tasks are exactly the converted outcomes. */
  lemma {:induction false} ToDslFromTasks(tasks: seq<Task>, start: nat, outcome: Task -> Conversion)
    ensures forall i :: 0 <= i < |tasks| && outcome(tasks[i]).Converted? ==>
      outcome(tasks[i]).task in ToDslFrom(tasks, start, outcome).dslTasks
    ensures forall t :: t in ToDslFrom(tasks, start, outcome).dslTasks ==>
      exists i :: 0 <= i < |tasks| && outcome(tasks[i]) == Converted(t)
  {
    if tasks != [] {
      var tail := tasks[1..];
      var rest := ToDslFrom(tail, start + 1, outcome);
      ToDslFromTasks(tail, start + 1, outcome);
      assert forall i :: 1 <= i < |tasks| ==> tasks[i] == tail[i - 1];
      forall t | t in ToDslFrom(tasks, start, outcome).dslTasks
        ensures exists i :: 0 <= i < |tasks| && outcome(tasks[i]) == Converted(t)
      {
        if t in rest.dslTasks {
          var j :| 0 <= j < |tail| && outcome(tail[j]) == Converted(t);
          assert tasks[j + 1] == tail[j];
        }
      }
    }
  }

  /**
    * toDslTasks reports no error exactly when every task is of a DSL type or
    * converts, and then yields each task's outcome in place; every error is
    * `tasks[i]: ` and the conversion message of a task i that failed; a task
    * already of a DSL type is passed through unchanged, and every task
    * yielded has a DSL type.
    */
  lemma ToDslTasksOutcomes(tasks: seq<Task>)
    ensures var r := ToDslTasks(tasks);
      (r.conversionErrors == [] <==> forall i :: 0 <= i < |tasks| ==> Outcome(tasks[i]).Converted?) &&
      (r.conversionErrors == [] ==>
        |r.dslTasks| == |tasks| && forall i :: 0 <= i < |tasks| ==> r.dslTasks[i] == Outcome(tasks[i]).task)
    ensures var r := ToDslTasks(tasks);
      forall e :: e in r.conversionErrors ==>
        exists i :: 0 <= i < |tasks| && Outcome(tasks[i]).Failed? && e == ErrorLine(i, Outcome(tasks[i]).error)
    ensures var r := ToDslTasks(tasks);
      (forall i :: 0 <= i < |tasks| && ParseType(tasks[i].kind).Some? ==> tasks[i] in r.dslTasks) &&
      (forall t :: t in r.dslTasks ==> ParseType(t.kind).Some?)
  {
    ToDslFromAllConverted(tasks, 0, Outcome);
    ToDslFromErrors(tasks, 0, Outcome);
    ToDslFromTasks(tasks, 0, Outcome);
    var r := ToDslTasks(tasks);
    forall t | t in r.dslTasks ensures ParseType(t.kind).Some? {
      var i :| 0 <= i < |tasks| && Outcome(tasks[i]) == Converted(t);
    }
  }

  /**
    * A task made from a diff record converts exactly when the record's from
    * and to (for a move, rename or copy) or its path (for the others) are
    * non-empty, and its subject id is then made from the record's from or
    * path.
    */
  lemma GeneratedTaskConverts(d: DiffRecord, describe: Task -> string)
    requires d.kind in DiffKinds
    ensures var t := CreateTaskFromDiff(d, describe).value;
      var pair := ShapeOf(d.kind).value.pair;
      (Outcome(t).Converted? <==> if pair then d.from != "" && d.to != "" else d.path != "") &&
      (Outcome(t).Converted? ==>
        Outcome(t).task.subjectId == MakeLegacySubjectId(t.kind, if pair then d.from else d.path))
  {
    var shape := ShapeOf(d.kind).value;
    var t := CreateTaskFromDiff(d, describe).value;
    var c := t.checks[0];
    assert t.checks == [c];
    ShapeIsLegacy(d.kind);
    var k := ParseLegacyKind(shape.taskType).value;
    LegacyOutcome(t, shape.taskType, k);
    SingleCheckConverts(t, c, k);
  }

  /** The check types a supported path-based legacy type looks for. */
  function LookedUp(k: LegacyKind): (string, string)
  {
    match k
    case Moved => ("file-moved", "folder-moved")
    case Renamed => ("file-renamed", "file-renamed")
    case Deleted => ("file-not-exists", "folder-not-exists")
    case PermanentlyDeleted => ("file-permanently-deleted", "folder-permanently-deleted")
    case Created => ("file-exists", "folder-exists")
    case Restored => ("file-restored", "folder-restored")
    case Copied => ("file-copied", "folder-copied")
    case ZipCompress => ("zip-exists", "zip-exists")
    case ZipExtracted => ("zip-extracted-to", "zip-extracted-to")
  }

  /** Whether a legacy type takes its data from a check's from and to (else from its path). */
  predicate UsesFromTo(k: LegacyKind)
  {
    k.Moved? || k.Renamed? || k.Copied?
  }

  /** Every task type createTaskFromDiff produces is a supported path-based legacy type, looking for the check type it is given. */
  lemma ShapeIsLegacy(kind: string)
    requires kind in DiffKinds
    ensures var s := ShapeOf(kind).value;
      ParseType(s.taskType).None? && ParseLegacyKind(s.taskType).Some? &&
      var k := ParseLegacyKind(s.taskType).value;
      !k.ZipCompress? && !k.ZipExtracted? && UsesFromTo(k) == s.pair &&
      (s.checkType == LookedUp(k).0 || s.checkType == LookedUp(k).1)
  {
    if kind == "added-folder" || kind == "removed-file" || kind == "moved-file" || kind == "moved-folder" {
      ShapesAddRemoveMove(kind);
    } else if kind == "renamed-file" || kind == "removed-folder" || kind == "permanently-deleted-file" || kind == "permanently-deleted-folder" {
      ShapesRenameDelete(kind);
    } else if kind == "added-file" || kind == "copied-file" || kind == "copied-folder" {
      ShapesCreateCopy(kind);
    } else {
      ShapesRestore(kind);
    }
  }

  /** The task shapes of added-folder, removed-file, moved-file, moved-folder. */
  lemma ShapesAddRemoveMove(kind: string)
    requires kind in {"added-folder", "removed-file", "moved-file", "moved-folder"}
    ensures var s := ShapeOf(kind).value;
      ParseType(s.taskType).None? && ParseLegacyKind(s.taskType).Some? &&
      var k := ParseLegacyKind(s.taskType).value;
      !k.ZipCompress? && !k.ZipExtracted? && UsesFromTo(k) == s.pair &&
      (s.checkType == LookedUp(k).0 || s.checkType == LookedUp(k).1)
  {
    if kind == "added-folder" {
      LegacyShape(ShapeOf(kind).value, TaskShape("folder-created", "folder-exists", false), Created);
    } else if kind == "removed-file" {
      LegacyShape(ShapeOf(kind).value, TaskShape("file-deleted", "file-not-exists", false), Deleted);
    } else if kind == "moved-file" {
      LegacyShape(ShapeOf(kind).value, TaskShape("file-moved", "file-moved", true), Moved);
    } else {
      LegacyShape(ShapeOf(kind).value, TaskShape("folder-moved", "folder-moved", true), Moved);
    }
  }

  /** The task shapes of renamed-file, removed-folder, permanently-deleted-file, permanently-deleted-folder. */
  lemma ShapesRenameDelete(kind: string)
    requires kind in {"renamed-file", "removed-folder", "permanently-deleted-file", "permanently-deleted-folder"}
    ensures var s := ShapeOf(kind).value;
      ParseType(s.taskType).None? && ParseLegacyKind(s.taskType).Some? &&
      var k := ParseLegacyKind(s.taskType).value;
      !k.ZipCompress? && !k.ZipExtracted? && UsesFromTo(k) == s.pair &&
      (s.checkType == LookedUp(k).0 || s.checkType == LookedUp(k).1)
  {
    if kind == "renamed-file" {
      LegacyShape(ShapeOf(kind).value, TaskShape("file-renamed", "file-renamed", true), Renamed);
    } else if kind == "removed-folder" {
      LegacyShape(ShapeOf(kind).value, TaskShape("folder-deleted", "folder-not-exists", false), Deleted);
    } else if kind == "permanently-deleted-file" {
      LegacyShape(ShapeOf(kind).value, TaskShape("file-permanently-deleted", "file-permanently-deleted", false), PermanentlyDeleted);
    } else {
      LegacyShape(ShapeOf(kind).value, TaskShape("folder-permanently-deleted", "folder-permanently-deleted", false), PermanentlyDeleted);
    }
  }

  /** The task shapes of added-file, copied-file, copied-folder. */
  lemma ShapesCreateCopy(kind: string)
    requires kind in {"added-file", "copied-file", "copied-folder"}
    ensures var s := ShapeOf(kind).value;
      ParseType(s.taskType).None? && ParseLegacyKind(s.taskType).Some? &&
      var k := ParseLegacyKind(s.taskType).value;
      !k.ZipCompress? && !k.ZipExtracted? && UsesFromTo(k) == s.pair &&
      (s.checkType == LookedUp(k).0 || s.checkType == LookedUp(k).1)
  {
    if kind == "added-file" {
      LegacyShape(ShapeOf(kind).value, TaskShape("file-created", "file-exists", false), Created);
    } else if kind == "copied-file" {
      LegacyShape(ShapeOf(kind).value, TaskShape("file-copied", "file-copied", true), Copied);
    } else {
      LegacyShape(ShapeOf(kind).value, TaskShape("folder-copied", "folder-copied", true), Copied);
    }
  }

  /** The task shapes of restored-file, restored-folder. */
  lemma ShapesRestore(kind: string)
    requires kind in {"restored-file", "restored-folder"}
    ensures var s := ShapeOf(kind).value;
      ParseType(s.taskType).None? && ParseLegacyKind(s.taskType).Some? &&
      var k := ParseLegacyKind(s.taskType).value;
      !k.ZipCompress? && !k.ZipExtracted? && UsesFromTo(k) == s.pair &&
      (s.checkType == LookedUp(k).0 || s.checkType == LookedUp(k).1)
  {
    if kind == "restored-file" {
      LegacyShape(ShapeOf(kind).value, TaskShape("file-restored", "file-restored", false), Restored);
    } else {
      LegacyShape(ShapeOf(kind).value, TaskShape("folder-restored", "folder-restored", false), Restored);
    }
  }

  lemma LegacyShape(s: TaskShape, expected: TaskShape, k: LegacyKind)
    requires s == expected
    requires ParseType(expected.taskType).None? && ParseLegacyKind(expected.taskType) == Some(k)
    requires !k.ZipCompress? && !k.ZipExtracted? && UsesFromTo(k) == expected.pair
    requires expected.checkType == LookedUp(k).0 || expected.checkType == LookedUp(k).1
    ensures ParseType(s.taskType).None? && ParseLegacyKind(s.taskType) == Some(k)
    ensures UsesFromTo(k) == s.pair && (s.checkType == LookedUp(k).0 || s.checkType == LookedUp(k).1)
  {
  }

  /** A task whose one check has a type its legacy type looks for converts exactly when that check has the data. */
  lemma SingleCheckConverts(t: Task, c: Check, k: LegacyKind)
    requires t.checks == [c] && !k.ZipCompress? && !k.ZipExtracted?
    requires c.kind == LookedUp(k).0 || c.kind == LookedUp(k).1
    ensures ConvertKind(k, t).Converted? <==> if UsesFromTo(k) then c.from != "" && c.to != "" else c.path != ""
    ensures ConvertKind(k, t).Converted? ==>
      ConvertKind(k, t).task.subjectId == MakeLegacySubjectId(t.kind, if UsesFromTo(k) then c.from else c.path)
  {
    if UsesFromTo(k) {
      SingleCheckFromTo(t, c, k);
    } else {
      SingleCheckPath(t, c, k);
    }
  }

  lemma SingleCheckFromTo(t: Task, c: Check, k: LegacyKind)
    requires t.checks == [c] && (k.Moved? || k.Renamed? || k.Copied?)
    requires c.kind == LookedUp(k).0 || c.kind == LookedUp(k).1
    ensures ConvertKind(k, t).Converted? <==> c.from != "" && c.to != ""
    ensures ConvertKind(k, t).Converted? ==> ConvertKind(k, t).task.subjectId == MakeLegacySubjectId(t.kind, c.from)
  {
    SingleEither(c, LookedUp(k).0, LookedUp(k).1);
  }

  lemma SingleCheckPath(t: Task, c: Check, k: LegacyKind)
    requires t.checks == [c] && (k.Deleted? || k.PermanentlyDeleted? || k.Created? || k.Restored?)
    requires c.kind == LookedUp(k).0 || c.kind == LookedUp(k).1
    ensures ConvertKind(k, t).Converted? <==> c.path != ""
    ensures ConvertKind(k, t).Converted? ==> ConvertKind(k, t).task.subjectId == MakeLegacySubjectId(t.kind, c.path)
  {
    SingleEither(c, LookedUp(k).0, LookedUp(k).1);
  }

  /** A task of a legacy type is converted by that type's case. */
  lemma LegacyOutcome(t: Task, name: string, k: LegacyKind)
    requires t.kind == name && ParseType(name).None? && ParseLegacyKind(name) == Some(k)
    ensures Outcome(t) == ConvertKind(k, t)
  {
  }

  /** In a one-check list, the check is the first of either type it has. */
  lemma SingleEither(c: Check, a: string, b: string)
    requires c.kind == a || c.kind == b
    ensures FirstOfEither([c], a, b) == Some(c) && GetFirstCheck([c], c.kind) == Some(c)
  {
    assert c in [c];
  }

  // --- The exported task as the validator sees it -------------------------------------

  /** The task properties the validator reads. */
  const FieldNames: set<string> := {
    "type", "subjectId", "fromPath", "toPath", "fromName", "toName", "inputIds",
    "outputName", "outputPath", "archiveId", "destPath", "strict"}

  /** A string property: absent (undefined) when the field is "". */
  function StrValue(s: string): Value
  {
    if s == "" then Undefined else Str(s)
  }

  /** The value of one property of the task's JSON object. */
  function FieldValue(t: Task, key: string): Value
  {
    if key == "type" then StrValue(t.kind)
    else if key == "subjectId" then StrValue(t.subjectId)
    else if key == "fromPath" then StrValue(t.fromPath)
    else if key == "toPath" then StrValue(t.toPath)
    else if key == "fromName" then StrValue(t.fromName)
    else if key == "toName" then StrValue(t.toName)
    else if key == "inputIds" then (if t.inputIds.Some? then Arr(StrValues(t.inputIds.value)) else Undefined)
    else if key == "outputName" then StrValue(t.outputName)
    else if key == "outputPath" then StrValue(t.outputPath)
    else if key == "archiveId" then StrValue(t.archiveId)
    else if key == "destPath" then StrValue(t.destPath)
    else if key == "strict" then (if t.strict.Some? then Bool(t.strict.value) else Undefined)
    else Undefined
  }

  function StrValues(xs: seq<string>): (r: seq<Value>)
    ensures |r| == |xs|
  {
    if xs == [] then [] else [Str(xs[0])] + StrValues(xs[1..])
  }

  /** The task as a JSON object: the properties that are not undefined. */
  function TaskToValue(t: Task): (v: Value)
    ensures v.Obj?
    ensures forall key :: key in FieldNames ==>
      (key in v.fields <==> !FieldValue(t, key).Undefined?) && (key in v.fields ==> v.fields[key] == FieldValue(t, key))
  {
    Obj(map key | key in FieldNames && !FieldValue(t, key).Undefined? :: FieldValue(t, key))
  }

  /** Whether a property value passes hasValue. */
  predicate Present(v: Value)
  {
    !v.Undefined? && !v.Null? && (v.Str? ==> !IsBlank(v.s))
  }

  /** Every required field of a DSL type is one the encoding carries. */
  lemma RequiredFieldsEncoded(t: DslType)
    ensures forall f :: f in RequiredFields(t) ==> f in FieldNames
  {
  }

  /**
    * The validator accepts a task of a DSL type exactly when each field its
    * type requires is present: a string that is not blank, or a list.
    */
  lemma EncodedValidity(t: Task)
    requires ParseType(t.kind).Some?
    ensures WellFormedTask(TaskToValue(t)) <==>
      forall f :: f in RequiredFields(ParseType(t.kind).value) ==> Present(FieldValue(t, f))
  {
    var v := TaskToValue(t);
    var k := ParseType(t.kind).value;
    assert "type" in FieldNames && "strict" in FieldNames;
    assert TypeOf(v.fields) == Str(t.kind);
    RequiredFieldsEncoded(k);
    forall f | f in RequiredFields(k)
      ensures HasValue(v.fields, f) <==> Present(FieldValue(t, f))
    {
    }
  }

  /** The fields of a converted task that can still be blank: its paths or names (its subject, archive and inputs never are). */
  predicate PathFieldsFilled(k: LegacyKind, t: Task)
  {
    match k
    case Moved => !IsBlank(t.fromPath) && !IsBlank(t.toPath)
    case Copied => !IsBlank(t.fromPath) && !IsBlank(t.toPath)
    case Renamed => !IsBlank(t.fromName) && !IsBlank(t.toName)
    case Deleted => !IsBlank(t.fromPath)
    case PermanentlyDeleted => !IsBlank(t.fromPath)
    case Created => !IsBlank(t.toPath)
    case Restored => !IsBlank(t.toPath)
    case ZipCompress => !IsBlank(t.outputName) && !IsBlank(t.outputPath)
    case ZipExtracted => !IsBlank(t.destPath)
  }

  /**
    * A converted task passes validation exactly when its path (or name)
    * fields are not blank: the converter only demands non-empty strings, so
    * a white-space path converts and is then rejected by the validator.
    */
  lemma ConvertedValidity(k: LegacyKind, task: Task)
    requires ConvertKind(k, task).Converted?
    ensures WellFormedTask(TaskToValue(ConvertKind(k, task).task)) <==> PathFieldsFilled(k, ConvertKind(k, task).task)
  {
    var t := ConvertKind(k, task).task;
    EncodedValidity(t);
    if !k.ZipCompress? && !k.ZipExtracted? {
      assert SubjectFromChecks(ConvertKind(k, task), task);
    }
    RequiredVersusPaths(k, t);
  }

  /** With its subject (archive, inputs) in place, a task's required fields are present exactly when its paths are filled. */
  lemma RequiredVersusPaths(k: LegacyKind, t: Task)
    requires !k.ZipCompress? && !k.ZipExtracted? ==> !IsBlank(t.subjectId)
    requires k.ZipExtracted? ==> !IsBlank(t.archiveId)
    requires k.ZipCompress? ==> t.inputIds.Some?
    ensures (forall f :: f in RequiredFields(DslTypeOf(k)) ==> Present(FieldValue(t, f))) <==> PathFieldsFilled(k, t)
  {
    match k
    case Moved => FromToFields(t, Move);
    case Copied => FromToFields(t, Copy);
    case Renamed => NameFields(t);
    case Deleted => FromFields(t, Delete);
    case PermanentlyDeleted => FromFields(t, PermanentlyDelete);
    case Created => ToFields(t, Create);
    case Restored => ToFields(t, Restore);
    case ZipCompress => OutputFields(t);
    case ZipExtracted => ArchiveFields(t);
  }

  lemma FromToFields(t: Task, d: DslType)
    requires d == Move || d == Copy
    requires !IsBlank(t.subjectId)
    ensures (forall f :: f in RequiredFields(d) ==> Present(FieldValue(t, f))) <==> !IsBlank(t.fromPath) && !IsBlank(t.toPath)
  {
    FieldIsStr(t, "subjectId", t.subjectId);
    FieldIsStr(t, "fromPath", t.fromPath);
    FieldIsStr(t, "toPath", t.toPath);
    PresentTriple(t, RequiredFields(d), "subjectId", "fromPath", "toPath");
  }

  lemma NameFields(t: Task)
    requires !IsBlank(t.subjectId)
    ensures (forall f :: f in RequiredFields(Rename) ==> Present(FieldValue(t, f))) <==> !IsBlank(t.fromName) && !IsBlank(t.toName)
  {
    FieldIsStr(t, "subjectId", t.subjectId);
    FieldIsStr(t, "fromName", t.fromName);
    FieldIsStr(t, "toName", t.toName);
    PresentTriple(t, RequiredFields(Rename), "subjectId", "fromName", "toName");
  }

  lemma FromFields(t: Task, d: DslType)
    requires d == Delete || d == PermanentlyDelete
    requires !IsBlank(t.subjectId)
    ensures (forall f :: f in RequiredFields(d) ==> Present(FieldValue(t, f))) <==> !IsBlank(t.fromPath)
  {
    FieldIsStr(t, "subjectId", t.subjectId);
    FieldIsStr(t, "fromPath", t.fromPath);
    PresentPair(t, RequiredFields(d), "subjectId", "fromPath");
  }

  lemma ToFields(t: Task, d: DslType)
    requires d == Create || d == Restore
    requires !IsBlank(t.subjectId)
    ensures (forall f :: f in RequiredFields(d) ==> Present(FieldValue(t, f))) <==> !IsBlank(t.toPath)
  {
    FieldIsStr(t, "subjectId", t.subjectId);
    FieldIsStr(t, "toPath", t.toPath);
    PresentPair(t, RequiredFields(d), "subjectId", "toPath");
  }

  lemma OutputFields(t: Task)
    requires t.inputIds.Some?
    ensures (forall f :: f in RequiredFields(ZipCreate) ==> Present(FieldValue(t, f))) <==>
      !IsBlank(t.outputName) && !IsBlank(t.outputPath)
  {
    assert FieldValue(t, "inputIds") == Arr(StrValues(t.inputIds.value));
    FieldIsStr(t, "outputName", t.outputName);
    FieldIsStr(t, "outputPath", t.outputPath);
    PresentTriple(t, RequiredFields(ZipCreate), "inputIds", "outputName", "outputPath");
  }

  lemma ArchiveFields(t: Task)
    requires !IsBlank(t.archiveId)
    ensures (forall f :: f in RequiredFields(ZipExtract) ==> Present(FieldValue(t, f))) <==> !IsBlank(t.destPath)
  {
    FieldIsStr(t, "archiveId", t.archiveId);
    FieldIsStr(t, "destPath", t.destPath);
    PresentPair(t, RequiredFields(ZipExtract), "archiveId", "destPath");
  }

  /** A string property holding s is present exactly when s is not blank. */
  lemma FieldIsStr(t: Task, key: string, s: string)
    requires FieldValue(t, key) == StrValue(s)
    ensures Present(FieldValue(t, key)) <==> !IsBlank(s)
  {
    PresentStr(s);
  }

  /** All of a two-field list are present exactly when each is. */
  lemma PresentPair(t: Task, fields: seq<string>, a: string, b: string)
    requires fields == [a, b]
    ensures (forall f :: f in fields ==> Present(FieldValue(t, f))) <==>
      Present(FieldValue(t, a)) && Present(FieldValue(t, b))
  {
    assert fields[0] == a && fields[1] == b;
  }

  /** All of a three-field list are present exactly when each is. */
  lemma PresentTriple(t: Task, fields: seq<string>, a: string, b: string, c: string)
    requires fields == [a, b, c]
    ensures (forall f :: f in fields ==> Present(FieldValue(t, f))) <==>
      Present(FieldValue(t, a)) && Present(FieldValue(t, b)) && Present(FieldValue(t, c))
  {
    assert fields[0] == a && fields[1] == b && fields[2] == c;
  }

  /** A string property passes hasValue exactly when the string is not blank. */
  lemma PresentStr(s: string)
    ensures Present(StrValue(s)) <==> !IsBlank(s)
  {
  }

  // --- Legacy zip-extract tasks at export -------------------------------------------------

  /**
    * A task in the zip editor's legacy zip-extract shape (zip path and
    * destination folder, no archive id) has the DSL type name "zip-extract",
    * so toDslTasks passes it through unconverted, and the validator then
    * rejects it for its missing archive id and destination path.
    */
  lemma LegacyZipExtractPassesThrough(task: Task)
    requires task.kind == "zip-extract" && task.archiveId == ""
    ensures ToDslTasks([task]) == DslConversion([task], [])
    ensures !WellFormedTask(TaskToValue(task))
    ensures !ValidateTasks(Arr([TaskToValue(task)])).valid
  {
    ParseTypeName(ZipExtract);
    assert Outcome(task).Converted? && Outcome(task).task == task;
    ToDslFromAllConverted([task], 0, Outcome);
    LegacyZipExtractRejected(task);
  }

  /** The validator rejects a zip-extract task without an archive id. */
  lemma LegacyZipExtractRejected(task: Task)
    requires task.kind == "zip-extract" && task.archiveId == ""
    ensures !WellFormedTask(TaskToValue(task))
    ensures !ValidateTasks(Arr([TaskToValue(task)])).valid
  {
    ParseTypeName(ZipExtract);
    EncodedValidity(task);
    assert "archiveId" in RequiredFields(ZipExtract);
    ValidIffAllWellFormed([TaskToValue(task)]);
  }

  /**
    * The evidently intended outcome: a zip-extract task without an archive
    * id is a legacy task and goes through the converter's zip-extract case;
    * every other task is treated as before.
    */
  function OutcomeCorrected(task: Task): (r: Conversion)
    ensures !(task.kind == "zip-extract" && task.archiveId == "") ==> r == Outcome(task)
  {
    if ParseType(task.kind).Some? && !(task.kind == "zip-extract" && task.archiveId == "") then Converted(task)
    else ConvertLegacyTaskToDsl(task)
  }

  /** toDslTasks with the corrected outcome. */
  function ToDslTasksCorrected(tasks: seq<Task>): (r: DslConversion)
    ensures |r.dslTasks| + |r.conversionErrors| == |tasks|
  {
    ToDslFrom(tasks, 0, OutcomeCorrected)
  }

  /**
    * With the correction, a legacy zip-extract task whose checks the zip
    * editor synchronised from a non-empty zip path and destination folder
    * converts, with the archive id of its zip path and its destination as
    * destination path, and passes validation exactly when that destination
    * is not blank.
    */
  lemma CorrectedZipExtractConverts(task: Task)
    requires task.kind == "zip-extract" && task.archiveId == ""
    requires task.zipPath != "" && task.destinationFolder != ""
    ensures var s := SyncedZipTask(task);
      OutcomeCorrected(s).Converted? &&
      OutcomeCorrected(s).task.archiveId == MakeLegacySubjectId("archive", task.zipPath) &&
      OutcomeCorrected(s).task.destPath == task.destinationFolder &&
      (WellFormedTask(TaskToValue(OutcomeCorrected(s).task)) <==> !IsBlank(task.destinationFolder))
  {
    var s := SyncedZipTask(task);
    var c := s.checks[0];
    assert s.checks == [c];
    assert ParseLegacyKind(s.kind) == Some(ZipExtracted);
    SingleEither(c, "zip-extracted-to", "zip-extracted-to");
    assert OutcomeCorrected(s) == ConvertKind(ZipExtracted, s);
    ConvertedValidity(ZipExtracted, s);
  }

  lemma ParseTypeNames()
    ensures forall t :: ParseType(TypeName(t)) == Some(t)
  {
    forall t ensures ParseType(TypeName(t)) == Some(t) {
      ParseTypeName(t);
    }
  }
}
