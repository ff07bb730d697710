/**
  * The declarative check evaluator: each check type is a boolean formula
  * over "exists at path" and "is in the recycle bin", evaluated against the
  * current roots and recycle bin; tasks roll their checks up into a
  * completion flag and a rounded percentage score.
  */
module Evaluator {
  import opened Wrappers
  import opened Text
  import opened Paths
  import opened Tree
  import opened Tasks

  /** A recycle-bin entry; a missing field is "". */
  datatype BinEntry = BinEntry(kind: string, name: string, originalPath: string)

  // --- Existence -------------------------------------------------------------

  /** folderExists: only an ordinary path below an existing root can name a folder. */
  predicate FolderExists(roots: seq<Node>, path: string)
    ensures FolderExists(roots, path) ==>
      path != "" && !IsSpecialLocation(path) &&
      RootFromPath(path).Some? && GetRootFolder(roots, RootFromPath(path).value).Some?
  {
    GetFolder(roots, path).Some?
  }

  /** The first child carrying `name`, of any kind. */
  function FindChildNamed(children: seq<Node>, name: string): (r: Option<Node>)
    ensures r.Some? ==> r.value in children && r.value.name == name
    ensures r.None? <==> forall c :: c in children ==> c.name != name
  {
    if children == [] then None
    else if children[0].name == name then Some(children[0])
    else FindChildNamed(children[1..], name)
  }

  /**
    * getFileByPath: the first child named by the last segment in the folder at
    * the legacy parent path. The kind of the child is not looked at.
    */
  function GetFileByPath(roots: seq<Node>, path: string): (r: Option<Node>)
    ensures r.Some? ==>
      r.value.name == NameFromPath(path) && ParentPath(path).Some? &&
      FolderExists(roots, ParentPath(path).value) && r.value in GetFolder(roots, ParentPath(path).value).value.children
  {
    match ParentPath(path)
    case None => None
    case Some(folderPath) =>
      match GetFolder(roots, folderPath)
      case None => None
      case Some(folder) => FindChildNamed(folder.children, NameFromPath(path))
  }

  /** fileExists: some child of the legacy parent folder carries the name, whatever its kind. */
  predicate FileExists(roots: seq<Node>, path: string)
    ensures FileExists(roots, path) <==> GetFileByPath(roots, path).Some?
  {
    match ParentPath(path)
    case None => false
    case Some(folderPath) =>
      match GetFolder(roots, folderPath)
      case None => false
      case Some(folder) => exists c :: c in folder.children && c.name == NameFromPath(path)
  }

  /** fileExists and getFileByPath agree, and a found item carries the path's last segment. */
  lemma FileExistsIffFound(roots: seq<Node>, path: string)
    ensures FileExists(roots, path) <==> GetFileByPath(roots, path).Some?
    ensures GetFileByPath(roots, path).Some? ==> GetFileByPath(roots, path).value.name == NameFromPath(path)
  {
  }

  /** A folder in place counts for fileExists too: the check ignores node kinds. */
  lemma FolderCountsAsFile(roots: seq<Node>, p: string, n: string)
    requires !IsSpecialLocation(p) && HasNonSep(p)
    requires n != "" && Sep !in n
    requires FolderExists(roots, JoinPath(p, n))
    ensures FileExists(roots, JoinPath(p, n))
  {
    var s := JoinPath(p, n);
    assert s == JoinPathMultiRoot(p, n);
    GetFolderOfJoin(roots, p, n);
    SegmentsOfJoin(p, n);
    ParentOfJoin(p, n);
    LegacyParentOfJoin(p, n);
  }

  /** The legacy parent of a join is the parent it was joined to. */
  lemma LegacyParentOfJoin(p: string, n: string)
    requires p != "" && n != "" && Sep !in n
    ensures ParentPath(JoinPath(p, n)) == Some(p)
  {
    var s := JoinPath(p, n);
    SplitAppend(p, Sep, n);
    JoinSplit(p, Sep);
    var parts := Split(s, Sep);
    assert parts[..|parts| - 1] == Split(p, Sep);
    assert s[|p|] == Sep;
    assert Sep !in "C:";
  }

  // --- Recycle bin -----------------------------------------------------------

  /**
    * recycleBinHasItem: a bin entry of this kind and name whose normalized
    * original location is the normalized parent of the path. Case-sensitive.
    */
  predicate RecycleBinHasItem(bin: seq<BinEntry>, kind: string, path: string)
    ensures RecycleBinHasItem(bin, kind, path) ==>
      path != "" && exists e :: e in bin && e.kind == kind && e.name == NameFromPath(path) && e.name != ""
  {
    path != "" && kind != "" &&
    var name := NameFromPath(path);
    var parent := ParentPathMultiRoot(path);
    name != "" && parent.Some? && parent.value != "" &&
    exists e :: e in bin && e.kind == kind && e.name == name &&
      NormalizePath(e.originalPath) == NormalizePath(parent.value)
  }

  /** The lower-cased normalized path of a binned folder. */
  function BinnedFolderPath(e: BinEntry): string
  {
    ToLower(NormalizePath(JoinPathMultiRoot(e.originalPath, e.name)))
  }

  /**
    * recycleBinHasAncestorFolder: some binned folder (with a name and an
    * original location) is a strict ancestor of the path, compared lower-cased.
    */
  predicate RecycleBinHasAncestorFolder(bin: seq<BinEntry>, path: string)
    ensures RecycleBinHasAncestorFolder(bin, path) ==>
      path != "" && exists e :: e in bin && e.kind == "folder" && |BinnedFolderPath(e)| < |NormalizePath(path)|
  {
    var np := ToLower(NormalizePath(path));
    path != "" && np != "" &&
    exists e :: e in bin && e.kind == "folder" && e.name != "" && e.originalPath != "" &&
      StartsWith(np, BinnedFolderPath(e) + [Sep])
  }

  /**
    * recycleBinHasItem finds an item at `p\n` exactly when the bin holds an
    * entry of that kind and exactly that name whose original location is
    * `p`, however either location is spelled (slashes, trailing backslashes).
    */
  lemma BinItemOfJoin(bin: seq<BinEntry>, kind: string, p: string, n: string)
    requires p != ThisPC && HasNonSep(p)
    requires n != "" && Sep !in n && kind != ""
    ensures RecycleBinHasItem(bin, kind, JoinPathMultiRoot(p, n)) <==>
      exists e :: e in bin && e.kind == kind && e.name == n && NormalizePath(e.originalPath) == NormalizePath(p)
  {
    ParentOfJoin(p, n);
  }

  /**
    * recycleBinHasItem compares names exactly: a binned `a.txt` is found at
    * `p\a.txt` and not under any other spelling, `A.txt` included.
    */
  lemma BinItemNameIsExact(kind: string, p: string, n: string, m: string)
    requires p != ThisPC && HasNonSep(p) && kind != ""
    requires n != "" && Sep !in n && m != "" && Sep !in m && n != m
    ensures RecycleBinHasItem([BinEntry(kind, n, p)], kind, JoinPathMultiRoot(p, n))
    ensures !RecycleBinHasItem([BinEntry(kind, n, p)], kind, JoinPathMultiRoot(p, m))
  {
    var bin := [BinEntry(kind, n, p)];
    BinItemOfJoin(bin, kind, p, n);
    BinItemOfJoin(bin, kind, p, m);
    assert bin[0] in bin;
  }

  /** recycleBinHasAncestorFolder gives the same answer for a path and its lower-cased spelling. */
  lemma AncestorFolderIgnoresCase(bin: seq<BinEntry>, path: string)
    ensures RecycleBinHasAncestorFolder(bin, path) <==> RecycleBinHasAncestorFolder(bin, ToLower(path))
  {
    LowerNormalizeCommute(path);
    var lp := ToLower(path);
    assert lp == "" <==> path == "";
    assert ToLower(NormalizePath(lp)) == "" <==> ToLower(NormalizePath(path)) == "";
  }

  /** The two bin lookups differ in case sensitivity: only the ancestor lookup folds case. */
  lemma AncestorLookupFoldsCase(e: BinEntry, path: string)
    requires e.kind == "folder" && e.name != "" && e.originalPath != ""
    requires path != "" && NormalizePath(path) != ""
    requires StartsWith(ToLower(NormalizePath(path)), BinnedFolderPath(e) + [Sep])
    ensures RecycleBinHasAncestorFolder([e], ToLower(path))
  {
    var lp := ToLower(path);
    assert ToLower(NormalizePath(lp)) == ToLower(NormalizePath(path)) by {
      LowerNormalizeCommute(path);
    }
    assert lp != "";
  }

  /** Lower-casing commutes with normalizePath and is idempotent. */
  lemma LowerNormalizeCommute(path: string)
    ensures ToLower(NormalizePath(ToLower(path))) == ToLower(NormalizePath(path))
  {
    if path != "" {
      var a := ReplaceSlashes(ToLower(path));
      var b := ReplaceSlashes(path);
      assert a == ToLower(b);
      LowerStrip(b);
      assert ToLower(ToLower(StripTrailingSeps(b))) == ToLower(StripTrailingSeps(b));
    }
  }

  lemma {:induction false} LowerStrip(s: string)
    ensures StripTrailingSeps(ToLower(s)) == ToLower(StripTrailingSeps(s))
    decreases |s|
  {
    if |s| > 0 {
      assert ToLower(s)[..|s| - 1] == ToLower(s[..|s| - 1]);
      if s[|s| - 1] == Sep {
        LowerStrip(s[..|s| - 1]);
      }
    }
  }

  // --- Required fields ---------------------------------------------------------

  /** A check field is present unless it is undefined, null or "". */
  predicate FieldPresent(c: Check, field: string)
  {
    if field == "path" then c.path != ""
    else if field == "from" then c.from != ""
    else if field == "to" then c.to != ""
    else if field == "zipPath" then c.zipPath != ""
    else if field == "destinationFolder" then c.destinationFolder != ""
    else if field == "entries" then !c.entries.Missing?
    else if field == "expectEntries" then !c.expectEntries.Missing?
    else if field == "mode" then c.mode != ""
    else field == "type" && c.kind != ""
  }

  /** requireCheckFields: every listed field is present. */
  function RequireCheckFields(c: Check, fields: seq<string>): (ok: bool)
    ensures ok <==> forall f :: f in fields ==> FieldPresent(c, f)
  {
    if fields == [] then true
    else FieldPresent(c, fields[0]) && RequireCheckFields(c, fields[1..])
  }

  // --- evaluateCheck -----------------------------------------------------------

  /** Every `expectEntries` element is in place below the destination folder. */
  predicate EntryInPlace(roots: seq<Node>, dest: string, e: Entry)
  {
    match e
    case NamedEntry(name) =>
      var p := JoinPathMultiRoot(dest, name);
      FileExists(roots, p) || FolderExists(roots, p)
    case TypedEntry(name, kind) =>
      name != "" && kind != "" &&
      var p := JoinPathMultiRoot(dest, name);
      if kind == "file" then FileExists(roots, p)
      else if kind == "folder" then FolderExists(roots, p)
      else false
    case Malformed => false
  }

  /** zip-extracted-to once both folders are found: every expected entry is in place. */
  predicate EntriesInPlace(roots: seq<Node>, dest: string, entries: seq<Entry>)
  {
    forall e :: e in entries ==> EntryInPlace(roots, dest, e)
  }

  /** The zip-exists case: the path is given, ends in ".zip" and names an archive. */
  predicate ZipExistsPasses(roots: seq<Node>, c: Check)
  {
    RequireCheckFields(c, ["path"]) && EndsWith(c.path, ".zip") &&
    var item := GetFileByPath(roots, c.path);
    item.Some? && item.value.isZip
  }

  /** The zip-contains case: the item at the zip path is a listed ".zip" whose entries meet the mode. */
  predicate ZipContainsPasses(roots: seq<Node>, c: Check)
  {
    RequireCheckFields(c, ["zipPath", "entries"]) &&
    var item := GetFileByPath(roots, c.zipPath);
    item.Some? && EndsWith(item.value.name, ".zip") && item.value.zipEntries.Some? &&
    ZipListsEntries(item.value.zipEntries.value, ListOrEmpty(c.entries), c.mode)
  }

  /** The zip-extracted-to case: the archive and the destination exist and every expected entry is in place. */
  predicate ZipExtractedPasses(roots: seq<Node>, c: Check)
  {
    RequireCheckFields(c, ["zipPath", "destinationFolder", "expectEntries"]) &&
    FileExists(roots, c.zipPath) && FolderExists(roots, c.destinationFolder) &&
    EntriesInPlace(roots, c.destinationFolder, ListOrEmpty(c.expectEntries))
  }

  function ListOrEmpty<T>(f: ListField<T>): seq<T>
  {
    if f.Items? then f.items else []
  }

  /** zip-contains once the archive is found: some ("any") or every (otherwise) entry is listed. */
  predicate ZipListsEntries(listed: seq<string>, wanted: seq<string>, mode: string)
  {
    if mode == "any" then exists e :: e in wanted && e in listed
    else forall e :: e in wanted ==> e in listed
  }

  /**
    * evaluateCheck: one boolean formula per check type; a check passes only
    * when its type is known and every field that type requires is present.
    */
  predicate EvaluateCheck(roots: seq<Node>, bin: seq<BinEntry>, c: Check)
    ensures EvaluateCheck(roots, bin, c) ==> c.kind in CheckTypes
    ensures EvaluateCheck(roots, bin, c) ==> forall f :: f in RequiredCheckFields(c.kind) ==> FieldPresent(c, f)
  {
    var t := c.kind;
    if t == "folder-exists" then
      RequireCheckFields(c, ["path"]) && FolderExists(roots, c.path)
    else if t == "folder-not-exists" then
      RequireCheckFields(c, ["path"]) && !FolderExists(roots, c.path)
    else if t == "file-exists" then
      RequireCheckFields(c, ["path"]) && FileExists(roots, c.path)
    else if t == "file-not-exists" then
      RequireCheckFields(c, ["path"]) && !FileExists(roots, c.path)
    else if t == "file-moved" || t == "file-renamed" then
      RequireCheckFields(c, ["from", "to"]) && FileExists(roots, c.to) && !FileExists(roots, c.from)
    else if t == "file-copied" then
      RequireCheckFields(c, ["from", "to"]) && FileExists(roots, c.from) && FileExists(roots, c.to)
    else if t == "folder-moved" || t == "folder-renamed" then
      RequireCheckFields(c, ["from", "to"]) && FolderExists(roots, c.to) && !FolderExists(roots, c.from)
    else if t == "folder-copied" then
      RequireCheckFields(c, ["from", "to"]) && FolderExists(roots, c.from) && FolderExists(roots, c.to)
    else if t == "file-restored" then
      RequireCheckFields(c, ["path"]) && FileExists(roots, c.path) && !RecycleBinHasItem(bin, "file", c.path)
    else if t == "folder-restored" then
      RequireCheckFields(c, ["path"]) && FolderExists(roots, c.path) && !RecycleBinHasItem(bin, "folder", c.path)
    else if t == "file-permanently-deleted" then
      RequireCheckFields(c, ["path"]) && !FileExists(roots, c.path) &&
      !RecycleBinHasItem(bin, "file", c.path) && !RecycleBinHasAncestorFolder(bin, c.path)
    else if t == "folder-permanently-deleted" then
      RequireCheckFields(c, ["path"]) && !FolderExists(roots, c.path) && !RecycleBinHasItem(bin, "folder", c.path)
    else if t == "zip-exists" then ZipExistsPasses(roots, c)
    else if t == "zip-contains" then ZipContainsPasses(roots, c)
    else if t == "zip-extracted-to" then ZipExtractedPasses(roots, c)
    else false
  }

  /** The check types evaluateCheck knows. */
  const CheckTypes: set<string> := {
    "folder-exists", "folder-not-exists", "file-exists", "file-not-exists",
    "file-moved", "file-renamed", "file-copied", "folder-moved", "folder-renamed", "folder-copied",
    "file-restored", "folder-restored", "file-permanently-deleted", "folder-permanently-deleted",
    "zip-exists", "zip-contains", "zip-extracted-to"}

  /** The fields each check type demands before it is evaluated. */
  function RequiredCheckFields(kind: string): seq<string>
  {
    if kind in {"file-moved", "file-renamed", "file-copied", "folder-moved", "folder-renamed", "folder-copied"}
    then ["from", "to"]
    else if kind == "zip-contains" then ["zipPath", "entries"]
    else if kind == "zip-extracted-to" then ["zipPath", "destinationFolder", "expectEntries"]
    else ["path"]
  }

  /**
    * A check passes only when its type is known and all of its required
    * fields are present: an unknown type or a missing field gives false.
    */
  lemma PassingCheckIsWellFormed(roots: seq<Node>, bin: seq<BinEntry>, c: Check)
    requires EvaluateCheck(roots, bin, c)
    ensures c.kind in CheckTypes
    ensures forall f :: f in RequiredCheckFields(c.kind) ==> FieldPresent(c, f)
  {
  }

  /** For one from/to pair, file-moved and file-copied never both pass. */
  lemma MovedAndCopiedExclusive(roots: seq<Node>, bin: seq<BinEntry>, from: string, to: string)
    ensures !(EvaluateCheck(roots, bin, FromToCheck("file-moved", from, to)) &&
              EvaluateCheck(roots, bin, FromToCheck("file-copied", from, to)))
  {
    if EvaluateCheck(roots, bin, FromToCheck("file-moved", from, to)) {
      assert !FileExists(roots, from);
    }
  }

  /** folder-permanently-deleted fails while the folder still exists. */
  lemma PermanentlyDeletedFolderIsGone(roots: seq<Node>, bin: seq<BinEntry>, path: string)
    requires FolderExists(roots, path)
    ensures !EvaluateCheck(roots, bin, PathCheck("folder-permanently-deleted", path))
  {
  }

  /** file-permanently-deleted passes only when no file is found at the path. */
  lemma PermanentlyDeletedFileIsGone(roots: seq<Node>, bin: seq<BinEntry>, c: Check)
    requires c.kind == "file-permanently-deleted"
    ensures EvaluateCheck(roots, bin, c) ==> !FileExists(roots, c.path)
  {
  }

  /** A restored file exists and a permanently deleted file does not: the two checks exclude each other. */
  lemma RestoredAndPermanentlyDeletedExclusive(roots: seq<Node>, bin: seq<BinEntry>, path: string)
    ensures !(EvaluateCheck(roots, bin, PathCheck("file-restored", path)) &&
              EvaluateCheck(roots, bin, PathCheck("file-permanently-deleted", path)))
  {
    var restored := PathCheck("file-restored", path);
    var deleted := PathCheck("file-permanently-deleted", path);
    assert EvaluateCheck(roots, bin, restored) ==> FileExists(roots, path) by {
      assert |restored.kind| == 13 && restored.kind[5] == 'r' && restored.kind[7] == 's';
    }
    PermanentlyDeletedFileIsGone(roots, bin, deleted);
  }

  // --- Task roll-up and score ---------------------------------------------------

  /** A task with its completion flag and one pass/fail result per check. */
  datatype TaskResult = TaskResult(task: Task, completed: bool, passed: seq<bool>)

  /** evaluateTasksFromConfig for one task: completed when it has checks and all of them pass. */
  function EvaluateTask(roots: seq<Node>, bin: seq<BinEntry>, task: Task): (r: TaskResult)
    ensures r.task == task && |r.passed| == |task.checks|
    ensures forall i :: 0 <= i < |task.checks| ==> r.passed[i] == EvaluateCheck(roots, bin, task.checks[i])
    ensures r.completed <==> |task.checks| > 0 && forall c :: c in task.checks ==> EvaluateCheck(roots, bin, c)
  {
    var passed := seq(|task.checks|, i requires 0 <= i < |task.checks| => EvaluateCheck(roots, bin, task.checks[i]));
    assert forall c :: c in task.checks ==> exists i :: 0 <= i < |task.checks| && task.checks[i] == c;
    TaskResult(task, |task.checks| > 0 && forall i :: 0 <= i < |passed| ==> passed[i], passed)
  }

  /** evaluateTasksFromConfig: one result per task, in order. */
  function EvaluateTasksFromConfig(roots: seq<Node>, bin: seq<BinEntry>, tasks: seq<Task>): (r: seq<TaskResult>)
    ensures |r| == |tasks|
    ensures forall i :: 0 <= i < |tasks| ==> r[i] == EvaluateTask(roots, bin, tasks[i])
  {
    if tasks == [] then [] else [EvaluateTask(roots, bin, tasks[0])] + EvaluateTasksFromConfig(roots, bin, tasks[1..])
  }

  /** A task without checks is never completed. */
  lemma TaskWithoutChecksIncomplete(roots: seq<Node>, bin: seq<BinEntry>, task: Task)
    requires task.checks == []
    ensures !EvaluateTask(roots, bin, task).completed
  {
  }

  function CountCompleted(results: seq<TaskResult>): (n: nat)
    ensures n <= |results|
  {
    if results == [] then 0 else (if results[0].completed then 1 else 0) + CountCompleted(results[1..])
  }

  /**
    * calculateScoreFromTasks: the percentage of completed tasks rounded to the
    * nearest integer, halves upwards; an empty list has no score (NaN).
    */
  function CalculateScore(results: seq<TaskResult>): (score: Option<nat>)
    ensures score.None? <==> results == []
    ensures score.Some? ==> score.value <= 100
    ensures score.Some? ==>
      RoundsToNearest(200 * CountCompleted(results) + |results|, 2 * |results|, score.value)
  {
    var t := |results|;
    if t == 0 then None
    else
      var c := CountCompleted(results);
      var n := 200 * c + t;
      var s := n / (2 * t);
      DivBounds(n, 2 * t);
      assert n < (2 * t) * 101;
      MulCancel(2 * t, s, 101);
      Some(s)
  }

  /** `q` is the quotient of `n` by `d`: `d * q <= n < d * q + d`. */
  predicate RoundsToNearest(n: int, d: int, q: int)
  {
    d * q <= n < d * q + d
  }

  /** All tasks completed scores 100; none completed scores 0. */
  lemma ScoreExtremes(results: seq<TaskResult>)
    requires results != []
    ensures CountCompleted(results) == |results| ==> CalculateScore(results) == Some(100)
    ensures CountCompleted(results) == 0 ==> CalculateScore(results) == Some(0)
  {
    var t := |results|;
    var s := CalculateScore(results).value;
    if CountCompleted(results) == t {
      assert RoundsToNearest(200 * t + t, 2 * t, 100);
      QuotientUnique(200 * t + t, 2 * t, s, 100);
    }
    if CountCompleted(results) == 0 {
      assert RoundsToNearest(t, 2 * t, 0);
      QuotientUnique(t, 2 * t, s, 0);
    }
  }

  /** Each task completed in `a` is completed in `b` (same length, position by position). */
  predicate AtLeastAsCompleted(a: seq<TaskResult>, b: seq<TaskResult>)
  {
    |a| == |b| && forall i :: 0 <= i < |a| ==> a[i].completed ==> b[i].completed
  }

  lemma {:induction false} CountMonotone(a: seq<TaskResult>, b: seq<TaskResult>)
    requires AtLeastAsCompleted(a, b)
    ensures CountCompleted(a) <= CountCompleted(b)
  {
    if a != [] {
      assert AtLeastAsCompleted(a[1..], b[1..]) by {
        forall i | 0 <= i < |a[1..]| ensures a[1..][i].completed ==> b[1..][i].completed {
          assert a[1..][i] == a[i + 1] && b[1..][i] == b[i + 1];
        }
      }
      CountMonotone(a[1..], b[1..]);
    }
  }

  /** Completing more tasks never lowers the score. */
  lemma ScoreMonotone(a: seq<TaskResult>, b: seq<TaskResult>)
    requires a != [] && AtLeastAsCompleted(a, b)
    ensures CalculateScore(a).value <= CalculateScore(b).value
  {
    CountMonotone(a, b);
    var t := |a|;
    DivMonotone(200 * CountCompleted(a) + t, 200 * CountCompleted(b) + t, 2 * t);
  }

  // --- Arithmetic for the score proofs ---------------------------------------
  // Facts about integer division and multiplication that CalculateScore,
  // ScoreExtremes and ScoreMonotone rely on; they model nothing of their own.

  lemma DivBounds(n: nat, d: nat)
    requires d > 0
    ensures RoundsToNearest(n, d, n / d)
  {
  }

  lemma MulCancel(d: int, a: int, b: int)
    requires d > 0 && d * a < d * b
    ensures a < b
  {
  }

  lemma MulMonotone(d: int, a: int, b: int)
    requires d > 0 && a <= b
    ensures d * a <= d * b
  {
  }

  /** Only one quotient satisfies the bounds. */
  lemma QuotientUnique(n: int, d: int, q1: int, q2: int)
    requires d > 0 && RoundsToNearest(n, d, q1) && RoundsToNearest(n, d, q2)
    ensures q1 == q2
  {
    if q1 != q2 {
      var lo, hi := if q1 < q2 then q1 else q2, if q1 < q2 then q2 else q1;
      MulMonotone(d, lo + 1, hi);
    }
  }

  lemma DivMonotone(x: nat, y: nat, d: nat)
    requires x <= y && d > 0
    ensures x / d <= y / d
  {
    DivBounds(x, d);
    DivBounds(y, d);
    if x / d > y / d {
      MulMonotone(d, y / d + 1, x / d);
    }
  }
}
