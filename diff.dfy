/**
  * The teacher's diff interpreter: two flat snapshots (initial and target)
  * and two recycle-bin lists are classified, phase by phase, into renames,
  * moves, copies, bin restores, bin permanent deletes, additions and
  * removals (soft, into the bin, or permanent).
  */
module Diff {
  import opened Wrappers
  import opened Text
  import opened Paths
  import opened Seqs
  import opened Tree
  import opened Evaluator

  /** The type string a flat fact carries. */
  function KindName(k: NodeKind): string
  {
    match k
    case File => "file"
    case Folder => "folder"
  }

  datatype RenameRec = RenameRec(from: string, to: string)
  datatype MoveRec = MoveRec(kind: NodeKind, name: string, from: string, to: string)
  datatype CopyRec = CopyRec(kind: NodeKind, name: string, from: string, to: string)
  datatype BinRec = BinRec(kind: string, path: string, name: string)

  /** The categorized result of interpretDiffsFromFlats. */
  datatype Diffs = Diffs(
    added: seq<Fact>,
    removed: seq<Fact>,
    removedPermanent: seq<Fact>,
    moved: seq<MoveRec>,
    movedFolders: seq<MoveRec>,
    renamed: seq<RenameRec>,
    copied: seq<CopyRec>,
    restored: seq<BinRec>,
    binPermanentlyDeleted: seq<BinRec>)

  /** What diffStructures collects: both flattenings and both bins (a non-array bin reads as empty). */
  datatype RawDiff = RawDiff(initialFlat: seq<Fact>, targetFlat: seq<Fact>, initialBin: seq<BinEntry>, targetBin: seq<BinEntry>)

  function DiffStructures(initial: Structure, target: Structure,
                          initialBin: Option<seq<BinEntry>>, targetBin: Option<seq<BinEntry>>): (r: RawDiff)
    ensures r.initialFlat == Flatten(initial) && r.targetFlat == Flatten(target)
    ensures r.initialBin == (if initialBin.Some? then initialBin.value else [])
    ensures r.targetBin == (if targetBin.Some? then targetBin.value else [])
  {
    RawDiff(Flatten(initial), Flatten(target),
            if initialBin.Some? then initialBin.value else [],
            if targetBin.Some? then targetBin.value else [])
  }

  // --- Renames ------------------------------------------------------------------

  /** A target file in directory `dir` at a path other than `path`. */
  predicate SameDirPartner(t: Fact, dir: Option<string>, path: string)
  {
    t.kind == File && ParentPathMultiRoot(t.path) == dir && t.path != path
  }

  /** The first target file in the same directory as `item` but at another path. */
  function RenameTargetIndex(item: Fact, target: seq<Fact>): Option<nat>
  {
    FirstIndex(target, t => SameDirPartner(t, ParentPathMultiRoot(item.path), item.path))
  }

  /** The rename record detectRenamesSameDir makes for one initial item, if any. */
  predicate IsRenameOf(r: RenameRec, item: Fact, target: seq<Fact>)
  {
    item.kind == File && RenameTargetIndex(item, target).Some? &&
    r == RenameRec(item.path, target[RenameTargetIndex(item, target).value].path)
  }

  /**
    * detectRenamesSameDir: every initial file paired with the first target
    * file in its directory at another path. Whether the initial file is
    * still present in the target is not looked at.
    */
  function DetectRenames(initial: seq<Fact>, target: seq<Fact>): (r: seq<RenameRec>)
    ensures |r| <= |initial|
    ensures forall x :: x in r <==> exists item :: item in initial && IsRenameOf(x, item, target)
  {
    if initial == [] then []
    else
      var item := initial[0];
      var rest := DetectRenames(initial[1..], target);
      assert forall y :: y in initial <==> y == item || y in initial[1..];
      if item.kind == File && RenameTargetIndex(item, target).Some? then
        var rec := RenameRec(item.path, target[RenameTargetIndex(item, target).value].path);
        assert IsRenameOf(rec, item, target);
        [rec] + rest
      else rest
  }

  /** Every initial file with a same-directory partner yields its rename record. */
  lemma RenameRecorded(initial: seq<Fact>, target: seq<Fact>, item: Fact)
    requires item in initial && item.kind == File
    requires exists t :: t in target && SameDirPartner(t, ParentPathMultiRoot(item.path), item.path)
    ensures exists x :: x in DetectRenames(initial, target) && IsRenameOf(x, item, target)
  {
    var t :| t in target && SameDirPartner(t, ParentPathMultiRoot(item.path), item.path);
    var j :| 0 <= j < |target| && target[j] == t;
    var k := RenameTargetIndex(item, target).value;
    assert IsRenameOf(RenameRec(item.path, target[k].path), item, target);
  }

  /**
    * Renames do not require the source to vanish: on identical snapshots,
    * any file with a sibling file yields a rename record.
    */
  lemma IdenticalSnapshotsRename(flat: seq<Fact>, a: Fact, b: Fact)
    requires a in flat && b in flat && a.kind == File && b.kind == File
    requires ParentPathMultiRoot(a.path) == ParentPathMultiRoot(b.path) && a.path != b.path
    ensures exists x :: x in DetectRenames(flat, flat) && x.from == a.path && x.to != a.path
  {
    assert SameDirPartner(b, ParentPathMultiRoot(a.path), a.path);
    RenameRecorded(flat, flat, a);
  }

  function RenamedTo(rs: seq<RenameRec>): set<string>
  {
    set r | r in rs :: r.to
  }

  /** renamedPaths: all sources and targets of the rename records. */
  function RenamedPaths(rs: seq<RenameRec>): set<string>
  {
    (set r | r in rs :: r.from) + (set r | r in rs :: r.to)
  }

  // --- Moves --------------------------------------------------------------------

  /** A target of the same kind sits at the source's path. */
  predicate StillThere(src: Fact, target: seq<Fact>)
  {
    exists t :: t in target && t.kind == src.kind && t.path == src.path
  }

  /** The first target of the same kind and name as `src`. */
  function MoveTargetIndex(src: Fact, target: seq<Fact>): Option<nat>
  {
    FirstIndex(target, (t: Fact) => t.kind == src.kind && t.name == src.name)
  }

  predicate IsMoveOf(m: MoveRec, src: Fact, target: seq<Fact>)
  {
    !StillThere(src, target) && MoveTargetIndex(src, target).Some? &&
    m == MoveRec(src.kind, src.name, src.path, target[MoveTargetIndex(src, target).value].path)
  }

  /**
    * detectMovedFilesStub (kind File) and detectMovedFoldersStub (kind
    * Folder): an initial item of that kind with no same-kind target at its
    * path moves to the first same-kind, same-name target.
    */
  function DetectMoved(kind: NodeKind, initial: seq<Fact>, target: seq<Fact>): (r: seq<MoveRec>)
    ensures forall m :: m in r <==> exists src :: src in initial && src.kind == kind && IsMoveOf(m, src, target)
  {
    if initial == [] then []
    else
      var src := initial[0];
      var rest := DetectMoved(kind, initial[1..], target);
      assert forall y :: y in initial <==> y == src || y in initial[1..];
      if src.kind == kind && !StillThere(src, target) && MoveTargetIndex(src, target).Some? then
        var rec := MoveRec(kind, src.name, src.path, target[MoveTargetIndex(src, target).value].path);
        assert IsMoveOf(rec, src, target);
        [rec] + rest
      else rest
  }

  function MovedPaths(ms: seq<MoveRec>): set<string>
  {
    (set m | m in ms :: m.from) + (set m | m in ms :: m.to)
  }

  /**
    * Rename and move can claim the same source: an initial file that left its
    * path, has a same-directory partner and a same-name target elsewhere is
    * both renamed and moved.
    */
  lemma DoubleClaim(initial: seq<Fact>, target: seq<Fact>, item: Fact)
    requires item in initial && item.kind == File
    requires exists t :: t in target && SameDirPartner(t, ParentPathMultiRoot(item.path), item.path)
    requires !StillThere(item, target)
    requires exists t :: t in target && t.kind == File && t.name == item.name
    ensures exists x :: x in DetectRenames(initial, target) && x.from == item.path
    ensures exists m :: m in DetectMoved(File, initial, target) && m.from == item.path
  {
    RenameRecorded(initial, target, item);
    MoveRecorded(File, initial, target, item);
  }

  /** Every initial item that left its path and has a same-kind, same-name target yields its move record. */
  lemma MoveRecorded(kind: NodeKind, initial: seq<Fact>, target: seq<Fact>, src: Fact)
    requires src in initial && src.kind == kind && !StillThere(src, target)
    requires exists t :: t in target && t.kind == src.kind && t.name == src.name
    ensures exists m :: m in DetectMoved(kind, initial, target) && IsMoveOf(m, src, target)
  {
    var t :| t in target && t.kind == src.kind && t.name == src.name;
    var j :| 0 <= j < |target| && target[j] == t;
    var k := MoveTargetIndex(src, target).value;
    assert IsMoveOf(MoveRec(kind, src.name, src.path, target[k].path), src, target);
  }

  // --- Path keys ----------------------------------------------------------------

  /** buildPathKey: `type|normalizedPath`. */
  function PathKey(kind: string, path: string): string
  {
    kind + "|" + NormalizePath(path)
  }

  /** splitPathKey: the text before and after the first "|", or two empty strings. */
  function SplitPathKey(key: string): (string, string)
  {
    var idx := IndexOf(key, "|");
    if idx == -1 then ("", "") else (key[..idx], key[idx + 1..])
  }

  /** splitPathKey inverts buildPathKey for types without "|". */
  lemma SplitBuildPathKey(kind: string, path: string)
    requires '|' !in kind
    ensures SplitPathKey(PathKey(kind, path)) == (kind, NormalizePath(path))
  {
    var key := PathKey(kind, path);
    assert OccursAt(key, "|", |kind|);
    forall j | 0 <= j < |kind| ensures !OccursAt(key, "|", j) {
      assert key[j] == kind[j];
    }
    assert key[..|kind|] == kind;
  }

  /** A key with a "|" is rebuilt from the two halves splitPathKey gives. */
  lemma SplitPathKeyRejoins(key: string)
    requires '|' in key
    ensures SplitPathKey(key).0 + "|" + SplitPathKey(key).1 == key
  {
    var i :| 0 <= i < |key| && key[i] == '|';
    assert OccursAt(key, "|", i);
    var idx := IndexOf(key, "|");
    assert key == key[..idx] + "|" + key[idx + 1..];
  }

  function FactKey(f: Fact): string
  {
    PathKey(KindName(f.kind), f.path)
  }

  /** buildFlatPathSet: the keys of the facts that have a path. */
  function FlatPathSet(flat: seq<Fact>): set<string>
  {
    set f | f in flat && f.path != "" :: FactKey(f)
  }

  /** A bin entry with an original location, a name and a type. */
  predicate CompleteBinEntry(e: BinEntry)
  {
    e.originalPath != "" && e.name != "" && e.kind != ""
  }

  function BinKey(e: BinEntry): string
  {
    PathKey(e.kind, JoinPathMultiRoot(e.originalPath, e.name))
  }

  function BinKeyList(bin: seq<BinEntry>): (r: seq<string>)
    ensures forall k :: k in r <==> exists e :: e in bin && CompleteBinEntry(e) && BinKey(e) == k
  {
    if bin == [] then []
    else
      assert forall e :: e in bin <==> e == bin[0] || e in bin[1..];
      (if CompleteBinEntry(bin[0]) then [BinKey(bin[0])] else []) + BinKeyList(bin[1..])
  }

  /**
    * buildRecycleBinPathSet: the keys of the complete bin entries, each once,
    * in insertion order; entries lacking an original path, a name or a type
    * are skipped. Every key holds a "|".
    */
  function BuildRecycleBinPathSet(bin: seq<BinEntry>): (r: seq<string>)
    ensures forall k :: k in r <==> exists e :: e in bin && CompleteBinEntry(e) && BinKey(e) == k
    ensures forall i, j :: 0 <= i < j < |r| ==> r[i] != r[j]
    ensures forall k :: k in r ==> '|' in k
  {
    var r := Dedup(BinKeyList(bin));
    assert forall e :: e in bin && CompleteBinEntry(e) ==> BinKey(e)[|e.kind|] == '|';
    r
  }

  /**
    * buildRecycleBinFolderPathSet: the normalized full paths of the binned
    * folders that have a name and an original location; every member is
    * already in normal form, and the set is empty exactly when the bin holds
    * no such folder.
    */
  function BuildRecycleBinFolderPathSet(bin: seq<BinEntry>): (r: set<string>)
    ensures forall q :: q in r ==> NormalizePath(q) == q
    ensures r == {} <==> forall e :: e in bin ==> !(e.kind == "folder" && e.originalPath != "" && e.name != "")
  {
    NormalizeIdempotentAll();
    var r := set e | e in bin && e.kind == "folder" && e.originalPath != "" && e.name != "" ::
      NormalizePath(JoinPathMultiRoot(e.originalPath, e.name));
    assert forall e :: e in bin && e.kind == "folder" && e.originalPath != "" && e.name != "" ==>
      NormalizePath(JoinPathMultiRoot(e.originalPath, e.name)) in r;
    r
  }

  /** normalizePath is idempotent, for all strings at once. */
  lemma NormalizeIdempotentAll()
    ensures forall s :: NormalizePath(NormalizePath(s)) == NormalizePath(s)
  {
    forall s ensures NormalizePath(NormalizePath(s)) == NormalizePath(s) {
      NormalizePathIdempotent(s);
    }
  }

  /** isDescendantPath: a strict descendant, compared on normalized paths, which are therefore longer. */
  predicate IsDescendantPath(path: string, ancestor: string)
    ensures IsDescendantPath(path, ancestor) ==> |NormalizePath(path)| > |NormalizePath(ancestor)| && path != ancestor
  {
    path != "" && ancestor != "" &&
    var np, na := NormalizePath(path), NormalizePath(ancestor);
    np != na && StartsWith(np, na + [Sep])
  }

  /** A descendant's normalized path is strictly longer: the relation is irreflexive and asymmetric. */
  lemma DescendantIsLonger(path: string, ancestor: string)
    requires IsDescendantPath(path, ancestor)
    ensures |NormalizePath(path)| > |NormalizePath(ancestor)|
    ensures !IsDescendantPath(ancestor, path) && path != ancestor
  {
  }

  // --- Copies -------------------------------------------------------------------

  /** The first initial item with the target's kind and name whose key is in the target. */
  function CopySourceIndex(t: Fact, initial: seq<Fact>, targetKeys: set<string>): Option<nat>
  {
    FirstIndex(initial, (src: Fact) => src.kind == t.kind && src.name == t.name && FactKey(src) in targetKeys)
  }

  /** A copy record: its source exists in both snapshots, and its target is a new, different path. */
  predicate IsCopy(c: CopyRec, initial: seq<Fact>, target: seq<Fact>)
  {
    (exists src :: src in initial && src.kind == c.kind && src.name == c.name && src.path == c.from &&
      FactKey(src) in FlatPathSet(target)) &&
    (exists t :: t in target && t.kind == c.kind && t.name == c.name && t.path == c.to) &&
    NormalizePath(c.from) != NormalizePath(c.to) &&
    PathKey(KindName(c.kind), c.to) !in FlatPathSet(initial)
  }

  /**
    * The copy one target item records: its first source, when that sits at
    * another path and the item's own key is new; nothing otherwise.
    */
  function CopyOf(t: Fact, initial: seq<Fact>, targetKeys: set<string>, initialKeys: set<string>): (r: Option<CopyRec>)
    ensures r.Some? ==>
      CopySourceIndex(t, initial, targetKeys).Some? &&
      r.value == CopyRec(t.kind, t.name, initial[CopySourceIndex(t, initial, targetKeys).value].path, t.path) &&
      NormalizePath(r.value.from) != NormalizePath(t.path) && FactKey(t) !in initialKeys
    ensures (CopySourceIndex(t, initial, targetKeys).Some? && FactKey(t) !in initialKeys &&
             NormalizePath(initial[CopySourceIndex(t, initial, targetKeys).value].path) != NormalizePath(t.path)) ==> r.Some?
  {
    match CopySourceIndex(t, initial, targetKeys)
    case None => None
    case Some(k) =>
      var src := initial[k];
      if NormalizePath(src.path) == NormalizePath(t.path) || FactKey(t) in initialKeys then None
      else Some(CopyRec(t.kind, t.name, src.path, t.path))
  }

  function DetectCopiedFrom(ts: seq<Fact>, initial: seq<Fact>, targetKeys: set<string>, initialKeys: set<string>): (r: seq<CopyRec>)
    ensures forall c :: c in r ==> exists t :: t in ts && CopyOf(t, initial, targetKeys, initialKeys) == Some(c)
    ensures forall t :: t in ts && CopyOf(t, initial, targetKeys, initialKeys).Some? ==>
      CopyOf(t, initial, targetKeys, initialKeys).value in r
  {
    if ts == [] then []
    else
      var rest := DetectCopiedFrom(ts[1..], initial, targetKeys, initialKeys);
      assert forall x :: x in ts <==> x == ts[0] || x in ts[1..];
      match CopyOf(ts[0], initial, targetKeys, initialKeys)
      case None => rest
      case Some(c) => [c] + rest
  }

  /**
    * detectCopiedItems: a target item whose new path is absent from the
    * initial snapshot copies the first same-kind, same-name initial item that
    * is still present in the target.
    */
  function DetectCopied(initial: seq<Fact>, target: seq<Fact>): (r: seq<CopyRec>)
    ensures forall c :: c in r ==> IsCopy(c, initial, target) && c.from != c.to
    ensures forall c :: c in r ==>
      exists t :: t in target && CopySourceIndex(t, initial, FlatPathSet(target)).Some? &&
        c.from == initial[CopySourceIndex(t, initial, FlatPathSet(target)).value].path &&
        c == CopyRec(t.kind, t.name, c.from, t.path)
  {
    var r := DetectCopiedFrom(target, initial, FlatPathSet(target), FlatPathSet(initial));
    forall c | c in r
      ensures IsCopy(c, initial, target) && c.from != c.to
    {
      var t :| t in target && CopyOf(t, initial, FlatPathSet(target), FlatPathSet(initial)) == Some(c);
      CopyOfIsCopy(t, initial, target, c);
    }
    r
  }

  /** A recorded copy names its first source, which is still in the target, and a target item at a new path. */
  lemma CopyOfIsCopy(t: Fact, initial: seq<Fact>, target: seq<Fact>, c: CopyRec)
    requires t in target && CopyOf(t, initial, FlatPathSet(target), FlatPathSet(initial)) == Some(c)
    ensures IsCopy(c, initial, target) && c.from != c.to
  {
    var k := CopySourceIndex(t, initial, FlatPathSet(target)).value;
    assert initial[k] in initial;
  }

  /**
    * Every target item whose path is new and whose first same-kind,
    * same-name source still present in the target sits elsewhere is recorded
    * as a copy of that source.
    */
  lemma CopyRecorded(initial: seq<Fact>, target: seq<Fact>, t: Fact)
    requires t in target && FactKey(t) !in FlatPathSet(initial)
    requires CopySourceIndex(t, initial, FlatPathSet(target)).Some?
    requires NormalizePath(initial[CopySourceIndex(t, initial, FlatPathSet(target)).value].path) != NormalizePath(t.path)
    ensures CopyRec(t.kind, t.name, initial[CopySourceIndex(t, initial, FlatPathSet(target)).value].path, t.path)
      in DetectCopied(initial, target)
  {
  }

  // --- Bin restores and permanent deletes ------------------------------------------


  /** The record for a bin key: its type, its path and the path's last segment. */
  function BinRecOf(key: string): BinRec
  {
    var (kind, path) := SplitPathKey(key);
    BinRec(kind, path, NameFromPath(path))
  }

  /** A record rebuilt into a key gives back the key it came from. */
  lemma BinRecOfRejoins(key: string)
    requires '|' in key
    ensures BinRecOf(key).kind + "|" + BinRecOf(key).path == key
  {
    SplitPathKeyRejoins(key);
  }

  /** One record per key, in order. */
  function BinRecs(keys: seq<string>): (r: seq<BinRec>)
    ensures |r| == |keys|
    ensures forall x :: x in r ==> exists k :: k in keys && x == BinRecOf(k)
  {
    if keys == [] then []
    else
      var init, last := keys[..|keys| - 1], keys[|keys| - 1];
      var r := BinRecs(init) + [BinRecOf(last)];
      assert forall x :: x in r ==> x in BinRecs(init) || x == BinRecOf(last);
      assert forall k :: k in init ==> k in keys;
      assert last in keys;
      r
  }

  /** Restored: in the initial bin, now in the target snapshot and not in the target bin. */
  predicate RestoredKey(key: string, targetPaths: set<string>, targetBin: seq<string>)
  {
    key in targetPaths && key !in targetBin
  }

  /** Permanently deleted from the bin: in the initial bin, now in neither the snapshot nor the bin. */
  predicate BinDeletedKey(key: string, targetPaths: set<string>, targetBin: seq<string>)
  {
    key !in targetPaths && key !in targetBin
  }

  /** The initial-bin keys that were restored, in bin order. */
  function RestoredKeys(initialBin: seq<string>, targetPaths: set<string>, targetBin: seq<string>): (r: seq<string>)
    ensures forall k :: k in r <==> k in initialBin && RestoredKey(k, targetPaths, targetBin)
  {
    Filter(initialBin, k => RestoredKey(k, targetPaths, targetBin))
  }

  /** The initial-bin keys that were emptied from the bin, in bin order. */
  function BinDeletedKeys(initialBin: seq<string>, targetPaths: set<string>, targetBin: seq<string>): (r: seq<string>)
    ensures forall k :: k in r <==> k in initialBin && BinDeletedKey(k, targetPaths, targetBin)
  {
    Filter(initialBin, k => BinDeletedKey(k, targetPaths, targetBin))
  }

  /**
    * No bin key is both restored and emptied, and since every key holds a
    * "|", no restored record has the type and path of an emptied one.
    */
  lemma BinRecordsDisjoint(initialBin: seq<string>, targetPaths: set<string>, targetBin: seq<string>)
    requires forall k :: k in initialBin ==> '|' in k
    ensures forall k :: k in RestoredKeys(initialBin, targetPaths, targetBin) ==>
      k !in BinDeletedKeys(initialBin, targetPaths, targetBin)
    ensures forall r, q :: r in BinRecs(RestoredKeys(initialBin, targetPaths, targetBin)) &&
                           q in BinRecs(BinDeletedKeys(initialBin, targetPaths, targetBin)) ==>
      (r.kind, r.path) != (q.kind, q.path)
  {
    var restored := RestoredKeys(initialBin, targetPaths, targetBin);
    var deleted := BinDeletedKeys(initialBin, targetPaths, targetBin);
    var rs, qs := BinRecs(restored), BinRecs(deleted);
    forall r, q | r in rs && q in qs
      ensures (r.kind, r.path) != (q.kind, q.path)
    {
      var a :| a in restored && r == BinRecOf(a);
      var b :| b in deleted && q == BinRecOf(b);
      BinRecOfRejoins(a);
      BinRecOfRejoins(b);
    }
  }

  // --- Added and removed --------------------------------------------------------------

  function TypeNameKeys(flat: seq<Fact>): set<(NodeKind, string)>
  {
    set f | f in flat :: (f.kind, f.name)
  }

  /** The per-item test of detectAddedItems. */
  predicate AddedItem(item: Fact, initialKeys: set<(NodeKind, string)>, renamedTo: set<string>, excluded: set<string>)
  {
    item.path !in renamedTo && item.path + [Sep] + item.name !in renamedTo &&
    item.path !in excluded && NormalizePath(item.path) !in excluded &&
    (item.kind, item.name) !in initialKeys
  }

  /**
    * detectAddedItems: target items whose `type:name` is absent from the
    * initial snapshot, except rename targets and excluded paths.
    */
  function DetectAdded(target: seq<Fact>, initial: seq<Fact>, renamedTo: set<string>, excluded: set<string>): (r: seq<Fact>)
    ensures forall x :: x in r <==> x in target && AddedItem(x, TypeNameKeys(initial), renamedTo, excluded)
  {
    Filter(target, item => AddedItem(item, TypeNameKeys(initial), renamedTo, excluded))
  }

  /** The per-item test of detectRemovedItems. */
  predicate RemovedItem(item: Fact, target: seq<Fact>, renamedPaths: set<string>, movedPaths: set<string>)
  {
    item.path !in movedPaths && item.path !in renamedPaths &&
    !(exists t :: t in target && t.path == item.path)
  }

  /** detectRemovedItems: initial items with no target at their path, rename and move participants aside. */
  function DetectRemoved(initial: seq<Fact>, target: seq<Fact>, renamedPaths: set<string>, movedPaths: set<string>): (r: seq<Fact>)
    ensures forall x :: x in r <==> x in initial && RemovedItem(x, target, renamedPaths, movedPaths)
  {
    Filter(initial, item => RemovedItem(item, target, renamedPaths, movedPaths))
  }

  /** A removal that went to the bin: its key is binned, or a binned folder is a strict ancestor. */
  predicate SoftRemoved(item: Fact, targetBinKeys: seq<string>, targetBinFolders: set<string>)
  {
    FactKey(item) in targetBinKeys ||
    exists f :: f in targetBinFolders && IsDescendantPath(item.path, f)
  }

  /** The removals that went to the bin, in order. */
  function SoftRemovals(candidates: seq<Fact>, targetBinKeys: seq<string>, targetBinFolders: set<string>): (r: seq<Fact>)
    ensures forall x :: x in r <==> x in candidates && SoftRemoved(x, targetBinKeys, targetBinFolders)
  {
    Filter(candidates, item => SoftRemoved(item, targetBinKeys, targetBinFolders))
  }

  /** The removals that bypassed the bin, in order. */
  function PermanentRemovals(candidates: seq<Fact>, targetBinKeys: seq<string>, targetBinFolders: set<string>): (r: seq<Fact>)
    ensures forall x :: x in r <==> x in candidates && !SoftRemoved(x, targetBinKeys, targetBinFolders)
  {
    Filter(candidates, item => !SoftRemoved(item, targetBinKeys, targetBinFolders))
  }

  /**
    * The removal candidates are split with nothing lost or duplicated: the
    * soft and the permanent removals together are exactly the candidates.
    */
  lemma RemovedPartition(candidates: seq<Fact>, targetBinKeys: seq<string>, targetBinFolders: set<string>)
    ensures multiset(SoftRemovals(candidates, targetBinKeys, targetBinFolders)) +
            multiset(PermanentRemovals(candidates, targetBinKeys, targetBinFolders)) == multiset(candidates)
  {
    FilterPartition(candidates, item => SoftRemoved(item, targetBinKeys, targetBinFolders),
                    item => !SoftRemoved(item, targetBinKeys, targetBinFolders));
  }

  // --- Excluded target paths ----------------------------------------------------------

  /** The paths addExcludedPath leaves behind for a list: each non-empty path, as given and normalized. */
  function Exclusions(paths: seq<string>): (r: set<string>)
    ensures forall p :: p in paths && p != "" ==> p in r && NormalizePath(p) in r
  {
    if paths == [] then {}
    else
      var init, p := paths[..|paths| - 1], paths[|paths| - 1];
      assert forall q :: q in paths ==> q in init || q == p;
      Exclusions(init) + (if p != "" then {p, NormalizePath(p)} else {})
  }

  lemma {:induction false} ExclusionsAppend(a: seq<string>, b: seq<string>)
    ensures Exclusions(a + b) == Exclusions(a) + Exclusions(b)
    decreases |b|
  {
    if b != [] {
      var init := b[..|b| - 1];
      assert (a + b)[..|a + b| - 1] == a + init;
      ExclusionsAppend(a, init);
    } else {
      assert a + b == a;
    }
  }

  /**
    * The paths that moves (files, then folders), renames and copies write to,
    * in the order the source adds them to the excluded target paths.
    */
  function ChangeTargets(moved: seq<MoveRec>, movedFolders: seq<MoveRec>, renamed: seq<RenameRec>, copied: seq<CopyRec>): (r: seq<string>)
    ensures |r| == |moved| + |movedFolders| + |renamed| + |copied|
    ensures forall m :: m in moved + movedFolders ==> m.to in r
    ensures forall x :: x in renamed ==> x.to in r
    ensures forall c :: c in copied ==> c.to in r
    decreases |moved| + |movedFolders| + |renamed| + |copied|
  {
    if copied != [] then
      var init := copied[..|copied| - 1];
      assert forall c :: c in copied ==> c in init || c == copied[|copied| - 1];
      ChangeTargets(moved, movedFolders, renamed, init) + [copied[|copied| - 1].to]
    else if renamed != [] then
      var init := renamed[..|renamed| - 1];
      assert forall x :: x in renamed ==> x in init || x == renamed[|renamed| - 1];
      ChangeTargets(moved, movedFolders, init, []) + [renamed[|renamed| - 1].to]
    else if movedFolders != [] then
      var init := movedFolders[..|movedFolders| - 1];
      assert forall m :: m in moved + movedFolders ==> m in moved + init || m == movedFolders[|movedFolders| - 1];
      ChangeTargets(moved, init, [], []) + [movedFolders[|movedFolders| - 1].to]
    else if moved != [] then
      var init := moved[..|moved| - 1];
      assert forall m :: m in moved + movedFolders ==> m in init + [] || m == moved[|moved| - 1];
      ChangeTargets(init, [], [], []) + [moved[|moved| - 1].to]
    else []
  }

  /** The path of each bin record, in order. */
  function BinPaths(xs: seq<BinRec>): (r: seq<string>)
    ensures |r| == |xs| && forall x :: x in xs ==> x.path in r
  {
    if xs == [] then []
    else
      var init := xs[..|xs| - 1];
      assert forall x :: x in xs ==> x in init || x == xs[|xs| - 1];
      BinPaths(init) + [xs[|xs| - 1].path]
  }

  /** excludedTargetPaths once every phase has added to it. */
  function ExcludedTargets(d: Diffs): set<string>
  {
    Exclusions(ChangeTargets(d.moved, d.movedFolders, d.renamed, d.copied) + BinPaths(d.restored))
  }

  /** addExcludedPath applied to each path in turn. */
  method AddExcludedPaths(excluded: set<string>, paths: seq<string>) returns (r: set<string>)
    ensures r == excluded + Exclusions(paths)
  {
    r := excluded;
    var i := 0;
    while i < |paths|
      invariant 0 <= i <= |paths|
      invariant r == excluded + Exclusions(paths[..i])
    {
      var p := paths[i];
      assert paths[..i + 1][..i] == paths[..i];
      if p != "" {
        r := r + {p, NormalizePath(p)};
      }
      i := i + 1;
    }
    assert paths[..i] == paths;
  }

  /** Restoring one more key appends its record. */
  lemma RestoredKeysSnoc(keys: seq<string>, key: string, targetPaths: set<string>, targetBin: seq<string>)
    ensures RestoredKeys(keys + [key], targetPaths, targetBin) ==
      RestoredKeys(keys, targetPaths, targetBin) + (if RestoredKey(key, targetPaths, targetBin) then [key] else [])
  {
    assert (keys + [key])[..|keys|] == keys;
  }

  lemma BinDeletedKeysSnoc(keys: seq<string>, key: string, targetPaths: set<string>, targetBin: seq<string>)
    ensures BinDeletedKeys(keys + [key], targetPaths, targetBin) ==
      BinDeletedKeys(keys, targetPaths, targetBin) + (if BinDeletedKey(key, targetPaths, targetBin) then [key] else [])
  {
    assert (keys + [key])[..|keys|] == keys;
  }

  lemma BinRecsSnoc(keys: seq<string>, key: string)
    ensures BinRecs(keys + [key]) == BinRecs(keys) + [BinRecOf(key)]
  {
    assert (keys + [key])[..|keys|] == keys;
  }

  /** The restore pass: one record per key restored from the bin, in bin order. */
  method CollectRestored(initialBinSet: seq<string>, targetPathSet: set<string>, targetBinSet: seq<string>)
    returns (restored: seq<BinRec>)
    ensures restored == BinRecs(RestoredKeys(initialBinSet, targetPathSet, targetBinSet))
  {
    restored := [];
    var i := 0;
    while i < |initialBinSet|
      invariant 0 <= i <= |initialBinSet|
      invariant restored == BinRecs(RestoredKeys(initialBinSet[..i], targetPathSet, targetBinSet))
    {
      var key := initialBinSet[i];
      PrefixSnoc(initialBinSet, i);
      RestoredKeysSnoc(initialBinSet[..i], key, targetPathSet, targetBinSet);
      if key in targetPathSet && key !in targetBinSet {
        BinRecsSnoc(RestoredKeys(initialBinSet[..i], targetPathSet, targetBinSet), key);
        restored := restored + [BinRecOf(key)];
      }
      i := i + 1;
    }
    assert initialBinSet[..i] == initialBinSet;
  }

  /** The bin permanent-delete pass: one record per key gone from both the snapshot and the bin. */
  method CollectBinDeleted(initialBinSet: seq<string>, targetPathSet: set<string>, targetBinSet: seq<string>)
    returns (deleted: seq<BinRec>)
    ensures deleted == BinRecs(BinDeletedKeys(initialBinSet, targetPathSet, targetBinSet))
  {
    deleted := [];
    var i := 0;
    while i < |initialBinSet|
      invariant 0 <= i <= |initialBinSet|
      invariant deleted == BinRecs(BinDeletedKeys(initialBinSet[..i], targetPathSet, targetBinSet))
    {
      var key := initialBinSet[i];
      ghost var done := BinDeletedKeys(initialBinSet[..i], targetPathSet, targetBinSet);
      PrefixSnoc(initialBinSet, i);
      BinDeletedKeysSnoc(initialBinSet[..i], key, targetPathSet, targetBinSet);
      if key !in targetPathSet && key !in targetBinSet {
        BinRecsSnoc(done, key);
        deleted := deleted + [BinRecOf(key)];
      }
      i := i + 1;
    }
    assert initialBinSet[..i] == initialBinSet;
  }

  /** The removed split: a binned key or a binned ancestor folder makes a removal soft. */
  method SplitRemoved(candidates: seq<Fact>, targetBinKeys: seq<string>, targetBinFolders: set<string>)
    returns (removed: seq<Fact>, removedPermanent: seq<Fact>)
    ensures removed == SoftRemovals(candidates, targetBinKeys, targetBinFolders)
    ensures removedPermanent == PermanentRemovals(candidates, targetBinKeys, targetBinFolders)
  {
    removed := [];
    removedPermanent := [];
    var i := 0;
    while i < |candidates|
      invariant 0 <= i <= |candidates|
      invariant removed == SoftRemovals(candidates[..i], targetBinKeys, targetBinFolders)
      invariant removedPermanent == PermanentRemovals(candidates[..i], targetBinKeys, targetBinFolders)
    {
      var item := candidates[i];
      assert candidates[..i + 1][..i] == candidates[..i];
      if FactKey(item) in targetBinKeys {
        removed := removed + [item];
      } else if exists f :: f in targetBinFolders && IsDescendantPath(item.path, f) {
        removed := removed + [item];
      } else {
        removedPermanent := removedPermanent + [item];
      }
      i := i + 1;
    }
    assert candidates[..i] == candidates;
  }

  /**
    * What interpretDiffsFromFlats computes: the phases in the source's order,
    * each category the detector's output, and `added` computed against the
    * paths excluded by moves, renames, copies and restores.
    */
  function InterpretedDiffs(initial: seq<Fact>, target: seq<Fact>, initialBin: seq<BinEntry>, targetBin: seq<BinEntry>): (r: Diffs)
    ensures forall x :: x in r.added ==> x in target && forall f :: f in initial ==> (f.kind, f.name) != (x.kind, x.name)
    ensures forall x :: x in r.removed + r.removedPermanent ==> x in initial && forall t :: t in target ==> t.path != x.path
  {
    var renamed := DetectRenames(initial, target);
    var moved := DetectMoved(File, initial, target);
    var movedFolders := DetectMoved(Folder, initial, target);
    var copied := DetectCopied(initial, target);
    var initialBinSet, targetBinSet := BuildRecycleBinPathSet(initialBin), BuildRecycleBinPathSet(targetBin);
    var targetPathSet := FlatPathSet(target);
    var restored := BinRecs(RestoredKeys(initialBinSet, targetPathSet, targetBinSet));
    var binDeleted := BinRecs(BinDeletedKeys(initialBinSet, targetPathSet, targetBinSet));
    var excluded := Exclusions(ChangeTargets(moved, movedFolders, renamed, copied) + BinPaths(restored));
    var added := DetectAdded(target, initial, RenamedTo(renamed), excluded);
    var candidates := DetectRemoved(initial, target, RenamedPaths(renamed), MovedPaths(moved + movedFolders));
    var binFolders := BuildRecycleBinFolderPathSet(targetBin);
    Diffs(added, SoftRemovals(candidates, targetBinSet, binFolders), PermanentRemovals(candidates, targetBinSet, binFolders),
          moved, movedFolders, renamed, copied, restored, binDeleted)
  }

  /** interpretDiffsFromFlats fills the diff record phase by phase and grows the excluded set in place. */
  method InterpretDiffsFromFlats(initial: seq<Fact>, target: seq<Fact>,
                                 initialBin: seq<BinEntry>, targetBin: seq<BinEntry>) returns (d: Diffs)
    ensures d == InterpretedDiffs(initial, target, initialBin, targetBin)
  {
    // Rename detection (priority 1)
    var renamed := DetectRenames(initial, target);
    // Moved files and folders (priority 2)
    var moved := DetectMoved(File, initial, target);
    var movedFolders := DetectMoved(Folder, initial, target);

    // Copies
    var copied := DetectCopied(initial, target);

    // excludedTargetPaths: move, rename and copy targets
    var targets := ChangeTargets(moved, movedFolders, renamed, copied);
    var excluded := AddExcludedPaths({}, targets);

    // Recycle-bin interpretation
    var initialBinSet := BuildRecycleBinPathSet(initialBin);
    var targetBinSet := BuildRecycleBinPathSet(targetBin);
    var targetPathSet := FlatPathSet(target);
    var restored := CollectRestored(initialBinSet, targetPathSet, targetBinSet);
    excluded := AddExcludedPaths(excluded, BinPaths(restored));
    var binPermanentlyDeleted := CollectBinDeleted(initialBinSet, targetPathSet, targetBinSet);

    // Added, against everything excluded so far
    ExclusionsAppend(targets, BinPaths(restored));
    assert excluded == Exclusions(targets + BinPaths(restored));
    var added := DetectAdded(target, initial, RenamedTo(renamed), excluded);

    // Removed, split into soft (into the bin) and permanent
    var candidates := DetectRemoved(initial, target, RenamedPaths(renamed), MovedPaths(moved + movedFolders));
    var removed, removedPermanent := SplitRemoved(candidates, targetBinSet, BuildRecycleBinFolderPathSet(targetBin));

    d := Diffs(added, removed, removedPermanent, moved, movedFolders, renamed, copied, restored, binPermanentlyDeleted);
  }

  // --- Properties of the classification --------------------------------------------------

  /**
    * Every added item is a target item whose `type:name` is absent from the
    * initial snapshot and whose path is not the (non-empty) target of a move,
    * rename, copy or restore.
    */
  lemma AddedItemsAreNew(initial: seq<Fact>, target: seq<Fact>, initialBin: seq<BinEntry>, targetBin: seq<BinEntry>, x: Fact)
    requires x in InterpretedDiffs(initial, target, initialBin, targetBin).added
    ensures var d := InterpretedDiffs(initial, target, initialBin, targetBin);
      x in target &&
      (forall f :: f in initial ==> (f.kind, f.name) != (x.kind, x.name)) &&
      (forall m :: m in d.moved + d.movedFolders && m.to != "" ==> x.path != m.to) &&
      (forall r :: r in d.renamed ==> x.path != r.to) &&
      (forall c :: c in d.copied && c.to != "" ==> x.path != c.to) &&
      (forall b :: b in d.restored && b.path != "" ==> x.path != b.path)
  {
    var d := InterpretedDiffs(initial, target, initialBin, targetBin);
    var all := ChangeTargets(d.moved, d.movedFolders, d.renamed, d.copied) + BinPaths(d.restored);
    assert d.added == DetectAdded(target, initial, RenamedTo(d.renamed), Exclusions(all));
    assert forall m :: m in d.moved + d.movedFolders ==> m.to in all;
    assert forall r :: r in d.renamed ==> r.to in all;
    assert forall c :: c in d.copied ==> c.to in all;
    assert forall b :: b in d.restored ==> b.path in all;
  }

  /**
    * The removal candidates (initial items with nothing at their path in the
    * target, outside every rename and move) are split with nothing lost or
    * duplicated: soft removals are binned, by key or under a binned folder,
    * and permanent removals are not.
    */
  lemma RemovedClassified(initial: seq<Fact>, target: seq<Fact>, initialBin: seq<BinEntry>, targetBin: seq<BinEntry>)
    ensures var d := InterpretedDiffs(initial, target, initialBin, targetBin);
      var candidates := DetectRemoved(initial, target, RenamedPaths(d.renamed), MovedPaths(d.moved + d.movedFolders));
      multiset(d.removed) + multiset(d.removedPermanent) == multiset(candidates) &&
      (forall x :: x in candidates ==>
        x in initial && x.path !in RenamedPaths(d.renamed) && x.path !in MovedPaths(d.moved + d.movedFolders) &&
        forall t :: t in target ==> t.path != x.path) &&
      (forall x :: x in d.removed ==> SoftRemoved(x, BuildRecycleBinPathSet(targetBin), BuildRecycleBinFolderPathSet(targetBin))) &&
      (forall x :: x in d.removedPermanent ==> !SoftRemoved(x, BuildRecycleBinPathSet(targetBin), BuildRecycleBinFolderPathSet(targetBin)))
  {
    var d := InterpretedDiffs(initial, target, initialBin, targetBin);
    var candidates := DetectRemoved(initial, target, RenamedPaths(d.renamed), MovedPaths(d.moved + d.movedFolders));
    RemovedPartition(candidates, BuildRecycleBinPathSet(targetBin), BuildRecycleBinFolderPathSet(targetBin));
  }

  /**
    * Restored records and records emptied from the bin both come from
    * complete initial-bin entries; a restored item is back in the target
    * snapshot, an emptied one is not, and neither is in the target bin.
    * No restored record has the type and path of an emptied one.
    */
  lemma BinRecordsClassified(initial: seq<Fact>, target: seq<Fact>, initialBin: seq<BinEntry>, targetBin: seq<BinEntry>)
    ensures var d := InterpretedDiffs(initial, target, initialBin, targetBin);
      (forall r :: r in d.restored ==>
        (exists e :: e in initialBin && CompleteBinEntry(e) && BinKey(e) == r.kind + "|" + r.path) &&
        r.kind + "|" + r.path in FlatPathSet(target) && r.kind + "|" + r.path !in BuildRecycleBinPathSet(targetBin)) &&
      (forall r :: r in d.binPermanentlyDeleted ==>
        (exists e :: e in initialBin && CompleteBinEntry(e) && BinKey(e) == r.kind + "|" + r.path) &&
        r.kind + "|" + r.path !in FlatPathSet(target) && r.kind + "|" + r.path !in BuildRecycleBinPathSet(targetBin)) &&
      (forall r, q :: r in d.restored && q in d.binPermanentlyDeleted ==> (r.kind, r.path) != (q.kind, q.path))
  {
    var d := InterpretedDiffs(initial, target, initialBin, targetBin);
    var initialBinSet, targetBinSet := BuildRecycleBinPathSet(initialBin), BuildRecycleBinPathSet(targetBin);
    var targetPathSet := FlatPathSet(target);
    BinRecordsDisjoint(initialBinSet, targetPathSet, targetBinSet);
    forall r | r in d.restored
      ensures (exists e :: e in initialBin && CompleteBinEntry(e) && BinKey(e) == r.kind + "|" + r.path) &&
        r.kind + "|" + r.path in targetPathSet && r.kind + "|" + r.path !in targetBinSet
    {
      var k :| k in RestoredKeys(initialBinSet, targetPathSet, targetBinSet) && r == BinRecOf(k);
      BinRecOfRejoins(k);
    }
    forall r | r in d.binPermanentlyDeleted
      ensures (exists e :: e in initialBin && CompleteBinEntry(e) && BinKey(e) == r.kind + "|" + r.path) &&
        r.kind + "|" + r.path !in targetPathSet && r.kind + "|" + r.path !in targetBinSet
    {
      var k :| k in BinDeletedKeys(initialBinSet, targetPathSet, targetBinSet) && r == BinRecOf(k);
      BinRecOfRejoins(k);
    }
  }
}
