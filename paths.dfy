/**
  * The path model of the simulated file system.
  *
  * Paths are absolute and backslash-separated and start with a root name
  * ("C:", "OneDrive"); root paths and folder paths carry no trailing
  * backslash. Two virtual locations sit above the roots: "This PC" (the
  * root listing) and "Recycle Bin". The legacy single-root helpers
  * (`getParentPath`, `joinPath`) are kept beside the multi-root ones because
  * the evaluator still calls them.
  */
module Paths {
  import opened Wrappers
  import opened Text

  const Sep: char := '\\'
  const ThisPC: string := "This PC"
  const RecycleBinLocation: string := "Recycle Bin"

  predicate IsSpecialLocation(path: string)
  {
    path == ThisPC || path == RecycleBinLocation
  }

  /** The path holds a character other than the separator (so it has a non-empty segment). */
  predicate HasNonSep(path: string)
  {
    exists i :: 0 <= i < |path| && path[i] != Sep
  }

  /** getNameFromPath: the last segment, i.e. everything after the last backslash. */
  function NameFromPath(path: string): (name: string)
    ensures Sep !in name
    ensures name == path[LastIndexOf(path, Sep) + 1..]
  {
    var k := LastIndexOf(path, Sep);
    path[k + 1..]
  }

  /** The name is the last part of `path.split("\\")`, the part the source pops. */
  lemma NameIsLastPart(path: string)
    ensures var parts := Split(path, Sep); NameFromPath(path) == parts[|parts| - 1]
  {
    var k := LastIndexOf(path, Sep);
    var parts := Split(path, Sep);
    if k < 0 {
      assert parts == [path];
    } else {
      var front := Split(path[..k], Sep);
      assert parts == front + [path[k + 1..]];
      assert parts[|front|] == path[k + 1..];
    }
  }

  /**
    * getParentPath, the legacy single-root form: "C:" has no parent, a
    * one-segment path has parent "C:", and otherwise the last segment is dropped.
    */
  function ParentPath(path: string): (r: Option<string>)
    ensures r.None? <==> path == "C:"
    ensures r.Some? ==> r.value != ""
    ensures path != "C:" && LastIndexOf(path, Sep) > 0 ==> r == Some(path[..LastIndexOf(path, Sep)])
    ensures path != "C:" && LastIndexOf(path, Sep) <= 0 ==> r == Some("C:")
  {
    if path == "C:" then None
    else
      var parts := Split(path, Sep);
      var joined := Join(parts[..|parts| - 1], Sep);
      DropLastSegment(path);
      Some(if joined == "" then "C:" else joined)
  }

  /** Dropping the last part of a split and joining the rest leaves what precedes the last backslash. */
  lemma DropLastSegment(path: string)
    ensures var parts := Split(path, Sep); var k := LastIndexOf(path, Sep);
      Join(parts[..|parts| - 1], Sep) == if k >= 0 then path[..k] else ""
  {
    var parts := Split(path, Sep);
    var k := LastIndexOf(path, Sep);
    if k >= 0 {
      JoinSplit(path[..k], Sep);
      assert parts[..|parts| - 1] == Split(path[..k], Sep);
    }
  }

  /**
    * joinPath, the legacy form. The source special-cases a parent of "C:",
    * but both of its branches build the same string.
    */
  function JoinPath(parent: string, name: string): string
  {
    parent + [Sep] + name
  }

  /** The non-empty segments of a path (`split("\\").filter(Boolean)`). */
  function NonEmptySegments(path: string): seq<string>
  {
    NonEmptyOnly(Split(path, Sep))
  }

  function NonEmptyOnly(parts: seq<string>): (r: seq<string>)
    ensures |r| <= |parts|
    ensures forall i :: 0 <= i < |r| ==> r[i] != ""
  {
    if parts == [] then []
    else
      var last := parts[|parts| - 1];
      NonEmptyOnly(parts[..|parts| - 1]) + (if last == "" then [] else [last])
  }

  /** getRootFromPath: the first non-empty segment of an ordinary path. */
  function RootFromPath(path: string): (r: Option<string>)
    ensures r.Some? ==> r.value != "" && Sep !in r.value
  {
    if path == "" || IsSpecialLocation(path) then None
    else
      var segs := NonEmptySegments(path);
      if segs == [] then None
      else
        assert segs[0] in NonEmptyOnly(Split(path, Sep));
        NonEmptyOnlyElements(Split(path, Sep), segs[0]);
        Some(segs[0])
  }

  lemma {:induction false} NonEmptyOnlyElements(parts: seq<string>, x: string)
    requires x in NonEmptyOnly(parts)
    ensures x in parts
  {
    if parts != [] {
      var last := parts[|parts| - 1];
      if x != last {
        NonEmptyOnlyElements(parts[..|parts| - 1], x);
      }
    }
  }

  /** isRootPath: an ordinary path with exactly one non-empty segment ("C:", "OneDrive"). */
  predicate IsRootPath(path: string)
    ensures IsRootPath(path) ==> RootFromPath(path).Some? && NonEmptySegments(path) == [RootFromPath(path).value]
  {
    path != "" && !IsSpecialLocation(path) && |NonEmptySegments(path)| == 1
  }

  /** A root's own name ("C:", "OneDrive") is a root path naming that root. */
  lemma RootNameIsRootPath(n: string)
    requires n != "" && Sep !in n && !IsSpecialLocation(n)
    ensures IsRootPath(n) && RootFromPath(n) == Some(n)
  {
    SplitJoin([n], Sep);
    assert Join([n], Sep) == n;
    assert NonEmptyOnly([n]) == NonEmptyOnly([]) + [n];
  }

  /**
    * getParentPathMultiRoot: "This PC" has no parent, "Recycle Bin" and every
    * root sit under "This PC", and otherwise the last segment is dropped.
    */
  function ParentPathMultiRoot(path: string): (r: Option<string>)
    ensures r.None? <==> path == ThisPC
    ensures path == RecycleBinLocation || IsRootPath(path) ==> r == Some(ThisPC)
    ensures !IsSpecialLocation(path) && !IsRootPath(path) && Sep in path ==>
              r.Some? && path == r.value + [Sep] + NameFromPath(path)
  {
    if path == ThisPC then None
    else if path == RecycleBinLocation then Some(ThisPC)
    else if IsRootPath(path) then Some(ThisPC)
    else
      var parts := Split(path, Sep);
      var k := LastIndexOf(path, Sep);
      if k >= 0 then
        JoinSplit(path[..k], Sep);
        assert parts[..|parts| - 1] == Split(path[..k], Sep);
        assert path == path[..k] + [Sep] + path[k + 1..];
        Some(Join(parts[..|parts| - 1], Sep))
      else
        Some(Join(parts[..|parts| - 1], Sep))
  }

  /**
    * joinPathMultiRoot: under "This PC" (or no parent) a child path is its
    * bare name; otherwise the name follows the parent and a backslash.
    */
  function JoinPathMultiRoot(parent: string, name: string): (r: string)
    ensures parent == "" || parent == ThisPC ==> r == name
    ensures |name| <= |r| && r[|r| - |name|..] == name
  {
    if parent == "" || parent == ThisPC then name
    else parent + [Sep] + name
  }

  /** A name without a backslash is the joined path's last segment. */
  lemma NameOfJoin(parent: string, name: string)
    requires Sep !in name
    ensures NameFromPath(JoinPathMultiRoot(parent, name)) == name
  {
    if parent != "" && parent != ThisPC {
      LastSepOfJoin(parent, name);
    }
  }

  /** The separator put between a parent and a backslash-free name is the last one. */
  lemma LastSepOfJoin(a: string, b: string)
    requires Sep !in b
    ensures LastIndexOf(a + [Sep] + b, Sep) == |a|
  {
    var s := a + [Sep] + b;
    var k := LastIndexOf(s, Sep);
    assert s[|a|] == Sep && s[|a| + 1..] == b;
  }

  lemma {:induction false} NonEmptySegmentsOfNonSep(p: string)
    requires HasNonSep(p)
    ensures |NonEmptySegments(p)| >= 1
    decreases |p|
  {
    var k := LastIndexOf(p, Sep);
    if k >= 0 {
      var rest := p[k + 1..];
      assert Split(p, Sep) == Split(p[..k], Sep) + [rest];
      assert Split(p, Sep)[..|Split(p, Sep)| - 1] == Split(p[..k], Sep);
      if rest == "" {
        var i :| 0 <= i < |p| && p[i] != Sep;
        assert i < k;
        assert p[..k][i] == p[i];
        NonEmptySegmentsOfNonSep(p[..k]);
      }
    }
  }

  /**
    * Parent and name invert the multi-root join: for a parent with a
    * non-empty segment (other than "This PC") and a non-empty name without a
    * backslash, the parent of `join(p, n)` is `p` and its name is `n`.
    */
  lemma ParentOfJoin(p: string, n: string)
    requires p != ThisPC && HasNonSep(p)
    requires n != "" && Sep !in n
    ensures ParentPathMultiRoot(JoinPathMultiRoot(p, n)) == Some(p)
    ensures NameFromPath(JoinPathMultiRoot(p, n)) == n
  {
    var s := p + [Sep] + n;
    assert JoinPathMultiRoot(p, n) == s;
    SepJoinIsOrdinary(p, n);
    SplitAppend(p, Sep, n);
    var parts := Split(s, Sep);
    assert parts[..|parts| - 1] == Split(p, Sep);
    JoinSplit(p, Sep);
  }

  /** `p\n` is neither a virtual location nor a root path. */
  lemma SepJoinIsOrdinary(p: string, n: string)
    requires HasNonSep(p)
    requires n != "" && Sep !in n
    ensures !IsSpecialLocation(p + [Sep] + n) && !IsRootPath(p + [Sep] + n)
    ensures NonEmptySegments(p + [Sep] + n) == NonEmptySegments(p) + [n]
  {
    var s := p + [Sep] + n;
    SplitAppend(p, Sep, n);
    var parts := Split(s, Sep);
    assert parts[..|parts| - 1] == Split(p, Sep);
    NonEmptySegmentsOfNonSep(p);
    assert s[|p|] == Sep;
    assert Sep !in ThisPC && Sep !in RecycleBinLocation;
  }

  // --- normalizePath ---------------------------------------------------------

  /** Every forward slash becomes a backslash. */
  function ReplaceSlashes(s: string): (r: string)
    ensures |r| == |s| && '/' !in r
    ensures forall i :: 0 <= i < |s| ==> r[i] == (if s[i] == '/' then Sep else s[i])
  {
    seq(|s|, i requires 0 <= i < |s| => if s[i] == '/' then Sep else s[i])
  }

  /** Drops the trailing run of backslashes (`replace(/\\+$/, "")`). */
  function StripTrailingSeps(s: string): (r: string)
    ensures |r| <= |s| && r == s[..|r|]
    ensures r == [] || r[|r| - 1] != Sep
    ensures forall i :: |r| <= i < |s| ==> s[i] == Sep
  {
    if |s| > 0 && s[|s| - 1] == Sep then StripTrailingSeps(s[..|s| - 1]) else s
  }

  /**
    * normalizePath: a falsy path gives ""; otherwise slashes are unified to
    * backslashes and trailing backslashes are removed.
    */
  function NormalizePath(path: string): (r: string)
    ensures path == "" ==> r == ""
    ensures '/' !in r
    ensures r == [] || r[|r| - 1] != Sep
    ensures |r| <= |path|
  {
    if path == "" then "" else StripTrailingSeps(ReplaceSlashes(path))
  }

  /** A path that is already in normal form is left alone. */
  lemma NormalizeFixedPoint(r: string)
    requires '/' !in r
    requires r == [] || r[|r| - 1] != Sep
    ensures NormalizePath(r) == r
  {
    if r != "" {
      assert ReplaceSlashes(r) == r;
    }
  }

  /** normalizePath is idempotent. */
  lemma NormalizePathIdempotent(path: string)
    ensures NormalizePath(NormalizePath(path)) == NormalizePath(path)
  {
    NormalizeFixedPoint(NormalizePath(path));
  }

  // --- Protected system folders ----------------------------------------------

  const ProtectedFolders: seq<string> := ["C:\\Desktop", "C:\\Documents", "C:\\Downloads", "OneDrive"]

  /** isProtectedFolderPath: the normalized path is one of the protected folders. */
  predicate IsProtectedFolderPath(path: string)
    ensures IsProtectedFolderPath(path) <==> path != "" && NormalizePath(path) in ProtectedFolders
  {
    ProtectedAreNormal();
    path != "" && NormalizePath(path) in (set p | p in ProtectedFolders :: NormalizePath(p))
  }

  /** Protection does not depend on how the path is spelled (slashes, trailing separators). */
  lemma ProtectedIgnoresSpelling(path: string)
    ensures IsProtectedFolderPath(path) <==> IsProtectedFolderPath(NormalizePath(path))
  {
    NormalizePathIdempotent(path);
    ProtectedAreNormal();
    if IsProtectedFolderPath(path) {
      var q :| q in ProtectedFolders && NormalizePath(q) == NormalizePath(path);
      assert q != "";
    }
  }

  /** The protected folders are written in normal form. */
  lemma ProtectedAreNormal()
    ensures forall q :: q in ProtectedFolders ==> NormalizePath(q) == q && q != ""
  {
    forall q | q in ProtectedFolders ensures NormalizePath(q) == q && q != "" {
      assert '/' !in q && q[|q| - 1] != Sep;
      NormalizeFixedPoint(q);
    }
  }
}
