/**
  * The simulated file-system tree: nodes, the multi-root system root, the
  * flattener that projects a tree to `{id, name, type, path}` facts, and the
  * read-only queries over the tree (lookup by id, by path, item counting,
  * structural comparison, the default root and rename validation).
  */
module Tree {
  import opened Wrappers
  import opened Text
  import opened Paths
  import opened Seqs
  import TaskDsl

  datatype NodeKind = File | Folder

  /**
    * A file or folder. Files ignore `children`; `isZip` and `zipEntries`
    * (the `zipMeta.entries` list, `None` when it is not an array) describe
    * archives. Ids are opaque strings supplied by the caller.
    */
  datatype Node = Node(
    id: string,
    name: string,
    kind: NodeKind,
    children: seq<Node>,
    isZip: bool,
    zipEntries: Option<seq<string>>)

  /**
    * What `flattenStructure` and `findNodeById` accept: a system root
    * `{type:"system", roots}`, a single legacy root folder, or nothing.
    */
  datatype Structure = System(roots: seq<Node>) | Single(root: Node) | Absent

  /** One flat fact: a node seen at one path. */
  datatype Fact = Fact(id: string, name: string, kind: NodeKind, path: string)

  // --- Flattener ---------------------------------------------------------------

  /** The base path a folder's children are joined to (`currentPath || name || "C:"`). */
  function BasePath(currentPath: string, name: string): (b: string)
    ensures b != ""
  {
    if currentPath != "" then currentPath else if name != "" then name else "C:"
  }

  /**
    * flattenStructure below one folder: one fact per child, each followed by
    * the facts of its subtree when it is a folder.
    */
  function FlattenChildren(children: seq<Node>, base: string): seq<Fact>
    decreases children
  {
    if children == [] then []
    else
      var item := children[0];
      var p := JoinPathMultiRoot(base, item.name);
      [Fact(item.id, item.name, item.kind, p)]
        + (if item.kind == Folder then FlattenChildren(item.children, BasePath(p, item.name)) else [])
        + FlattenChildren(children[1..], base)
  }

  /** flattenStructure over the roots of a system root, each seeded with its own name. */
  function FlattenRoots(roots: seq<Node>): seq<Fact>
  {
    if roots == [] then []
    else FlattenChildren(roots[0].children, BasePath(roots[0].name, roots[0].name)) + FlattenRoots(roots[1..])
  }

  /**
    * flattenStructure: one fact per node below the root(s), in pre-order,
    * each root's subtree after the previous root's.
    */
  function Flatten(s: Structure): (r: seq<Fact>)
    ensures s.System? ==> Mirrors(r, DescendantsOfRoots(s.roots))
    ensures s.Single? ==> Mirrors(r, SubtreeNodesList(s.root.children))
    ensures s.Absent? ==> r == []
  {
    match s
    case System(roots) => FlattenRootsIsPreOrder(roots); FlattenRoots(roots)
    case Single(root) =>
      FlattenIsPreOrder(root.children, BasePath("", root.name));
      FlattenChildren(root.children, BasePath("", root.name))
    case Absent => []
  }

  /** The nodes below the roots, root by root, each subtree in pre-order (the roots themselves excluded). */
  function DescendantsOfRoots(roots: seq<Node>): seq<Node>
  {
    if roots == [] then [] else SubtreeNodesList(roots[0].children) + DescendantsOfRoots(roots[1..])
  }

  lemma {:induction false} FlattenRootsIsPreOrder(roots: seq<Node>)
    ensures Mirrors(FlattenRoots(roots), DescendantsOfRoots(roots))
  {
    if roots != [] {
      FlattenIsPreOrder(roots[0].children, BasePath(roots[0].name, roots[0].name));
      FlattenRootsIsPreOrder(roots[1..]);
      MirrorsAppend(FlattenChildren(roots[0].children, BasePath(roots[0].name, roots[0].name)),
                    SubtreeNodesList(roots[0].children), FlattenRoots(roots[1..]), DescendantsOfRoots(roots[1..]));
    }
  }

  /** A node followed by its descendants in pre-order (folders only have descendants). */
  function SubtreeNodes(n: Node): seq<Node>
    decreases n, 1
  {
    [n] + (if n.kind == Folder then SubtreeNodesList(n.children) else [])
  }

  function SubtreeNodesList(cs: seq<Node>): seq<Node>
    decreases cs, 0
  {
    if cs == [] then [] else SubtreeNodes(cs[0]) + SubtreeNodesList(cs[1..])
  }

  /** A fact describes a node when it carries the node's id, name and kind. */
  predicate Mirrors(facts: seq<Fact>, nodes: seq<Node>)
  {
    |facts| == |nodes| &&
    forall i :: 0 <= i < |facts| ==>
      facts[i].id == nodes[i].id && facts[i].name == nodes[i].name && facts[i].kind == nodes[i].kind
  }

  lemma MirrorsAppend(f1: seq<Fact>, n1: seq<Node>, f2: seq<Fact>, n2: seq<Node>)
    requires Mirrors(f1, n1) && Mirrors(f2, n2)
    ensures Mirrors(f1 + f2, n1 + n2)
  {
    forall i | 0 <= i < |f1 + f2|
      ensures (f1 + f2)[i].id == (n1 + n2)[i].id && (f1 + f2)[i].name == (n1 + n2)[i].name
           && (f1 + f2)[i].kind == (n1 + n2)[i].kind
    {
      if i >= |f1| {
        assert (f1 + f2)[i] == f2[i - |f1|] && (n1 + n2)[i] == n2[i - |n1|];
      }
    }
  }

  /**
    * The flattener emits exactly one fact per node below the given folder
    * level, in pre-order, carrying that node's id, name and kind.
    */
  lemma {:induction false} FlattenIsPreOrder(cs: seq<Node>, base: string)
    ensures Mirrors(FlattenChildren(cs, base), SubtreeNodesList(cs))
    decreases cs
  {
    if cs != [] {
      var item := cs[0];
      var p := JoinPathMultiRoot(base, item.name);
      var head: seq<Fact> := [Fact(item.id, item.name, item.kind, p)];
      FlattenIsPreOrder(cs[1..], base);
      if item.kind == Folder {
        FlattenIsPreOrder(item.children, BasePath(p, item.name));
        MirrorsAppend(head, [item], FlattenChildren(item.children, BasePath(p, item.name)),
                      SubtreeNodesList(item.children));
        MirrorsAppend(head + FlattenChildren(item.children, BasePath(p, item.name)),
                      [item] + SubtreeNodesList(item.children),
                      FlattenChildren(cs[1..], base), SubtreeNodesList(cs[1..]));
      } else {
        MirrorsAppend(head, [item], FlattenChildren(cs[1..], base), SubtreeNodesList(cs[1..]));
      }
    }
  }

  // --- countTotalItems ---------------------------------------------------------

  /**
    * countTotalItems: the number of children plus the counts of the child
    * folders, which is the number of nodes below the folder.
    */
  function CountTotalItems(s: Node): (n: nat)
    ensures n == |SubtreeNodesList(s.children)|
    decreases s, 1
  {
    |s.children| + SumFolderCounts(s.children)
  }

  function SumFolderCounts(cs: seq<Node>): (n: nat)
    ensures |SubtreeNodesList(cs)| == |cs| + n
    decreases cs, 0
  {
    if cs == [] then 0
    else (if cs[0].kind == Folder then CountTotalItems(cs[0]) else 0) + SumFolderCounts(cs[1..])
  }

  /** For a single folder, the flattener emits as many facts as countTotalItems counts. */
  lemma FlattenCountsItems(folder: Node)
    ensures |Flatten(Single(folder))| == CountTotalItems(folder)
  {
    FlattenIsPreOrder(folder.children, BasePath("", folder.name));
  }

  // --- Fact paths ----------------------------------------------------------------

  /** Every name in the subtree is non-empty and free of backslashes. */
  predicate WellNamed(n: Node)
    decreases n
  {
    n.name != "" && Sep !in n.name && forall c :: c in n.children ==> WellNamed(c)
  }

  /** Some folder fact in `facts` sits at `p`. */
  predicate FolderFactAt(facts: seq<Fact>, p: string)
  {
    exists g :: g in facts && g.kind == Folder && g.path == p
  }

  /**
    * A fact is linked when the last segment of its path is its name and its
    * parent path is the base or the path of a folder fact in `facts`.
    */
  predicate FactLinked(f: Fact, base: string, facts: seq<Fact>)
  {
    NameFromPath(f.path) == f.name &&
    ParentPathMultiRoot(f.path).Some? &&
    (ParentPathMultiRoot(f.path).value == base || FolderFactAt(facts, ParentPathMultiRoot(f.path).value))
  }

  lemma LinkedWiden(f: Fact, p: string, base: string, a: seq<Fact>, b: seq<Fact>)
    requires FactLinked(f, p, a)
    requires forall g :: g in a ==> g in b
    requires p == base || FolderFactAt(b, p)
    ensures FactLinked(f, base, b)
  {
    var q := ParentPathMultiRoot(f.path).value;
    if q != p {
      var g :| g in a && g.kind == Folder && g.path == q;
      assert g in b;
    }
  }

  /** A join below an ordinary base path is itself an ordinary path. */
  lemma JoinKeepsNonSep(base: string, name: string)
    requires base != ThisPC && HasNonSep(base)
    ensures JoinPathMultiRoot(base, name) != ThisPC && HasNonSep(JoinPathMultiRoot(base, name))
    ensures BasePath(JoinPathMultiRoot(base, name), name) == JoinPathMultiRoot(base, name)
  {
    var p := base + [Sep] + name;
    assert JoinPathMultiRoot(base, name) == p;
    assert p[|base|] == Sep;
    assert Sep !in ThisPC;
    var i :| 0 <= i < |base| && base[i] != Sep;
    assert p[i] == base[i];
  }

  /**
    * Each fact's path is the join of its parent's path and its name: the last
    * segment of the path is the name, and the parent path is the base or the
    * path of a folder fact emitted in the same flattening.
    */
  lemma {:induction false} FlattenPathsLinked(cs: seq<Node>, base: string)
    requires base != ThisPC && HasNonSep(base)
    requires forall c :: c in cs ==> WellNamed(c)
    ensures forall f :: f in FlattenChildren(cs, base) ==> FactLinked(f, base, FlattenChildren(cs, base))
    decreases cs
  {
    if cs != [] {
      var item := cs[0];
      var p := JoinPathMultiRoot(base, item.name);
      var head := Fact(item.id, item.name, item.kind, p);
      var sub := if item.kind == Folder then FlattenChildren(item.children, BasePath(p, item.name)) else [];
      var rest := FlattenChildren(cs[1..], base);
      var all := FlattenChildren(cs, base);
      assert all == [head] + sub + rest;
      assert item in cs;
      ParentOfJoin(base, item.name);
      assert FactLinked(head, base, all);
      FlattenPathsLinked(cs[1..], base);
      forall f | f in rest ensures FactLinked(f, base, all) {
        LinkedWiden(f, base, base, rest, all);
      }
      if item.kind == Folder {
        JoinKeepsNonSep(base, item.name);
        FlattenPathsLinked(item.children, p);
        assert head in all;
        forall f | f in sub ensures FactLinked(f, base, all) {
          LinkedWiden(f, p, base, sub, all);
        }
      }
    }
  }

  // --- findNodeById / getPathById -------------------------------------------------

  /** The first node in `ns` carrying `id`. */
  function FirstWithId(ns: seq<Node>, id: string): (r: Option<Node>)
    ensures r.Some? ==> r.value in ns && r.value.id == id
    ensures r.None? <==> forall n :: n in ns ==> n.id != id
  {
    if ns == [] then None else if ns[0].id == id then Some(ns[0]) else FirstWithId(ns[1..], id)
  }

  lemma {:induction false} FirstWithIdAppend(a: seq<Node>, b: seq<Node>, id: string)
    ensures FirstWithId(a + b, id) == if FirstWithId(a, id).Some? then FirstWithId(a, id) else FirstWithId(b, id)
  {
    if a != [] {
      assert (a + b)[1..] == a[1..] + b;
      FirstWithIdAppend(a[1..], b, id);
    } else {
      assert a + b == b;
    }
  }

  /** The recursive `search` of findNodeById. */
  function Search(n: Node, id: string): Option<Node>
    decreases n, 1
  {
    if n.id == id then Some(n)
    else if n.kind != Folder then None
    else SearchList(n.children, id)
  }

  function SearchList(cs: seq<Node>, id: string): Option<Node>
    decreases cs, 0
  {
    if cs == [] then None
    else
      match Search(cs[0], id)
      case Some(m) => Some(m)
      case None => SearchList(cs[1..], id)
  }

  /** The depth-first search returns the first node in pre-order that carries the id. */
  lemma {:induction false} SearchIsFirstInPreOrder(n: Node, id: string)
    ensures Search(n, id) == FirstWithId(SubtreeNodes(n), id)
    decreases n, 1
  {
    if n.id != id && n.kind == Folder {
      SearchListIsFirstInPreOrder(n.children, id);
      assert SubtreeNodes(n)[1..] == SubtreeNodesList(n.children);
    } else if n.id != id {
      assert SubtreeNodes(n) == [n];
    }
  }

  lemma {:induction false} SearchListIsFirstInPreOrder(cs: seq<Node>, id: string)
    ensures SearchList(cs, id) == FirstWithId(SubtreeNodesList(cs), id)
    decreases cs, 0
  {
    if cs != [] {
      SearchIsFirstInPreOrder(cs[0], id);
      SearchListIsFirstInPreOrder(cs[1..], id);
      FirstWithIdAppend(SubtreeNodes(cs[0]), SubtreeNodesList(cs[1..]), id);
    }
  }

  /** All nodes findNodeById searches, roots included, in search order. */
  function SearchedNodes(s: Structure): seq<Node>
  {
    match s
    case System(roots) => SubtreeNodesList(roots)
    case Single(root) => if root.kind == Folder then SubtreeNodes(root) else []
    case Absent => []
  }

  /**
    * findNodeById: an empty id finds nothing; a single root is searched only
    * when it is a folder.
    */
  function FindNodeById(s: Structure, id: string): (r: Option<Node>)
    ensures id == "" ==> r.None?
    ensures id != "" ==> r == FirstWithId(SearchedNodes(s), id)
    ensures r.Some? ==> r.value.id == id
  {
    if id == "" then None
    else
      match s
      case System(roots) => SearchListIsFirstInPreOrder(roots, id); SearchList(roots, id)
      case Single(root) =>
        if root.kind == Folder then SearchIsFirstInPreOrder(root, id); Search(root, id) else None
      case Absent => None
  }

  /**
    * findNodeById returns the first node, in search order, that carries the
    * id, and nothing exactly when no such node exists.
    */
  lemma FindNodeByIdSpec(s: Structure, id: string)
    requires id != ""
    ensures FindNodeById(s, id) == FirstWithId(SearchedNodes(s), id)
    ensures FindNodeById(s, id).Some? ==> FindNodeById(s, id).value.id == id
    ensures FindNodeById(s, id).None? <==> forall n :: n in SearchedNodes(s) ==> n.id != id
  {
    match s
    case System(roots) => SearchListIsFirstInPreOrder(roots, id);
    case Single(root) => if root.kind == Folder { SearchIsFirstInPreOrder(root, id); }
    case Absent =>
  }

  /** The recursive `walk` of getPathById; a found path that is "" counts as not found. */
  function Walk(n: Node, currentPath: string, id: string): (r: Option<string>)
    ensures r.Some? ==> Search(n, id).Some? && (r.value == currentPath || r.value != "")
    decreases n, 1
  {
    if n.id == id then Some(currentPath)
    else if n.kind != Folder then None
    else WalkList(n.children, currentPath, id)
  }

  function WalkList(cs: seq<Node>, currentPath: string, id: string): (r: Option<string>)
    ensures r.Some? ==> SearchList(cs, id).Some? && r.value != ""
    decreases cs, 0
  {
    if cs == [] then None
    else
      var found := Walk(cs[0], JoinPathMultiRoot(currentPath, cs[0].name), id);
      if found.Some? && found.value != "" then found else WalkList(cs[1..], currentPath, id)
  }

  /**
    * getPathById: a found path is never "", and a path is found only for an
    * id findNodeById also finds.
    */
  function GetPathById(s: Structure, id: string): (r: Option<string>)
    ensures id == "" ==> r.None?
    ensures r.Some? ==> r.value != "" && FindNodeById(s, id).Some?
  {
    if id == "" then None
    else
      match s
      case System(roots) => WalkRoots(roots, id)
      case Single(root) => if root.kind == Folder then Walk(root, BasePath("", root.name), id) else None
      case Absent => None
  }

  function WalkRoots(roots: seq<Node>, id: string): (r: Option<string>)
    ensures r.Some? ==> r.value != "" && SearchList(roots, id).Some?
  {
    if roots == [] then None
    else
      var found := Walk(roots[0], roots[0].name, id);
      if found.Some? && found.value != "" then found else WalkRoots(roots[1..], id)
  }

  /** A path other than "" and "This PC": every join below it is a real, non-empty path. */
  predicate OrdinaryBase(p: string)
  {
    p != "" && p != ThisPC
  }

  lemma JoinStaysOrdinary(p: string, name: string)
    requires OrdinaryBase(p)
    ensures OrdinaryBase(JoinPathMultiRoot(p, name))
  {
    var q := JoinPathMultiRoot(p, name);
    assert q[|p|] == Sep;
    assert Sep !in ThisPC;
  }

  /**
    * Below an ordinary base path the path walk and the node search agree:
    * getPathById finds a path exactly when findNodeById finds a node.
    */
  lemma {:induction false} WalkAgreesWithSearch(n: Node, cur: string, id: string)
    requires OrdinaryBase(cur)
    ensures Walk(n, cur, id).Some? <==> Search(n, id).Some?
    ensures Walk(n, cur, id).Some? ==> OrdinaryBase(Walk(n, cur, id).value)
    decreases n, 1
  {
    if n.id != id && n.kind == Folder {
      WalkListAgreesWithSearchList(n.children, cur, id);
    }
  }

  lemma {:induction false} WalkListAgreesWithSearchList(cs: seq<Node>, cur: string, id: string)
    requires OrdinaryBase(cur)
    ensures WalkList(cs, cur, id).Some? <==> SearchList(cs, id).Some?
    ensures WalkList(cs, cur, id).Some? ==> OrdinaryBase(WalkList(cs, cur, id).value)
    decreases cs, 0
  {
    if cs != [] {
      JoinStaysOrdinary(cur, cs[0].name);
      WalkAgreesWithSearch(cs[0], JoinPathMultiRoot(cur, cs[0].name), id);
      WalkListAgreesWithSearchList(cs[1..], cur, id);
    }
  }

  /**
    * When every root has an ordinary name, getPathById resolves an id exactly
    * when findNodeById finds it.
    */
  lemma PathByIdIffNodeById(s: Structure, id: string)
    requires s.System? ==> forall r :: r in s.roots ==> OrdinaryBase(r.name)
    requires s.Single? ==> s.root.name != ThisPC
    ensures GetPathById(s, id).Some? <==> FindNodeById(s, id).Some?
  {
    if id != "" {
      match s
      case System(roots) => WalkRootsAgree(roots, id);
      case Single(root) =>
        if root.kind == Folder {
          WalkAgreesWithSearch(root, BasePath("", root.name), id);
        }
      case Absent =>
    }
  }

  lemma {:induction false} WalkRootsAgree(roots: seq<Node>, id: string)
    requires forall r :: r in roots ==> OrdinaryBase(r.name)
    ensures WalkRoots(roots, id).Some? <==> SearchList(roots, id).Some?
  {
    if roots != [] {
      WalkAgreesWithSearch(roots[0], roots[0].name, id);
      WalkRootsAgree(roots[1..], id);
    }
  }

  /** The path of the first fact carrying the id, if any. */
  function FirstFactPath(facts: seq<Fact>, id: string): (r: Option<string>)
    ensures r.Some? ==> exists f :: f in facts && f.id == id && f.path == r.value
    ensures r.None? <==> forall f :: f in facts ==> f.id != id
  {
    if facts == [] then None
    else if facts[0].id == id then Some(facts[0].path)
    else FirstFactPath(facts[1..], id)
  }

  lemma {:induction false} FirstFactPathAppend(a: seq<Fact>, b: seq<Fact>, id: string)
    ensures FirstFactPath(a + b, id) == if FirstFactPath(a, id).Some? then FirstFactPath(a, id) else FirstFactPath(b, id)
  {
    if a != [] {
      assert (a + b)[1..] == a[1..] + b;
      FirstFactPathAppend(a[1..], b, id);
    } else {
      assert a + b == b;
    }
  }

  /**
    * Below an ordinary base path, the path walk of a child list returns the
    * path flattenStructure gives the first node (in pre-order) carrying the id.
    */
  lemma {:induction false} WalkListIsFactPath(cs: seq<Node>, cur: string, id: string)
    requires OrdinaryBase(cur)
    ensures WalkList(cs, cur, id) == FirstFactPath(FlattenChildren(cs, cur), id)
    decreases cs
  {
    if cs != [] {
      var c := cs[0];
      var p := JoinPathMultiRoot(cur, c.name);
      JoinStaysOrdinary(cur, c.name);
      WalkAgreesWithSearch(c, p, id);
      var sub := if c.kind == Folder then FlattenChildren(c.children, BasePath(p, c.name)) else [];
      if c.kind == Folder {
        WalkListIsFactPath(c.children, p, id);
      }
      WalkListIsFactPath(cs[1..], cur, id);
      var head := [Fact(c.id, c.name, c.kind, p)] + sub;
      assert FlattenChildren(cs, cur) == head + FlattenChildren(cs[1..], cur);
      FirstFactPathAppend(head, FlattenChildren(cs[1..], cur), id);
      assert head[1..] == sub;
    }
  }

  /**
    * getPathById returns the flattened path of the first node carrying the
    * id, when no root carries it (roots are folders with ordinary names).
    */
  lemma PathByIdIsFactPath(s: Structure, id: string)
    requires id != ""
    requires s.System? ==> forall r :: r in s.roots ==> OrdinaryBase(r.name) && r.kind == Folder
    requires s.Single? ==> s.root.kind == Folder && s.root.name != ThisPC
    ensures (s.System? ==> forall r :: r in s.roots ==> r.id != id) && (s.Single? ==> s.root.id != id) ==>
      GetPathById(s, id) == FirstFactPath(Flatten(s), id)
  {
    match s
    case System(roots) =>
      if forall r :: r in roots ==> r.id != id {
        WalkRootsIsFactPath(roots, id);
      }
    case Single(root) =>
      if root.id != id {
        WalkListIsFactPath(root.children, BasePath("", root.name), id);
      }
    case Absent =>
  }

  lemma {:induction false} WalkRootsIsFactPath(roots: seq<Node>, id: string)
    requires forall r :: r in roots ==> OrdinaryBase(r.name) && r.kind == Folder && r.id != id
    ensures WalkRoots(roots, id) == FirstFactPath(FlattenRoots(roots), id)
  {
    if roots != [] {
      var r := roots[0];
      WalkListIsFactPath(r.children, r.name, id);
      WalkAgreesWithSearch(r, r.name, id);
      WalkRootsIsFactPath(roots[1..], id);
      FirstFactPathAppend(FlattenChildren(r.children, BasePath(r.name, r.name)), FlattenRoots(roots[1..]), id);
    }
  }

  // --- getFolder ---------------------------------------------------------------

  /** getRootFolder: the first root with exactly that name. */
  function GetRootFolder(roots: seq<Node>, rootName: string): (r: Option<Node>)
    ensures r.Some? ==> r.value in roots && r.value.name == rootName
    ensures r.Some? ==>
      exists i :: 0 <= i < |roots| && roots[i] == r.value &&
        forall j :: 0 <= j < i ==> roots[j].name != rootName
    ensures r.None? <==> forall n :: n in roots ==> n.name != rootName
  {
    if roots == [] then None
    else if roots[0].name == rootName then Some(roots[0])
    else GetRootFolder(roots[1..], rootName)
  }

  /** The first child folder with the given name. */
  function FindChildFolder(children: seq<Node>, name: string): (r: Option<Node>)
    ensures r.Some? ==> r.value in children && r.value.name == name && r.value.kind == Folder
    ensures r.Some? ==>
      exists i :: 0 <= i < |children| && children[i] == r.value &&
        forall j :: 0 <= j < i ==> !(children[j].name == name && children[j].kind == Folder)
    ensures r.None? <==> forall c :: c in children ==> !(c.name == name && c.kind == Folder)
  {
    if children == [] then None
    else if children[0].name == name && children[0].kind == Folder then Some(children[0])
    else FindChildFolder(children[1..], name)
  }

  /** Descends from `node` through child folders named by `parts`. */
  function WalkSegments(node: Node, parts: seq<string>): Option<Node>
    decreases |parts|
  {
    if parts == [] then Some(node)
    else
      match FindChildFolder(node.children, parts[0])
      case None => None
      case Some(child) => WalkSegments(child, parts[1..])
  }

  /**
    * getFolder: the virtual locations and "" resolve to nothing; otherwise the
    * first root named by the first segment, then a child folder per segment.
    */
  function GetFolder(roots: seq<Node>, path: string): (r: Option<Node>)
    ensures path == "" || IsSpecialLocation(path) ==> r.None?
  {
    if path == "" || path == ThisPC || path == RecycleBinLocation then None
    else
      match RootFromPath(path)
      case None => None
      case Some(rootName) =>
        match GetRootFolder(roots, rootName)
        case None => None
        case Some(root) =>
          if path == rootName then Some(root) else WalkSegments(root, NonEmptySegments(path)[1..])
  }

  lemma {:induction false} WalkSegmentsAppend(node: Node, a: seq<string>, n: string)
    ensures WalkSegments(node, a + [n]) ==
      match WalkSegments(node, a)
      case None => None
      case Some(f) => FindChildFolder(f.children, n)
    decreases |a|
  {
    if a == [] {
      assert [n][1..] == [];
    } else {
      assert (a + [n])[1..] == a[1..] + [n];
      match FindChildFolder(node.children, a[0])
      case None =>
      case Some(child) => WalkSegmentsAppend(child, a[1..], n);
    }
  }

  /** The segments of `join(p, n)` are those of `p` followed by `n`, and both share a root. */
  lemma SegmentsOfJoin(p: string, n: string)
    requires !IsSpecialLocation(p) && HasNonSep(p)
    requires n != "" && Sep !in n
    ensures p != "" && |NonEmptySegments(p)| >= 1
    ensures NonEmptySegments(JoinPathMultiRoot(p, n)) == NonEmptySegments(p) + [n]
    ensures !IsSpecialLocation(JoinPathMultiRoot(p, n)) && JoinPathMultiRoot(p, n) != ""
    ensures RootFromPath(p) == Some(NonEmptySegments(p)[0])
    ensures RootFromPath(JoinPathMultiRoot(p, n)) == Some(NonEmptySegments(p)[0])
    ensures Sep in JoinPathMultiRoot(p, n)
  {
    var s := p + [Sep] + n;
    assert JoinPathMultiRoot(p, n) == s;
    assert s[|p|] == Sep;
    SepJoinIsOrdinary(p, n);
    NonEmptySegmentsOfNonSep(p);
    assert (NonEmptySegments(p) + [n])[0] == NonEmptySegments(p)[0];
  }

  /** A path without a backslash is its own single segment. */
  lemma SegmentsOfPlainName(p: string)
    requires p != "" && Sep !in p
    ensures NonEmptySegments(p) == [p]
  {
    assert Split(p, Sep) == [p];
    assert NonEmptyOnly([p]) == NonEmptyOnly([]) + [p];
  }

  /**
    * getFolder on an ordinary path: the root named by the first segment, then
    * one child folder per remaining segment.
    */
  lemma GetFolderBySegments(roots: seq<Node>, path: string)
    requires !IsSpecialLocation(path) && HasNonSep(path)
    ensures |NonEmptySegments(path)| >= 1
    ensures GetFolder(roots, path) ==
      match GetRootFolder(roots, NonEmptySegments(path)[0])
      case None => None
      case Some(root) => WalkSegments(root, NonEmptySegments(path)[1..])
  {
    NonEmptySegmentsOfNonSep(path);
    var segs := NonEmptySegments(path);
    assert path != "";
    assert RootFromPath(path) == Some(segs[0]);
    if path == segs[0] {
      SegmentsOfPlainName(path);
      assert segs[1..] == [];
    }
  }

  /**
    * getFolder resolves a joined path one segment at a time: the folder at
    * `join(p, n)` is the first child folder named `n` of the folder at `p`.
    */
  lemma GetFolderOfJoin(roots: seq<Node>, p: string, n: string)
    requires !IsSpecialLocation(p) && HasNonSep(p)
    requires n != "" && Sep !in n
    ensures GetFolder(roots, JoinPathMultiRoot(p, n)) ==
      match GetFolder(roots, p)
      case None => None
      case Some(f) => FindChildFolder(f.children, n)
  {
    var s := JoinPathMultiRoot(p, n);
    SegmentsOfJoin(p, n);
    JoinKeepsNonSep(p, n);
    GetFolderBySegments(roots, p);
    GetFolderBySegments(roots, s);
    var segs := NonEmptySegments(p);
    assert (segs + [n])[1..] == segs[1..] + [n];
    match GetRootFolder(roots, segs[0])
    case None =>
    case Some(root) => WalkSegmentsAppend(root, segs[1..], n);
  }

  // --- normalizeToSystemRoot / getDefaultRootPath -----------------------------

  /** The empty "C:" root the loader falls back to. */
  const EmptyC: Node := Node("", "C:", Folder, [], false, None)

  /**
    * normalizeToSystemRoot: a root list is kept, a named single root folder is
    * wrapped as a one-root list, anything else becomes an empty "C:".
    */
  function NormalizeToSystemRoot(s: Structure): (r: Structure)
    ensures r.System?
  {
    match s
    case System(roots) => System(roots)
    case Single(root) => if root.name != "" && root.kind == Folder then System([root]) else System([EmptyC])
    case Absent => System([EmptyC])
  }

  /** Wrapping a legacy single root does not change what the flattener sees. */
  lemma NormalizePreservesFacts(s: Structure)
    requires s.Single? ==> s.root.name != "" && s.root.kind == Folder
    ensures Flatten(NormalizeToSystemRoot(s)) == Flatten(s)
  {
    match s
    case System(roots) =>
    case Single(root) =>
      assert FlattenRoots([root]) == FlattenChildren(root.children, BasePath(root.name, root.name)) + FlattenRoots([]);
    case Absent =>
      assert FlattenRoots([EmptyC]) == FlattenChildren([], "C:") + FlattenRoots([]);
  }

  /** getDefaultRootPath: "C:" when such a root exists, else the first root's name, else "C:". */
  function GetDefaultRootPath(roots: seq<Node>): (r: string)
    ensures r != ""
    ensures r != "C:" ==> GetRootFolder(roots, r).Some?
    ensures GetRootFolder(roots, "C:").Some? ==> r == "C:"
    ensures GetRootFolder(roots, "C:").None? && |roots| > 0 && roots[0].name != "" ==> r == roots[0].name
    ensures GetRootFolder(roots, "C:").None? && (|roots| == 0 || roots[0].name == "") ==> r == "C:"
  {
    if GetRootFolder(roots, "C:").Some? then "C:"
    else if |roots| > 0 && roots[0].name != "" then roots[0].name
    else "C:"
  }

  // --- validateRename ------------------------------------------------------------

  datatype RenameVerdict = RenameOk | RenameRejected(reason: string)

  /** validateRename: empty, unchanged and already-taken names are refused. */
  function ValidateRename(oldName: string, newName: string, items: seq<Node>): (v: RenameVerdict)
    ensures v.RenameOk? <==> newName != "" && newName != oldName && forall i :: i in items ==> i.name != newName
    ensures v.RenameRejected? ==> v.reason in {"empty", "same", "duplicate"}
    ensures newName == "" ==> v == RenameRejected("empty")
    ensures newName != "" && newName == oldName ==> v == RenameRejected("same")
    ensures newName != "" && newName != oldName && (exists i :: i in items && i.name == newName) ==>
              v == RenameRejected("duplicate")
  {
    if newName == "" then RenameRejected("empty")
    else if newName == oldName then RenameRejected("same")
    else if exists i :: i in items && i.name == newName then RenameRejected("duplicate")
    else RenameOk
  }

  /** No two siblings share a name. */
  predicate DistinctNames(items: seq<Node>)
  {
    forall i, j :: 0 <= i < j < |items| ==> items[i].name != items[j].name
  }

  /** applyRename's effect on the sibling list: the first item named `oldName` takes `newName`. */
  function RenameFirst(items: seq<Node>, oldName: string, newName: string): (r: seq<Node>)
    ensures |r| == |items|
    ensures forall i :: 0 <= i < |r| ==> r[i].name == items[i].name || (items[i].name == oldName && r[i].name == newName)
    ensures forall i :: 0 <= i < |r| ==> r[i].id == items[i].id
  {
    if items == [] then []
    else if items[0].name == oldName then [items[0].(name := newName)] + items[1..]
    else [items[0]] + RenameFirst(items[1..], oldName, newName)
  }

  /** The rename touches the first item named `oldName`, which takes `newName`, and leaves every other item as it was. */
  lemma {:induction false} RenameFirstAt(items: seq<Node>, oldName: string, newName: string, i: nat)
    requires i < |items| && items[i].name == oldName
    requires forall j :: 0 <= j < i ==> items[j].name != oldName
    ensures RenameFirst(items, oldName, newName)[i] == items[i].(name := newName)
    ensures forall j :: 0 <= j < |items| && j != i ==> RenameFirst(items, oldName, newName)[j] == items[j]
  {
    if i > 0 {
      RenameFirstAt(items[1..], oldName, newName, i - 1);
    }
  }

  /** Without an item named `oldName` the rename changes nothing. */
  lemma {:induction false} RenameFirstAbsent(items: seq<Node>, oldName: string, newName: string)
    requires forall j :: 0 <= j < |items| ==> items[j].name != oldName
    ensures RenameFirst(items, oldName, newName) == items
  {
    if items != [] {
      RenameFirstAbsent(items[1..], oldName, newName);
    }
  }

  /** A rename that validateRename accepts keeps sibling names distinct. */
  lemma AcceptedRenameKeepsNamesDistinct(oldName: string, newName: string, items: seq<Node>)
    requires DistinctNames(items)
    requires ValidateRename(oldName, newName, items).RenameOk?
    ensures DistinctNames(RenameFirst(items, oldName, newName))
  {
    var r := RenameFirst(items, oldName, newName);
    forall i, j | 0 <= i < j < |r| ensures r[i].name != r[j].name {
      assert items[i] in items && items[j] in items;
    }
  }

  // --- Protected folders as items ------------------------------------------------

  /** isProtectedFolderItem: a folder whose full path is protected. */
  predicate IsProtectedFolderItem(item: Node, parentPath: string)
  {
    item.kind == Folder && IsProtectedFolderPath(JoinPathMultiRoot(parentPath, item.name))
  }

  /** getProtectedSelection: the selected items that are protected folders, in order. */
  function GetProtectedSelection(items: seq<Node>, parentPath: string, selectedNames: seq<string>): (r: seq<Node>)
    ensures forall x :: x in r <==> x in items && x.name in selectedNames && IsProtectedFolderItem(x, parentPath)
    ensures |r| <= |items|
  {
    if items == [] then []
    else
      var rest := GetProtectedSelection(items[1..], parentPath, selectedNames);
      assert forall x :: x in items <==> x == items[0] || x in items[1..];
      if items[0].name in selectedNames && IsProtectedFolderItem(items[0], parentPath)
      then [items[0]] + rest else rest
  }

  // --- compareStructures -----------------------------------------------------------

  datatype CompareError =
    | Missing(name: string, at: string)
    | TypeMismatch(name: string, at: string, expected: NodeKind)
    | Extra(name: string, at: string)

  function Names(items: seq<Node>): (r: seq<string>)
    ensures |r| == |items|
    ensures forall i :: 0 <= i < |items| ==> r[i] == items[i].name
  {
    if items == [] then [] else [items[0].name] + Names(items[1..])
  }

  /** The item an object keyed by name keeps for `name`: the last one with that name. */
  function LastWithName(items: seq<Node>, name: string): (r: Node)
    requires name in Names(items)
    ensures r in items && r.name == name
  {
    var k := |items| - 1;
    if items[k].name == name then items[k]
    else
      assert name in Names(items[..k]) by {
        var j :| 0 <= j < |items| && Names(items)[j] == name;
        assert Names(items[..k])[j] == name;
      }
      LastWithName(items[..k], name)
  }

  /** `compare(currentItems, targetItems, path)` of compareStructures. */
  function CompareItems(current: seq<Node>, target: seq<Node>, at: string): seq<CompareError>
    decreases current, 2
  {
    CompareTargetNames(Dedup(Names(target)), current, target, at)
      + ExtraItems(Dedup(Names(current)), target, at)
  }

  function CompareTargetNames(names: seq<string>, current: seq<Node>, target: seq<Node>, at: string): seq<CompareError>
    requires forall n :: n in names ==> n in Names(target)
    decreases current, 1, |names|
  {
    if names == [] then []
    else
      var name := names[0];
      var targetItem := LastWithName(target, name);
      var here :=
        if name !in Names(current) then [Missing(name, at)]
        else
          var currentItem := LastWithName(current, name);
          if currentItem.kind != targetItem.kind then [TypeMismatch(name, at, targetItem.kind)]
          else if currentItem.kind == Folder then
            CompareItems(currentItem.children, targetItem.children, JoinPath(at, name))
          else [];
      here + CompareTargetNames(names[1..], current, target, at)
  }

  function ExtraItems(names: seq<string>, target: seq<Node>, at: string): (r: seq<CompareError>)
    ensures r == [] <==> forall n :: n in names ==> n in Names(target)
  {
    if names == [] then []
    else
      assert forall n :: n in names <==> n == names[0] || n in names[1..];
      (if names[0] in Names(target) then [] else [Extra(names[0], at)]) + ExtraItems(names[1..], target, at)
  }

  /** compareStructures: success exactly when no difference was reported. */
  function CompareStructures(current: Node, target: Node, path: string): (r: (bool, seq<CompareError>))
    ensures r.0 <==> r.1 == []
  {
    var errors := CompareItems(current.children, target.children, path);
    (errors == [], errors)
  }

  /**
    * The structural equality compareStructures checks, stated directly: the
    * same names on both sides, and for each name the kept items have the same
    * kind and, for folders, the same structure below.
    */
  ghost predicate SameShape(current: seq<Node>, target: seq<Node>)
    decreases current
  {
    (forall n :: n in Names(target) <==> n in Names(current)) &&
    forall n :: n in Names(target) ==>
      LastWithName(current, n).kind == LastWithName(target, n).kind &&
      (LastWithName(current, n).kind == Folder ==>
        SameShape(LastWithName(current, n).children, LastWithName(target, n).children))
  }

  lemma {:induction false} CompareItemsEmptyIffSameShape(current: seq<Node>, target: seq<Node>, at: string)
    ensures CompareItems(current, target, at) == [] <==> SameShape(current, target)
    decreases current, 2
  {
    var tn := Dedup(Names(target));
    CompareTargetNamesEmpty(tn, current, target, at);
    var extra := ExtraItems(Dedup(Names(current)), target, at);
    if CompareItems(current, target, at) == [] {
      forall n | n in Names(target) ensures n in Names(current) {
        assert n in tn;
      }
    }
  }

  lemma {:induction false} CompareTargetNamesEmpty(names: seq<string>, current: seq<Node>, target: seq<Node>, at: string)
    requires forall n :: n in names ==> n in Names(target)
    ensures CompareTargetNames(names, current, target, at) == [] <==>
      forall n :: n in names ==>
        n in Names(current) &&
        LastWithName(current, n).kind == LastWithName(target, n).kind &&
        (LastWithName(current, n).kind == Folder ==>
          SameShape(LastWithName(current, n).children, LastWithName(target, n).children))
    decreases current, 1, |names|
  {
    if names != [] {
      var name := names[0];
      CompareTargetNamesEmpty(names[1..], current, target, at);
      if name in Names(current) {
        var c := LastWithName(current, name);
        var t := LastWithName(target, name);
        if c.kind == t.kind && c.kind == Folder {
          CompareItemsEmptyIffSameShape(c.children, t.children, JoinPath(at, name));
        }
      }
      assert forall n :: n in names <==> n == name || n in names[1..];
    }
  }

  // --- compareStructures as written: lookups in a plain object ----------------------

  /**
    * What reading `map[name]` gives when `map` is a plain object keyed by
    * item name: the last own item, a member every object inherits from
    * `Object.prototype` (truthy, with no `type`), or undefined. Assigning
    * an item to the key "__proto__" replaces the prototype instead of adding
    * a key; that case is not part of this model.
    */
  datatype KeyRead = OwnItem(item: Node) | InheritedMember | NoItem

  function ItemsMapReadAsWritten(items: seq<Node>, name: string): (r: KeyRead)
    ensures r.OwnItem? <==> name in Names(items) && name != "__proto__"
    ensures r.OwnItem? ==> r.item in items && r.item.name == name
    ensures r.NoItem? <==> name !in Names(items) && name !in TaskDsl.ObjectPrototypeMembers
  {
    if name in Names(items) && name != "__proto__" then OwnItem(LastWithName(items, name))
    else if name in TaskDsl.ObjectPrototypeMembers then InheritedMember
    else NoItem
  }

  /** The extra-items loop as written: a name counts as present when the target map's read of it is truthy. */
  function ExtraItemsAsWritten(names: seq<string>, target: seq<Node>, at: string): (r: seq<CompareError>)
    ensures r == [] <==> forall n :: n in names ==> !ItemsMapReadAsWritten(target, n).NoItem?
  {
    if names == [] then []
    else
      assert forall n :: n in names <==> n == names[0] || n in names[1..];
      (if ItemsMapReadAsWritten(target, names[0]).NoItem? then [Extra(names[0], at)] else [])
        + ExtraItemsAsWritten(names[1..], target, at)
  }

  /**
    * The first two tests of the missing-items loop as written, for a target
    * item of kind `expected`: an absent current item is missing, and an
    * inherited member, having no `type`, is a type mismatch.
    */
  function MissingOrMismatchAsWritten(read: KeyRead, name: string, at: string, expected: NodeKind): (r: seq<CompareError>)
    ensures r == [Missing(name, at)] <==> read.NoItem?
  {
    match read
    case NoItem => [Missing(name, at)]
    case InheritedMember => [TypeMismatch(name, at, expected)]
    case OwnItem(c) => if c.kind != expected then [TypeMismatch(name, at, expected)] else []
  }

  /**
    * Names outside `Object.prototype` are looked up as own keys, so for them
    * the extra-items loop as written reports what the model reports.
    */
  lemma {:induction false} ExtraItemsAsWrittenAgrees(names: seq<string>, target: seq<Node>, at: string)
    requires forall n :: n in names ==> n !in TaskDsl.ObjectPrototypeMembers
    ensures ExtraItemsAsWritten(names, target, at) == ExtraItems(names, target, at)
  {
    if names != [] {
      ExtraItemsAsWrittenAgrees(names[1..], target, at);
    }
  }

  /**
    * Inherited names as written: a current file "constructor" against an
    * empty target is not reported as extra, so compareStructures succeeds,
    * and a target file "toString" absent from the current folder is reported
    * as a type mismatch rather than as missing. The model reports the extra
    * item and the missing one.
    */
  lemma InheritedNamesAsWritten()
    ensures ExtraItemsAsWritten(["constructor"], [], "C:") == []
    ensures MissingOrMismatchAsWritten(ItemsMapReadAsWritten([], "toString"), "toString", "C:", File)
      == [TypeMismatch("toString", "C:", File)]
    ensures var f := Node("1", "constructor", File, [], false, None);
      CompareStructures(Node("r", "C:", Folder, [f], false, None), Node("t", "C:", Folder, [], false, None), "C:")
        == (false, [Extra("constructor", "C:")])
    ensures var f := Node("1", "toString", File, [], false, None);
      CompareStructures(Node("r", "C:", Folder, [], false, None), Node("t", "C:", Folder, [f], false, None), "C:")
        == (false, [Missing("toString", "C:")])
  {
    var f := Node("1", "constructor", File, [], false, None);
    assert Names([f]) == ["constructor"];
    assert Dedup(["constructor"]) == ["constructor"];
    assert Dedup(Names([])) == [];
    assert ExtraItems(["constructor"], [], "C:") == [Extra("constructor", "C:")];
    assert CompareItems([f], [], "C:") == [Extra("constructor", "C:")];
    var g := Node("1", "toString", File, [], false, None);
    assert Names([g]) == ["toString"];
    assert Dedup(["toString"]) == ["toString"];
    assert LastWithName([g], "toString") == g;
    assert CompareTargetNames(["toString"], [], [g], "C:") == [Missing("toString", "C:")];
    assert CompareItems([], [g], "C:") == [Missing("toString", "C:")];
  }

  /** compareStructures reports success exactly when the two folders have the same shape. */
  lemma CompareStructuresSpec(current: Node, target: Node, path: string)
    ensures CompareStructures(current, target, path).0 <==> SameShape(current.children, target.children)
  {
    CompareItemsEmptyIffSameShape(current.children, target.children, path);
  }
}
