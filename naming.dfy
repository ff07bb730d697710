/**
  * The auto-rename rule for system inserts (paste, restore, extract,
  * compress): a name already taken by a sibling becomes "base (k)ext" for
  * the smallest free counter k, and the paste helpers that insert through it.
  */
module Naming {
  import opened Text
  import opened Tree

  /** The names in use among `children`. */
  function ChildNames(children: seq<Node>): (names: set<string>)
    ensures forall c :: c in children ==> c.name in names
    ensures forall n :: n in names ==> exists c :: c in children && c.name == n
  {
    set c | c in children :: c.name
  }

  /** The extension kept by a renamed copy: "." and the text after the last dot, or "". */
  function ExtOf(desired: string): (ext: string)
    ensures '.' !in desired ==> ext == ""
    ensures '.' in desired ==> ext == desired[LastIndexOf(desired, '.')..]
  {
    if '.' in desired then
      var parts := Split(desired, '.');
      "." + parts[|parts| - 1]
    else ""
  }

  /** The name without its extension (`desiredName.replace(ext, "")`: the first occurrence only). */
  function BaseOf(desired: string): (base: string)
    ensures |base| == |desired| - |ExtOf(desired)|
  {
    var ext := ExtOf(desired);
    assert OccursAt(desired, ext, if ext != "" then LastIndexOf(desired, '.') else 0);
    ReplaceFirst(desired, ext, "")
  }

  /** What precedes the counter in a candidate: the base and " (". */
  function CandidateHead(desired: string): (h: string)
    ensures |h| == |desired| - |ExtOf(desired)| + 2
  {
    BaseOf(desired) + " ("
  }

  /** What follows the counter in a candidate: ")" and the extension. */
  function CandidateTail(desired: string): (t: string)
    ensures |t| == |ExtOf(desired)| + 1
  {
    ")" + ExtOf(desired)
  }

  /** The k-th candidate name tried for `desired`: `${base} (${k})${ext}`. */
  function Candidate(desired: string, k: nat): string
  {
    CandidateFrom(CandidateHead(desired), CandidateTail(desired), k)
  }

  /** A candidate built from a given head and tail. */
  function CandidateFrom(head: string, tail: string, k: nat): string
  {
    head + NatToString(k) + tail
  }

  /** A candidate is strictly longer than the desired name, so never equal to it. */
  lemma CandidateLonger(desired: string, k: nat)
    ensures |Candidate(desired, k)| > |desired|
  {
  }

  /** Distinct counters give distinct candidates. */
  lemma CandidateInjective(desired: string, a: nat, b: nat)
    requires Candidate(desired, a) == Candidate(desired, b)
    ensures a == b
  {
    CandidateFromInjective(CandidateHead(desired), CandidateTail(desired), a, b);
  }

  lemma CandidateFromInjective(head: string, tail: string, a: nat, b: nat)
    requires CandidateFrom(head, tail, a) == CandidateFrom(head, tail, b)
    ensures a == b
  {
    InfixCancel(head, NatToString(a), NatToString(b), tail);
    NatToStringInjective(a, b);
  }

  /**
    * ensureUniqueChildName: the desired name when no sibling has it, otherwise
    * the first candidate "base (k)ext" (k = 1, 2, ...) that no sibling has.
    */
  method EnsureUniqueChildName(children: seq<Node>, desired: string) returns (r: string)
    ensures r !in ChildNames(children)
    ensures desired !in ChildNames(children) ==> r == desired
    ensures desired in ChildNames(children) ==>
      exists k :: 1 <= k && r == Candidate(desired, k) &&
        forall j :: 1 <= j < k ==> Candidate(desired, j) in ChildNames(children)
  {
    r := FirstFreeName(ChildNames(children), desired);
  }

  /** The search ensureUniqueChildName runs over the set of names in use. */
  method FirstFreeName(names: set<string>, desired: string) returns (r: string)
    ensures r !in names
    ensures desired !in names ==> r == desired
    ensures desired in names ==>
      exists k :: 1 <= k && r == Candidate(desired, k) && forall j :: 1 <= j < k ==> Candidate(desired, j) in names
  {
    var head, tail := CandidateHead(desired), CandidateTail(desired);
    r := desired;
    var counter := 1;
    while r in names
      invariant counter >= 1 && r == Attempt(desired, head, tail, counter)
      invariant Tried(desired, head, tail, counter - 1) <= names
      invariant counter - 1 <= |names|
      decreases |names| - (counter - 1)
    {
      TriedCount(desired, head, tail, counter);
      SubsetCard(Tried(desired, head, tail, counter), names);
      r := CandidateFrom(head, tail, counter);
      counter := counter + 1;
    }
    SearchResult(names, desired, counter, r);
  }

  /** Where the search stops: at `desired` if it is free, else at the first free candidate. */
  lemma SearchResult(names: set<string>, desired: string, counter: nat, r: string)
    requires counter >= 1 && r !in names
    requires r == Attempt(desired, CandidateHead(desired), CandidateTail(desired), counter)
    requires Tried(desired, CandidateHead(desired), CandidateTail(desired), counter - 1) <= names
    ensures desired !in names ==> r == desired
    ensures desired in names ==>
      exists k :: 1 <= k && r == Candidate(desired, k) && forall j :: 1 <= j < k ==> Candidate(desired, j) in names
  {
    var head, tail := CandidateHead(desired), CandidateTail(desired);
    if counter > 1 {
      var k := counter - 1;
      assert desired in names by {
        TriedHolds(desired, head, tail, k, 1);
      }
      assert forall j :: 1 <= j < k ==> Candidate(desired, j) in names by {
        forall j | 1 <= j < k ensures Candidate(desired, j) in names {
          TriedHolds(desired, head, tail, k, j + 1);
          assert Attempt(desired, head, tail, j + 1) == Candidate(desired, j);
        }
      }
      assert r == Candidate(desired, k);
    }
  }

  /** The n-th name tried: `desired` itself, then the candidates 1, 2, ... */
  function Attempt(desired: string, head: string, tail: string, n: nat): string
  {
    if n <= 1 then desired else CandidateFrom(head, tail, n - 1)
  }

  /** The first n names tried. */
  ghost function Tried(desired: string, head: string, tail: string, n: nat): set<string>
  {
    if n == 0 then {} else Tried(desired, head, tail, n - 1) + {Attempt(desired, head, tail, n)}
  }

  /** Each of the first n attempts is among the names tried. */
  lemma {:induction false} TriedHolds(desired: string, head: string, tail: string, n: nat, i: nat)
    requires 1 <= i <= n
    ensures Attempt(desired, head, tail, i) in Tried(desired, head, tail, n)
  {
    if i < n {
      TriedHolds(desired, head, tail, n - 1, i);
    }
  }

  /**
    * No name is tried twice (a candidate is longer than `desired`, and
    * distinct counters give distinct candidates), so n attempts try n names.
    */
  lemma {:induction false} TriedCount(desired: string, head: string, tail: string, n: nat)
    requires |head| + |tail| > |desired|
    ensures Attempt(desired, head, tail, n + 1) !in Tried(desired, head, tail, n)
    ensures |Tried(desired, head, tail, n)| == n
  {
    if n > 0 {
      TriedCount(desired, head, tail, n - 1);
      var next := Attempt(desired, head, tail, n + 1);
      if next in Tried(desired, head, tail, n) {
        var i := TriedIndex(desired, head, tail, n, next);
        if i > 1 {
          CandidateFromInjective(head, tail, i - 1, n);
        }
        assert false;
      }
    }
  }

  /** A name tried among the first n is the i-th attempt for some i <= n. */
  lemma {:induction false} TriedIndex(desired: string, head: string, tail: string, n: nat, x: string) returns (i: nat)
    requires x in Tried(desired, head, tail, n)
    ensures 1 <= i <= n && x == Attempt(desired, head, tail, i)
  {
    if x == Attempt(desired, head, tail, n) {
      i := n;
    } else {
      i := TriedIndex(desired, head, tail, n - 1, x);
    }
  }

  lemma InfixCancel(pre: string, x: string, y: string, post: string)
    requires pre + x + post == pre + y + post
    ensures x == y
  {
    var s := pre + x + post;
    assert |x| == |y|;
    assert s[|pre|..|pre| + |x|] == x;
    assert (pre + y + post)[|pre|..|pre| + |y|] == y;
  }

  lemma {:induction false} SubsetCard(a: set<string>, b: set<string>)
    requires a <= b
    ensures |a| <= |b|
    decreases |a|
  {
    if a != {} {
      var x :| x in a;
      SubsetCard(a - {x}, b - {x});
    }
  }

  /** A folder's child list, which the system insert operations grow in place. */
  class ChildList {
    var children: seq<Node>

    constructor(children: seq<Node>)
      ensures this.children == children
    {
      this.children := children;
    }

    /**
      * addWithUniqueName: the item is appended under a name no earlier child
      * has; nothing else changes.
      */
    method AddWithUniqueName(item: Node) returns (added: Node)
      modifies this
      ensures children == old(children) + [added]
      ensures added == item.(name := added.name)
      ensures added.name !in ChildNames(old(children))
      ensures item.name !in ChildNames(old(children)) ==> added.name == item.name
      ensures DistinctNames(old(children)) ==> DistinctNames(children)
    {
      var finalName := EnsureUniqueChildName(children, item.name);
      added := item.(name := finalName);
      AppendKeepsDistinct(children, added);
      children := children + [added];
    }

    /**
      * pasteClipboardItemsIntoFolder: each clipboard item, in order, is
      * appended under a name unique among the children present at that
      * moment; the result pairs every original with its inserted copy.
      * Copy and cut insert the same value: a copy keeps the ids it has.
      */
    method PasteClipboardItems(clipboard: seq<Node>) returns (inserted: seq<(Node, Node)>)
      modifies this
      ensures |inserted| == |clipboard|
      ensures |children| == |old(children)| + |clipboard|
      ensures children[..|old(children)|] == old(children)
      ensures forall i :: 0 <= i < |clipboard| ==>
        inserted[i].0 == clipboard[i] &&
        inserted[i].1 == clipboard[i].(name := inserted[i].1.name) &&
        children[|old(children)| + i] == inserted[i].1 &&
        inserted[i].1.name !in ChildNames(children[..|old(children)| + i])
      ensures DistinctNames(old(children)) ==> DistinctNames(children)
    {
      inserted := [];
      var i := 0;
      while i < |clipboard|
        invariant 0 <= i <= |clipboard|
        invariant |inserted| == i
        invariant |children| == |old(children)| + i
        invariant children[..|old(children)|] == old(children)
        invariant forall j :: 0 <= j < i ==>
          inserted[j].0 == clipboard[j] &&
          inserted[j].1 == clipboard[j].(name := inserted[j].1.name) &&
          children[|old(children)| + j] == inserted[j].1 &&
          inserted[j].1.name !in ChildNames(children[..|old(children)| + j])
        invariant DistinctNames(old(children)) ==> DistinctNames(children)
      {
        var item := clipboard[i];
        var uniqueName := EnsureUniqueChildName(children, item.name);
        var cloned := item.(name := uniqueName);
        AppendKeepsDistinct(children, cloned);
        ghost var before := children;
        children := children + [cloned];
        assert children[..|old(children)| + i] == before;
        assert forall j :: 0 <= j < |before| ==> children[j] == before[j];
        assert forall j :: 0 <= j <= |before| ==> children[..j] == before[..j];
        inserted := inserted + [(item, cloned)];
        i := i + 1;
      }
    }

    /**
      * removeCutItemsFromSourceFolder, once the source folder is found: every
      * child whose name is the name of some clipboard item is dropped.
      */
    method RemoveCutItems(clipboard: seq<Node>)
      modifies this
      ensures children == WithoutNames(old(children), ChildNames(clipboard))
    {
      children := WithoutNames(children, ChildNames(clipboard));
    }
  }

  /** Appending a child under a fresh name keeps sibling names distinct. */
  lemma AppendKeepsDistinct(children: seq<Node>, item: Node)
    requires item.name !in ChildNames(children)
    ensures DistinctNames(children) ==> DistinctNames(children + [item])
  {
    var s := children + [item];
    if DistinctNames(children) {
      forall i, j | 0 <= i < j < |s| ensures s[i].name != s[j].name {
        if j == |children| {
          assert s[i] in children;
        }
      }
    }
  }

  /** The children whose name is not in `names`, in their original order. */
  function WithoutNames(children: seq<Node>, names: set<string>): (r: seq<Node>)
    ensures forall c :: c in r <==> c in children && c.name !in names
    ensures |r| <= |children|
  {
    if children == [] then []
    else
      var rest := WithoutNames(children[1..], names);
      assert forall c :: c in children <==> c == children[0] || c in children[1..];
      if children[0].name in names then rest else [children[0]] + rest
  }

  /** Removing the cut items leaves no child carrying a cut item's name and keeps names distinct. */
  lemma {:induction false} WithoutNamesKeepsDistinct(children: seq<Node>, names: set<string>)
    requires DistinctNames(children)
    ensures DistinctNames(WithoutNames(children, names))
    ensures ChildNames(WithoutNames(children, names)) == ChildNames(children) - names
  {
    if children != [] {
      var rest := WithoutNames(children[1..], names);
      assert DistinctNames(children[1..]) by {
        forall i, j | 0 <= i < j < |children[1..]| ensures children[1..][i].name != children[1..][j].name {
          assert children[1..][i] == children[i + 1] && children[1..][j] == children[j + 1];
        }
      }
      WithoutNamesKeepsDistinct(children[1..], names);
      assert forall c :: c in children <==> c == children[0] || c in children[1..];
      if children[0].name !in names {
        var s := [children[0]] + rest;
        forall i, j | 0 <= i < j < |s| ensures s[i].name != s[j].name {
          if i == 0 {
            var k :| 0 <= k < |children[1..]| && children[1..][k] == s[j];
            assert children[k + 1] == s[j];
          }
        }
      }
    }
  }

  /** shouldClearClipboardAfterPaste: only a cut into a different folder empties the clipboard. */
  predicate ShouldClearClipboardAfterPaste(operation: string, sourcePath: string, targetPath: string)
    ensures ShouldClearClipboardAfterPaste(operation, sourcePath, targetPath) ==> operation == "cut"
    ensures operation == "cut" ==> (ShouldClearClipboardAfterPaste(operation, sourcePath, targetPath) <==> sourcePath != targetPath)
  {
    operation == "cut" && sourcePath != targetPath
  }
}
