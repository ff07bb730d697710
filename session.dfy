/**
  * The explorer session's navigation state: the back/forward `history`, the
  * `historyIndex` into it and the `currentPath`, plus the bounded undo list
  * (`actionHistory`) that navigation clears. Each operation is specified as a
  * function on a `NavState` value; the `Session` class holds the same state
  * in fields and its methods are proved to perform exactly those transitions.
  */
module Navigation {
  import opened Wrappers
  import opened Paths
  import opened Tree
  import TaskDsl

  /** An undoable action, opaque to navigation. */
  datatype Action = Action(description: string)

  const MaxHistory: nat := 5

  datatype NavState = NavState(history: seq<string>, index: int, current: string, actions: seq<Action>)

  /** The session invariant: the index points into the history at the current path. */
  predicate ValidNav(s: NavState)
  {
    0 <= s.index < |s.history| && s.history[s.index] == s.current && |s.actions| <= MaxHistory
  }

  /** The state after loading: the default root, a one-entry history, no undo actions. */
  function InitialState(roots: seq<Node>): (s: NavState)
    ensures ValidNav(s) && s.history == [s.current] && s.current == GetDefaultRootPath(roots) && s.actions == []
  {
    var p := GetDefaultRootPath(roots);
    NavState([p], 0, p, [])
  }

  /**
    * Whether navigate accepts a path: the two virtual locations always, a root
    * path when a root has exactly that name, any other path when it names an
    * existing folder.
    */
  predicate CanNavigate(roots: seq<Node>, path: string)
  {
    IsSpecialLocation(path) ||
    (if IsRootPath(path) then GetRootFolder(roots, path).Some? else GetFolder(roots, path).Some?)
  }

  /** navigate: forward entries are dropped and the path is pushed; a rejected path only clears undo. */
  function AfterNavigate(s: NavState, roots: seq<Node>, path: string): (r: NavState)
    requires ValidNav(s)
  {
    var actions := if path != s.current || IsSpecialLocation(path) then [] else s.actions;
    if CanNavigate(roots, path) then
      NavState(s.history[..s.index + 1] + [path], s.index + 1, path, actions)
    else
      s.(actions := actions)
  }

  /** goBack: one step back when there is an earlier entry. */
  function AfterGoBack(s: NavState): NavState
    requires ValidNav(s)
  {
    if s.index > 0 then NavState(s.history, s.index - 1, s.history[s.index - 1], []) else s
  }

  /** goForward: one step forward when there is a later entry. */
  function AfterGoForward(s: NavState): NavState
    requires ValidNav(s)
  {
    if s.index < |s.history| - 1 then NavState(s.history, s.index + 1, s.history[s.index + 1], []) else s
  }

  /** goUp: the Recycle Bin goes to This PC, This PC stays, anything else goes to its parent. */
  function AfterGoUp(s: NavState, roots: seq<Node>): NavState
    requires ValidNav(s)
  {
    if s.current == RecycleBinLocation then AfterNavigate(s.(actions := []), roots, ThisPC)
    else if s.current == ThisPC then s
    else
      var parent := ParentPathMultiRoot(s.current);
      var target := if parent.Some? && parent.value != "" then parent.value else ThisPC;
      AfterNavigate(s.(actions := []), roots, target)
  }

  /** pushHistory: the action is appended and only the newest `MaxHistory` are kept. */
  function PushAction(actions: seq<Action>, a: Action): (r: seq<Action>)
    requires |actions| <= MaxHistory
    ensures |r| == if |actions| < MaxHistory then |actions| + 1 else MaxHistory
    ensures r[|r| - 1] == a
    ensures r == (actions + [a])[|actions| + 1 - |r|..]
  {
    var pushed := actions + [a];
    if |pushed| > MaxHistory then pushed[1..] else pushed
  }

  /** Every navigation operation keeps the session invariant. */
  lemma NavigationKeepsValid(s: NavState, roots: seq<Node>, path: string)
    requires ValidNav(s)
    ensures ValidNav(AfterNavigate(s, roots, path))
    ensures ValidNav(AfterGoBack(s)) && ValidNav(AfterGoForward(s))
    ensures ValidNav(AfterGoUp(s, roots))
  {
    NavigateKeepsValid(s, roots, path);
    NavigateKeepsValid(s.(actions := []), roots, ThisPC);
    var parent := ParentPathMultiRoot(s.current);
    var target := if parent.Some? && parent.value != "" then parent.value else ThisPC;
    NavigateKeepsValid(s.(actions := []), roots, target);
  }

  lemma NavigateKeepsValid(s: NavState, roots: seq<Node>, path: string)
    requires ValidNav(s)
    ensures ValidNav(AfterNavigate(s, roots, path))
  {
    if CanNavigate(roots, path) {
      var h := s.history[..s.index + 1] + [path];
      assert h[s.index + 1] == path;
    }
  }

  /**
    * An accepted navigate drops the forward entries, appends the path and
    * leaves the index on the last entry; a rejected one changes neither the
    * history, the index nor the current path.
    */
  lemma NavigateOutcome(s: NavState, roots: seq<Node>, path: string)
    requires ValidNav(s)
    ensures var r := AfterNavigate(s, roots, path);
      if CanNavigate(roots, path) then
        r.history == s.history[..s.index + 1] + [path] && r.index == |r.history| - 1 && r.current == path
      else
        r.history == s.history && r.index == s.index && r.current == s.current
    ensures path != s.current ==> AfterNavigate(s, roots, path).actions == []
  {
  }

  /** navigate's outcome split the way the method decides it: a virtual location, a found folder, or neither. */
  lemma NavigateByDecision(s: NavState, roots: seq<Node>, path: string, special: bool, found: bool)
    requires ValidNav(s)
    requires special == IsSpecialLocation(path)
    requires found == (if IsRootPath(path) then GetRootFolder(roots, path).Some? else GetFolder(roots, path).Some?)
    ensures var actions := if path != s.current then [] else s.actions;
      AfterNavigate(s, roots, path) ==
        if special then NavState(s.history[..s.index + 1] + [path], s.index + 1, path, [])
        else if found then NavState(s.history[..s.index + 1] + [path], s.index + 1, path, actions)
        else s.(actions := actions)
  {
  }

  /** Going back and then forward returns to the same place (the undo list is cleared). */
  lemma BackThenForward(s: NavState)
    requires ValidNav(s) && s.index > 0
    ensures AfterGoForward(AfterGoBack(s)) == s.(actions := [])
  {
  }

  /** After a navigate there is nothing to go forward to. */
  lemma NothingForwardAfterNavigate(s: NavState, roots: seq<Node>, path: string)
    requires ValidNav(s) && CanNavigate(roots, path)
    ensures AfterGoForward(AfterNavigate(s, roots, path)) == AfterNavigate(s, roots, path)
  {
  }

  /** From an existing folder `p\n`, going up lands on `p` when `p` is an existing folder. */
  lemma GoUpToParentFolder(s: NavState, roots: seq<Node>, p: string, n: string)
    requires ValidNav(s)
    requires !IsSpecialLocation(p) && !IsRootPath(p) && HasNonSep(p)
    requires n != "" && Sep !in n
    requires s.current == JoinPathMultiRoot(p, n)
    requires GetFolder(roots, p).Some?
    ensures AfterGoUp(s, roots).current == p && AfterGoUp(s, roots).history == s.history[..s.index + 1] + [p]
  {
    GoUpTarget(s, roots, p, n);
    var s0 := s.(actions := []);
    assert CanNavigate(roots, p) by {
      assert !IsSpecialLocation(p) && !IsRootPath(p) && GetFolder(roots, p).Some?;
    }
    NavigateOutcome(s0, roots, p);
  }

  /** From `p\n`, going up navigates to `p`. */
  lemma GoUpTarget(s: NavState, roots: seq<Node>, p: string, n: string)
    requires ValidNav(s)
    requires !IsSpecialLocation(p) && HasNonSep(p)
    requires n != "" && Sep !in n
    requires s.current == JoinPathMultiRoot(p, n)
    ensures AfterGoUp(s, roots) == AfterNavigate(s.(actions := []), roots, p)
  {
    SegmentsOfJoin(p, n);
    ParentOfJoin(p, n);
  }

  /** The explorer's navigation state, updated in place. */
  class Session {
    var history: seq<string>
    var historyIndex: int
    var currentPath: string
    var actionHistory: seq<Action>

    function State(): NavState
      reads this
    {
      NavState(history, historyIndex, currentPath, actionHistory)
    }

    predicate Valid()
      reads this
    {
      ValidNav(State())
    }

    /** Session start: the default root, a one-entry history and an empty undo list. */
    constructor(roots: seq<Node>)
      ensures Valid() && State() == InitialState(roots)
    {
      var p := GetDefaultRootPath(roots);
      currentPath := p;
      history := [p];
      historyIndex := 0;
      actionHistory := [];
    }

    method ResetUndoHistory()
      modifies this
      ensures State() == old(State()).(actions := [])
    {
      actionHistory := [];
    }

    method PushHistory(a: Action)
      requires Valid()
      modifies this
      ensures Valid() && State() == old(State()).(actions := PushAction(old(actionHistory), a))
    {
      actionHistory := actionHistory + [a];
      if |actionHistory| > MaxHistory {
        actionHistory := actionHistory[1..];
      }
    }

    /** Drops the forward entries, appends `path` and moves onto it. */
    method Visit(path: string)
      requires Valid()
      modifies this
      ensures State() == NavState(old(history)[..old(historyIndex) + 1] + [path], old(historyIndex) + 1, path, old(actionHistory))
    {
      history := history[..historyIndex + 1];
      history := history + [path];
      historyIndex := |history| - 1;
      currentPath := path;
    }

    method Navigate(roots: seq<Node>, path: string)
      requires Valid()
      modifies this
      ensures Valid() && State() == AfterNavigate(old(State()), roots, path)
    {
      ghost var s := State();
      NavigateKeepsValid(s, roots, path);
      var special := path == ThisPC || path == RecycleBinLocation;
      var found := if IsRootPath(path) then GetRootFolder(roots, path).Some? else GetFolder(roots, path).Some?;
      NavigateByDecision(s, roots, path, special, found);
      if path != currentPath {
        ResetUndoHistory();
      }
      if special {
        ResetUndoHistory();
        Visit(path);
      } else if found {
        Visit(path);
      }
    }

    method GoBack()
      requires Valid()
      modifies this
      ensures Valid() && State() == AfterGoBack(old(State()))
    {
      if historyIndex > 0 {
        ResetUndoHistory();
        historyIndex := historyIndex - 1;
        currentPath := history[historyIndex];
      }
    }

    method GoForward()
      requires Valid()
      modifies this
      ensures Valid() && State() == AfterGoForward(old(State()))
    {
      if historyIndex < |history| - 1 {
        ResetUndoHistory();
        historyIndex := historyIndex + 1;
        currentPath := history[historyIndex];
      }
    }

    method GoUp(roots: seq<Node>)
      requires Valid()
      modifies this
      ensures Valid() && State() == AfterGoUp(old(State()), roots)
    {
      if currentPath == RecycleBinLocation {
        ResetUndoHistory();
        Navigate(roots, ThisPC);
        return;
      }
      if currentPath == ThisPC {
        return;
      }
      var parent := ParentPathMultiRoot(currentPath);
      ResetUndoHistory();
      Navigate(roots, if parent.Some? && parent.value != "" then parent.value else ThisPC);
    }
  }

  /**
    * normalizeStudentChecklistState: exactly `count` flags, each the
    * truthiness of the stored value at that index where the stored array has
    * one and false elsewhere; a stored value that is not an array counts as
    * empty.
    */
  method NormalizeStudentChecklistState(count: nat, state: TaskDsl.Value) returns (r: seq<bool>)
    ensures |r| == count
    ensures forall i :: 0 <= i < count ==>
      r[i] == (state.Arr? && i < |state.items| && TaskDsl.Truthy(state.items[i]))
  {
    var kept := if state.Arr? then state.items[..if count < |state.items| then count else |state.items|] else [];
    r := [];
    while |r| < count
      invariant |r| <= count
      invariant forall i :: 0 <= i < |r| ==> r[i] == (state.Arr? && i < |state.items| && TaskDsl.Truthy(state.items[i]))
      decreases count - |r|
    {
      r := r + [|r| < |kept| && TaskDsl.Truthy(kept[|r|])];
    }
  }
}
