/**
 * The navigation controller. It holds the focused path and the one before
 * it, the last direction applied, the default focus target, the registry of
 * components by id with its counter for generated ids, and the trace of the
 * notifications it has delivered to nodes.
 *
 * `NavState` is the controller's state as a value and the functions over it
 * (`KeyDownState`, `FocusState`, ...) say what each operation does to it.
 * The class `Navigation` holds the same state in mutable fields; each of its
 * methods is proved to move its fields exactly as the matching function says.
 */
module Controller {
  import opened FocusTree
  import opened Traversal
  import opened Events
  import opened PathDiff
  import opened Keys
  import opened FocusableIds

  /**
   * The default focus target: none yet (`null`), a node, or a container that
   * resolved to nothing, assumed to be `undefined` and so not `null`.
   */
  datatype DefaultTarget = NoDefault | Target(node: Handle) | Unresolved

  datatype NavState = NavState(
    nodes: seq<Node>,
    root: Handle,
    currentFocusedPath: seq<Handle>,
    lastFocusedPath: seq<Handle>,
    lastDirection: Option<Direction>,
    defaultFocus: DefaultTarget,
    focusableComponents: map<string, Handle>,
    focusableIds: nat,
    trace: seq<Event>)

  /** The result of an operation that can throw. A thrown operation changes nothing. */
  datatype Outcome = Done(state: NavState) | Thrown(message: string)

  /** Thrown when there is no node to focus (focusing an undefined target). */
  const NO_FOCUS_TARGET := "TypeError: no node to focus"

  const MISSING_PREFIX := "Focusable component with id \""
  const MISSING_SUFFIX := "\" doesn't exist!"

  /** The missing-component message: the id between quotes, inside a fixed sentence. */
  function MissingComponent(id: string): (m: string)
    ensures |m| == |MISSING_PREFIX| + |id| + |MISSING_SUFFIX|
    ensures m[..|MISSING_PREFIX|] == MISSING_PREFIX
    ensures m[|MISSING_PREFIX|..|MISSING_PREFIX| + |id|] == id
    ensures m[|MISSING_PREFIX| + |id|..] == MISSING_SUFFIX
  {
    MISSING_PREFIX + id + MISSING_SUFFIX
  }

  ghost predicate PathOk(nodes: seq<Node>, p: seq<Handle>) {
    p == [] || IsTreePath(nodes, p)
  }

  ghost predicate ValidState(s: NavState) {
    && WellFormed(s.nodes)
    && s.root < |s.nodes|
    && PathOk(s.nodes, s.currentFocusedPath)
    && PathOk(s.nodes, s.lastFocusedPath)
    && (s.defaultFocus.Target? ==> s.defaultFocus.node < |s.nodes|)
    && (forall id :: id in s.focusableComponents ==> s.focusableComponents[id] < |s.nodes|)
  }

  lemma PathOkFacts(nodes: seq<Node>, p: seq<Handle>)
    requires WellFormed(nodes) && PathOk(nodes, p)
    ensures InArena(nodes, p) && Distinct(p)
  {
    if p != [] {
      TreePathAscending(nodes, p);
    }
  }

  /** Rewriting remembered children (and extending the trace) keeps a state valid. */
  lemma SameShapeKeepsValid(s: NavState, nodes: seq<Node>, trace: seq<Event>)
    requires ValidState(s) && SameShape(s.nodes, nodes)
    ensures ValidState(s.(nodes := nodes, trace := trace))
  {
    SameShapeStructure(s.nodes, nodes);
  }

  /** A fresh controller over a well-formed tree: nothing focused, no direction, no default, no ids. */
  function Initial(nodes: seq<Node>, root: Handle): (r: NavState)
    ensures WellFormed(nodes) && root < |nodes| ==> ValidState(r)
    ensures r.currentFocusedPath == [] && r.lastFocusedPath == [] && r.lastDirection.None?
    ensures r.defaultFocus.NoDefault? && |r.focusableComponents| == 0 && r.focusableIds == 0 && r.trace == []
  {
    NavState(nodes, root, [], [], None, NoDefault, map[], 0, [])
  }

  /**
   * `blur(nextTree)`: the nodes of the current path after its first
   * difference with `nextTree` are blurred, root to leaf, and every one of
   * them but the last remembers which child it was left through.
   */
  function BlurState(s: NavState, nextTree: seq<Handle>): (r: NavState)
    requires ValidState(s)
    ensures ValidState(r)
    ensures SameShape(s.nodes, r.nodes)
    ensures r.(nodes := s.nodes, trace := s.trace) == s
  {
    PathOkFacts(s.nodes, s.currentFocusedPath);
    var nodes := AfterBlur(s.nodes, s.currentFocusedPath, nextTree);
    var trace := s.trace + Blurs(BlurredSuffix(nextTree, s.currentFocusedPath));
    SameShapeKeepsValid(s, nodes, trace);
    s.(nodes := nodes, trace := trace)
  }

  /**
   * `focus(next)`: blur towards the path of `next`, notify `next`, then the
   * current path becomes the path of `next` and the old current path
   * becomes the last path. Every blur is delivered before the focus.
   */
  function FocusState(s: NavState, next: Handle): (r: NavState)
    requires ValidState(s) && next < |s.nodes|
    ensures ValidState(r) && SameShape(s.nodes, r.nodes)
    ensures r.nodes == AfterBlur(s.nodes, s.currentFocusedPath, TreePath(s.nodes, next))
    ensures r.currentFocusedPath == TreePath(r.nodes, next) && Last(r.currentFocusedPath) == next
    ensures r.lastFocusedPath == s.currentFocusedPath
    ensures r.trace ==
      s.trace + Blurs(BlurredSuffix(TreePath(s.nodes, next), s.currentFocusedPath)) + [Focused(next)]
    ensures r.(nodes := s.nodes, trace := s.trace, currentFocusedPath := s.currentFocusedPath,
               lastFocusedPath := s.lastFocusedPath) == s
  {
    var path := TreePath(s.nodes, next);
    var b := BlurState(s, path);
    SameShapeStructure(s.nodes, b.nodes);
    b.(trace := b.trace + [Focused(next)], currentFocusedPath := path, lastFocusedPath := s.currentFocusedPath)
  }

  /** `focusNext(direction, focusedPath)`: move from the leaf of `focusedPath`, if anything is there. */
  function FocusNextState(s: NavState, dir: Direction, focusedPath: seq<Handle>): (r: NavState)
    requires ValidState(s) && |focusedPath| > 0 && Last(focusedPath) < |s.nodes|
    ensures ValidState(r)
  {
    match NextFocusFrom(s.nodes, Last(focusedPath), dir)
    case None => s
    case Some(next) => FocusState(s.(lastDirection := Some(dir)), next)
  }

  /** `fireEvent(element, evt)`: deliver `evt` to `element`; false for an unknown event name. */
  function FireEventState(s: NavState, element: Handle, evt: string): (r: (NavState, bool))
    requires element < |s.nodes|
    ensures r.1 <==> evt in {WILL_MOVE, ON_FOCUS, ON_BLUR, ENTER_DOWN}
    ensures !r.1 ==> r.0 == s
    ensures r.0.(trace := s.trace) == s
    ensures s.trace <= r.0.trace && |r.0.trace| <= |s.trace| + 1
    ensures forall i :: |s.trace| <= i < |r.0.trace| ==> r.0.trace[i].node == element
  {
    match Dispatch(s.nodes[element], element, evt)
    case None => (s, false)
    case Some(events) => (s.(trace := s.trace + events), true)
  }

  /**
   * `_onKeyDown`: an arrow key moves from the current path, or from the last
   * one when nothing is focused, and is always suppressed; Enter notifies the
   * focused leaf; every other key does nothing.
   */
  function KeyDownState(s: NavState, keyCode: int): (r: (NavState, bool))
    requires ValidState(s)
    ensures ValidState(r.0)
    ensures r.1 <==> IsArrowKey(keyCode)
  {
    if IsArrowKey(keyCode) then
      var nextFocusedPath := if |s.currentFocusedPath| > 0 then s.currentFocusedPath else s.lastFocusedPath;
      if |nextFocusedPath| > 0 then
        (FocusNextState(s, DirectionFromKey(keyCode).value, nextFocusedPath), true)
      else (s, true)
    else if keyCode == KEYBOARD_ENTER && |s.currentFocusedPath| > 0 then
      (FireEventState(s, Last(s.currentFocusedPath), ENTER_DOWN).0, false)
    else (s, false)
  }

  /** `focusDefault()`: focus the default target, or else the root's default focus. */
  function FocusDefaultState(s: NavState): (r: Outcome)
    requires ValidState(s)
    ensures r.Done? ==> ValidState(r.state)
  {
    match s.defaultFocus
    case Target(n) => Done(FocusState(s, n))
    case Unresolved => Thrown(NO_FOCUS_TARGET)
    case NoDefault =>
      match DefaultFocus(s.nodes, s.root)
      case None => Thrown(NO_FOCUS_TARGET)
      case Some(n) => Done(FocusState(s, n))
  }

  /** `setDefault(component)`: a container stands for its default focus, a leaf for itself. */
  function SetDefaultState(s: NavState, component: Handle): (r: NavState)
    requires ValidState(s) && component < |s.nodes|
    ensures ValidState(r)
  {
    var target :=
      if s.nodes[component].isContainer then
        match DefaultFocus(s.nodes, component)
        case Some(n) => Target(n)
        case None => Unresolved
      else Target(component);
    s.(defaultFocus := target)
  }

  /** `addComponent(component, id)`: register under `id`, or under a generated id. */
  function AddComponentState(s: NavState, component: Handle, id: Option<string>): (r: (NavState, string))
    requires ValidState(s) && component < |s.nodes|
    ensures ValidState(r.0)
  {
    if id.Some? && id.value in s.focusableComponents then (s, id.value)
    else if id.None? || id.value == "" then
      var newId := AutoId(s.focusableIds);
      (s.(focusableComponents := s.focusableComponents[newId := component],
          focusableIds := s.focusableIds + 1), newId)
    else
      (s.(focusableComponents := s.focusableComponents[id.value := component]), id.value)
  }

  /** `forceFocus(id)`: focus the default focus of a registered component; throw for an unknown id. */
  function ForceFocusState(s: NavState, id: string): (r: Outcome)
    requires ValidState(s)
    ensures r.Done? ==> ValidState(r.state)
  {
    if id !in s.focusableComponents then Thrown(MissingComponent(id))
    else
      match DefaultFocus(s.nodes, s.focusableComponents[id])
      case None => Thrown(NO_FOCUS_TARGET)
      case Some(n) => Done(FocusState(s, n))
  }

  /** `removeFocusableId(id)`: forget `id`. */
  function RemoveFocusableIdState(s: NavState, id: string): (r: NavState)
    requires ValidState(s)
    ensures ValidState(r)
    ensures r.focusableComponents.Keys == s.focusableComponents.Keys - {id}
    ensures forall k :: k in r.focusableComponents ==> r.focusableComponents[k] == s.focusableComponents[k]
    ensures id !in s.focusableComponents ==> r == s
    ensures r.(focusableComponents := s.focusableComponents) == s
  {
    s.(focusableComponents := s.focusableComponents - {id})
  }

  /** The focused path and the last path end at leaves, and so does a default target. */
  ghost predicate FocusOnLeaves(s: NavState)
    requires ValidState(s)
  {
    && (s.currentFocusedPath != [] ==> !s.nodes[Last(s.currentFocusedPath)].isContainer)
    && (s.lastFocusedPath != [] ==> !s.nodes[Last(s.lastFocusedPath)].isContainer)
    && (s.defaultFocus.Target? ==> !s.nodes[s.defaultFocus.node].isContainer)
  }

  /**
   * A state reached from one whose paths end at leaves, by rewriting only
   * remembered children, making the old current path the last one and
   * focusing a leaf, keeping the default target, again has its paths at leaves.
   */
  lemma LeavesAfterFocus(s: NavState, r: NavState, next: Handle)
    requires ValidState(s) && ValidState(r) && FocusOnLeaves(s)
    requires SameShape(s.nodes, r.nodes) && next < |s.nodes| && !s.nodes[next].isContainer
    requires r.currentFocusedPath != [] && Last(r.currentFocusedPath) == next
    requires r.lastFocusedPath == s.currentFocusedPath && r.defaultFocus == s.defaultFocus
    ensures FocusOnLeaves(r)
  {
    assert r.nodes[next] == s.nodes[next].(lastFocusChild := r.nodes[next].lastFocusChild);
    if s.currentFocusedPath != [] {
      var l := Last(s.currentFocusedPath);
      assert r.nodes[l] == s.nodes[l].(lastFocusChild := r.nodes[l].lastFocusChild);
    }
    if s.defaultFocus.Target? {
      var d := s.defaultFocus.node;
      assert r.nodes[d] == s.nodes[d].(lastFocusChild := r.nodes[d].lastFocusChild);
    }
  }

  lemma FocusKeepsFocusOnLeaves(s: NavState, next: Handle)
    requires ValidState(s) && next < |s.nodes| && FocusOnLeaves(s) && !s.nodes[next].isContainer
    ensures FocusOnLeaves(FocusState(s, next))
  {
    var r := FocusState(s, next);
    assert r.defaultFocus == s.defaultFocus && r.currentFocusedPath != [] by {
      assert r.(nodes := s.nodes, trace := s.trace, currentFocusedPath := s.currentFocusedPath,
                lastFocusedPath := s.lastFocusedPath) == s;
    }
    LeavesAfterFocus(s, r, next);
  }

  /**
   * Starting from a state whose paths end at leaves, key presses, default
   * focus and forced focus only ever focus leaves: the focused path always
   * ends at exactly one focused leaf.
   */
  lemma KeyDownFocusesLeaves(s: NavState, keyCode: int)
    requires ValidState(s) && FocusOnLeaves(s)
    ensures FocusOnLeaves(KeyDownState(s, keyCode).0)
  {
    if IsArrowKey(keyCode) {
      var p := if |s.currentFocusedPath| > 0 then s.currentFocusedPath else s.lastFocusedPath;
      if |p| > 0 {
        var dir := DirectionFromKey(keyCode).value;
        match NextFocusFrom(s.nodes, Last(p), dir)
        case None =>
        case Some(next) => FocusKeepsFocusOnLeaves(s.(lastDirection := Some(dir)), next);
      }
    }
  }

  lemma FocusDefaultFocusesLeaves(s: NavState)
    requires ValidState(s) && FocusOnLeaves(s)
    ensures FocusDefaultState(s).Done? ==> FocusOnLeaves(FocusDefaultState(s).state)
  {
    match s.defaultFocus
    case Target(n) => FocusKeepsFocusOnLeaves(s, n);
    case Unresolved =>
    case NoDefault =>
      match DefaultFocus(s.nodes, s.root)
      case None =>
      case Some(n) => FocusKeepsFocusOnLeaves(s, n);
  }

  lemma ForceFocusFocusesLeaves(s: NavState, id: string)
    requires ValidState(s) && FocusOnLeaves(s)
    ensures ForceFocusState(s, id).Done? ==> FocusOnLeaves(ForceFocusState(s, id).state)
  {
    if id in s.focusableComponents {
      match DefaultFocus(s.nodes, s.focusableComponents[id])
      case None =>
      case Some(n) => FocusKeepsFocusOnLeaves(s, n);
    }
  }

  /** The default target a component sets is always a leaf, never a container. */
  lemma SetDefaultTargetsLeaf(s: NavState, component: Handle)
    requires ValidState(s) && component < |s.nodes| && FocusOnLeaves(s)
    ensures FocusOnLeaves(SetDefaultState(s, component))
    ensures var d := SetDefaultState(s, component).defaultFocus;
      d.Target? ==> component in TreePath(s.nodes, d.node)
  {
    var d := SetDefaultState(s, component).defaultFocus;
    if d.Target? && s.nodes[component].isContainer {
      DefaultFocusInSubtree(s.nodes, component);
    }
  }

  /**
   * `focusDefault`: an explicit default target is focused; with no default
   * the root's default focus is; it throws exactly when the default target
   * is unresolved or the root resolves to nothing.
   */
  lemma FocusDefaultEffect(s: NavState)
    requires ValidState(s)
    ensures s.defaultFocus.Target? ==> FocusDefaultState(s) == Done(FocusState(s, s.defaultFocus.node))
    ensures s.defaultFocus.NoDefault? && DefaultFocus(s.nodes, s.root).Some? ==>
      FocusDefaultState(s) == Done(FocusState(s, DefaultFocus(s.nodes, s.root).value))
    ensures FocusDefaultState(s) == Thrown(NO_FOCUS_TARGET) <==>
      s.defaultFocus.Unresolved? || (s.defaultFocus.NoDefault? && DefaultFocus(s.nodes, s.root).None?)
    ensures FocusDefaultState(s).Thrown? ==> FocusDefaultState(s) == Thrown(NO_FOCUS_TARGET)
  {
  }

  /**
   * `setDefault`: a leaf component is its own default target; a container
   * stands for its default focus, or for nothing resolvable; no other field
   * changes.
   */
  lemma SetDefaultEffect(s: NavState, component: Handle)
    requires ValidState(s) && component < |s.nodes|
    ensures !s.nodes[component].isContainer ==>
      SetDefaultState(s, component) == s.(defaultFocus := Target(component))
    ensures s.nodes[component].isContainer && DefaultFocus(s.nodes, component).Some? ==>
      SetDefaultState(s, component) == s.(defaultFocus := Target(DefaultFocus(s.nodes, component).value))
    ensures s.nodes[component].isContainer && DefaultFocus(s.nodes, component).None? ==>
      SetDefaultState(s, component) == s.(defaultFocus := Unresolved)
  {
  }

  /**
   * `forceFocus`: a registered component's default focus is focused; an
   * unregistered id throws the missing-component error and a component that
   * resolves to nothing has no node to focus.
   */
  lemma ForceFocusEffect(s: NavState, id: string)
    requires ValidState(s)
    ensures id !in s.focusableComponents ==> ForceFocusState(s, id) == Thrown(MissingComponent(id))
    ensures id in s.focusableComponents && DefaultFocus(s.nodes, s.focusableComponents[id]).Some? ==>
      ForceFocusState(s, id) == Done(FocusState(s, DefaultFocus(s.nodes, s.focusableComponents[id]).value))
    ensures id in s.focusableComponents && DefaultFocus(s.nodes, s.focusableComponents[id]).None? ==>
      ForceFocusState(s, id) == Thrown(NO_FOCUS_TARGET)
  {
  }

  /**
   * A blocked or absorbed move changes nothing at all; a move that finds a
   * target records the direction, makes the target's path current and the
   * old current path the last one.
   */
  lemma FocusNextEffect(s: NavState, dir: Direction, focusedPath: seq<Handle>)
    requires ValidState(s) && |focusedPath| > 0 && Last(focusedPath) < |s.nodes|
    ensures var next := NextFocusFrom(s.nodes, Last(focusedPath), dir);
      var r := FocusNextState(s, dir, focusedPath);
      && (next.None? ==> r == s)
      && (next.Some? ==>
            && r.lastDirection == Some(dir)
            && r.currentFocusedPath == TreePath(s.nodes, next.value)
            && r.lastFocusedPath == s.currentFocusedPath)
  {
    var next := NextFocusFrom(s.nodes, Last(focusedPath), dir);
    if next.Some? {
      var r := FocusState(s.(lastDirection := Some(dir)), next.value);
      SameShapeStructure(s.nodes, r.nodes);
    }
  }

  /**
   * The key dispatch: an arrow key moves from the current path when it is
   * non-empty, else from the last path, and does nothing when both are
   * empty; Enter with nothing focused does nothing, otherwise it notifies
   * only the focused leaf and leaves both paths alone; other keys do nothing.
   */
  lemma KeyDownEffect(s: NavState, keyCode: int)
    requires ValidState(s)
    ensures var (r, suppressed) := KeyDownState(s, keyCode);
      && (IsArrowKey(keyCode) ==>
            var dir := DirectionFromKey(keyCode).value;
            && suppressed
            && (s.currentFocusedPath != [] ==> r == FocusNextState(s, dir, s.currentFocusedPath))
            && (s.currentFocusedPath == [] && s.lastFocusedPath != [] ==>
                  r == FocusNextState(s, dir, s.lastFocusedPath))
            && (s.currentFocusedPath == [] && s.lastFocusedPath == [] ==> r == s))
      && (keyCode == KEYBOARD_ENTER ==>
            && !suppressed
            && (s.currentFocusedPath == [] ==> r == s)
            && (s.currentFocusedPath != [] ==>
                  var leaf := Last(s.currentFocusedPath);
                  r == s.(trace := s.trace + if s.nodes[leaf].hasOnEnterDown then [EnterDownHandled(leaf)] else [])))
      && (!IsArrowKey(keyCode) && keyCode != KEYBOARD_ENTER ==> r == s && !suppressed)
  {
  }

  /** Modifier keys are recognised and do nothing. */
  lemma ModifierKeysIgnored(s: NavState)
    requires ValidState(s)
    ensures KeyDownState(s, KEYBOARD_ALT) == (s, false)
    ensures KeyDownState(s, KEYBOARD_CTRL) == (s, false)
    ensures KeyDownState(s, KEYBOARD_META) == (s, false)
    ensures KeyDownState(s, KEYBOARD_SHIFT) == (s, false)
  {
  }

  /**
   * Registration: an id that is already registered is returned as it is and
   * nothing changes; without an id (or with the empty id) the id is
   * "focusable-" followed by the counter, which advances by one; a new id
   * is registered as given. In every case the returned id is registered and
   * at most that id is added.
   */
  lemma AddComponentEffect(s: NavState, component: Handle, id: Option<string>)
    requires ValidState(s) && component < |s.nodes|
    ensures var (r, newId) := AddComponentState(s, component, id);
      && newId in r.focusableComponents
      && r.focusableComponents.Keys == s.focusableComponents.Keys + {newId}
      && (id.Some? && id.value in s.focusableComponents ==> r == s && newId == id.value)
      && (id.Some? && id.value !in s.focusableComponents && id.value != "" ==>
            && newId == id.value && r.focusableIds == s.focusableIds
            && r.focusableComponents == s.focusableComponents[newId := component])
      && (!(id.Some? && id.value in s.focusableComponents) && (id.None? || id.value == "") ==>
            && newId == AUTO_ID_PREFIX + NatToString(s.focusableIds)
            && r.focusableIds == s.focusableIds + 1
            && r.focusableComponents == s.focusableComponents[newId := component])
      && r.(focusableComponents := s.focusableComponents, focusableIds := s.focusableIds) == s
  {
  }

  /** Adding twice under the same id: one entry, the same id both times, the second call a no-op. */
  lemma AddComponentIdempotent(s: NavState, c1: Handle, c2: Handle, id: string)
    requires ValidState(s) && c1 < |s.nodes| && c2 < |s.nodes| && id != ""
    ensures var (s1, id1) := AddComponentState(s, c1, Some(id));
      var (s2, id2) := AddComponentState(s1, c2, Some(id));
      id1 == id && id2 == id && s2 == s1 && id in s2.focusableComponents
  {
  }

  /** Generated ids never repeat: two generations at different counter values give different ids. */
  lemma GeneratedIdsDiffer(s: NavState, c1: Handle, c2: Handle)
    requires ValidState(s) && c1 < |s.nodes| && c2 < |s.nodes|
    ensures var (s1, id1) := AddComponentState(s, c1, None);
      var (s2, id2) := AddComponentState(s1, c2, None);
      id1 != id2 && s2.focusableIds == s.focusableIds + 2
  {
    var (s1, id1) := AddComponentState(s, c1, None);
    var (s2, id2) := AddComponentState(s1, c2, None);
    if id1 == id2 {
      AutoIdInjective(s.focusableIds, s1.focusableIds);
    }
  }

  /** Forcing focus on an unregistered id throws the missing-component error and changes nothing. */
  lemma ForceFocusUnknownId(s: NavState, id: string)
    requires ValidState(s) && id !in s.focusableComponents
    ensures ForceFocusState(s, id) == Thrown(MissingComponent(id))
  {
  }

  /**
   * Re-entry memory: when focus moves to `next`, every container left on
   * the way out (every blurred node but the last) now resolves its default
   * focus through the child it was left through, so navigating back into it
   * lands where the user left off.
   */
  lemma ReentryResumesLastChild(s: NavState, next: Handle, j: nat)
    requires ValidState(s) && next < |s.nodes|
    requires var b := BlurredSuffix(TreePath(s.nodes, next), s.currentFocusedPath);
      j + 1 < |b| && s.nodes[b[j]].isContainer
    ensures var b := BlurredSuffix(TreePath(s.nodes, next), s.currentFocusedPath);
      var r := FocusState(s, next);
      DefaultFocus(r.nodes, b[j]) == DefaultFocus(r.nodes, b[j + 1])
  {
    BlurResumesLastChild(s.nodes, s.currentFocusedPath, TreePath(s.nodes, next), j);
  }

  /** The first loop of `blur`: the first index at which the two paths differ. */
  method ChangeNode(nextTree: seq<Handle>, cur: seq<Handle>) returns (changeNode: Option<nat>)
    ensures changeNode == FirstDiff(nextTree, cur)
  {
    changeNode := None;
    var pathLength := if |nextTree| < |cur| then |nextTree| else |cur|;
    for i := 0 to pathLength
      invariant changeNode == None
      invariant forall j :: 0 <= j < i ==> nextTree[j] == cur[j]
    {
      if nextTree[i] == cur[i] {
        continue;
      }
      changeNode := Some(i);
      break;
    }
    FirstDiffSpec(nextTree, cur);
  }

  /** `BlurState` spelled out by the two loops of `blur`: nothing when no index differs, else from k on. */
  lemma BlurStateSteps(s: NavState, nextTree: seq<Handle>)
    requires ValidState(s)
    ensures var cur := s.currentFocusedPath;
      InArena(s.nodes, cur) &&
      match FirstDiff(nextTree, cur)
      case None => BlurState(s, nextTree) == s
      case Some(k) =>
        BlurState(s, nextTree) ==
          s.(nodes := RecordUpTo(s.nodes, cur, k, |cur|), trace := s.trace + Blurs(cur[k..]))
  {
    PathOkFacts(s.nodes, s.currentFocusedPath);
    assert s.trace + Blurs([]) == s.trace;
  }

  /**
   * The second loop of `blur`: from index k to the leaf, blur each node and
   * let every node but the leaf remember the child it was left through.
   */
  method BlurFrom(nodes: seq<Node>, cur: seq<Handle>, k: nat) returns (newNodes: seq<Node>, blurs: seq<Event>)
    requires k <= |cur| && InArena(nodes, cur)
    ensures newNodes == RecordUpTo(nodes, cur, k, |cur|)
    ensures blurs == Blurs(cur[k..])
  {
    newNodes, blurs := nodes, [];
    for i := k to |cur|
      invariant newNodes == RecordUpTo(nodes, cur, k, i)
      invariant blurs == Blurs(cur[k..i])
    {
      BlursExtend(cur, k, i);
      RecordUpToStep(nodes, cur, k, i);
      blurs := blurs + [Blurred(cur[i])];
      if !(i < |cur| - 1) {
        continue;
      }
      newNodes := newNodes[cur[i] :=
        newNodes[cur[i]].(lastFocusChild := Some(newNodes[cur[i + 1]].indexInParent as int))];
    }
    assert cur[k..|cur|] == cur[k..];
  }

  class Navigation {
    var nodes: seq<Node>
    var root: Handle
    var currentFocusedPath: seq<Handle>
    var lastFocusedPath: seq<Handle>
    var lastDirection: Option<Direction>
    var defaultFocus: DefaultTarget
    var focusableComponents: map<string, Handle>
    var focusableIds: nat
    var trace: seq<Event>

    function State(): NavState
      reads this
    {
      NavState(nodes, root, currentFocusedPath, lastFocusedPath, lastDirection,
               defaultFocus, focusableComponents, focusableIds, trace)
    }

    ghost predicate Valid()
      reads this
    {
      ValidState(State())
    }

    /** A controller over the tree `tree` whose root list is `rootNode`; nothing focused yet. */
    constructor (tree: seq<Node>, rootNode: Handle)
      requires WellFormed(tree) && rootNode < |tree|
      ensures Valid() && State() == Initial(tree, rootNode)
    {
      nodes := tree;
      root := rootNode;
      currentFocusedPath := [];
      lastFocusedPath := [];
      lastDirection := None;
      defaultFocus := NoDefault;
      focusableComponents := map[];
      focusableIds := 0;
      trace := [];
    }

    /** Handles a key press; `suppressed` tells whether the host event is stopped. */
    method OnKeyDown(keyCode: int) returns (suppressed: bool)
      requires Valid()
      modifies this
      ensures Valid() && (State(), suppressed) == KeyDownState(old(State()), keyCode)
    {
      if IsArrowKey(keyCode) {
        var nextFocusedPath := lastFocusedPath;
        if |currentFocusedPath| > 0 {
          nextFocusedPath := currentFocusedPath;
        }
        if |nextFocusedPath| > 0 {
          var direction := DirectionFromKey(keyCode).value;
          FocusNext(direction, nextFocusedPath);
        }
        return true;
      } else if keyCode == KEYBOARD_ENTER {
        if |currentFocusedPath| == 0 {
          return false;
        }
        var element := Last(currentFocusedPath);
        var handled := FireEvent(element, ENTER_DOWN);
      }
      return false;
    }

    method FireEvent(element: Handle, evt: string) returns (handled: bool)
      requires Valid() && element < |nodes|
      modifies this
      ensures Valid() && (State(), handled) == FireEventState(old(State()), element, evt)
    {
      var n := nodes[element];
      assert trace + [] == trace;
      if evt == WILL_MOVE {
        if n.hasOnWillMove {
          trace := trace + [WillMoveHandled(element)];
        }
      } else if evt == ON_FOCUS {
        trace := trace + [Focused(element)];
      } else if evt == ON_BLUR {
        trace := trace + [Blurred(element)];
      } else if evt == ENTER_DOWN {
        if n.hasOnEnterDown {
          trace := trace + [EnterDownHandled(element)];
        }
      } else {
        return false;
      }
      return true;
    }

    method FocusNext(direction: Direction, focusedPath: seq<Handle>)
      requires Valid() && |focusedPath| > 0 && Last(focusedPath) < |nodes|
      modifies this
      ensures Valid() && State() == FocusNextState(old(State()), direction, focusedPath)
    {
      var next := NextFocusFrom(nodes, Last(focusedPath), direction);
      if next.Some? {
        lastDirection := Some(direction);
        Focus(next.value);
      }
    }

    method Blur(nextTree: seq<Handle>)
      requires Valid()
      modifies this
      ensures Valid() && State() == BlurState(old(State()), nextTree)
    {
      ghost var s0 := State();
      var cur := currentFocusedPath;
      PathOkFacts(nodes, cur);
      var changeNode := ChangeNode(nextTree, cur);
      BlurStateSteps(s0, nextTree);
      if changeNode.None? {
        return;
      }
      var k := changeNode.value;
      var newNodes, blurs := BlurFrom(nodes, cur, k);
      nodes, trace := newNodes, trace + blurs;
    }

    method Focus(next: Handle)
      requires Valid() && next < |nodes|
      modifies this
      ensures Valid() && State() == FocusState(old(State()), next)
    {
      ghost var nodes0 := nodes;
      Blur(TreePath(nodes, next));
      SameShapeStructure(nodes0, nodes);
      trace := trace + [Focused(next)];
      var lastPath := currentFocusedPath;
      currentFocusedPath := TreePath(nodes, next);
      lastFocusedPath := lastPath;
    }

    method FocusDefault() returns (error: Option<string>)
      requires Valid()
      modifies this
      ensures Valid()
      ensures var o := FocusDefaultState(old(State()));
        if o.Done? then error.None? && State() == o.state
        else error == Some(o.message) && State() == old(State())
    {
      match defaultFocus
      case Target(n) =>
        Focus(n);
        return None;
      case Unresolved =>
        return Some(NO_FOCUS_TARGET);
      case NoDefault =>
        var target := DefaultFocus(nodes, root);
        if target.None? {
          return Some(NO_FOCUS_TARGET);
        }
        Focus(target.value);
        return None;
    }

    method SetDefault(component: Handle)
      requires Valid() && component < |nodes|
      modifies this
      ensures Valid() && State() == SetDefaultState(old(State()), component)
    {
      if nodes[component].isContainer {
        var target := DefaultFocus(nodes, component);
        defaultFocus := if target.Some? then Target(target.value) else Unresolved;
      } else {
        defaultFocus := Target(component);
      }
    }

    method AddComponent(component: Handle, id: Option<string>) returns (newId: string)
      requires Valid() && component < |nodes|
      modifies this
      ensures Valid() && (State(), newId) == AddComponentState(old(State()), component, id)
    {
      if id.Some? && id.value in focusableComponents {
        return id.value;
      }
      if id.None? || id.value == "" {
        newId := AutoId(focusableIds);
        focusableIds := focusableIds + 1;
      } else {
        newId := id.value;
      }
      focusableComponents := focusableComponents[newId := component];
    }

    method ForceFocus(id: string) returns (error: Option<string>)
      requires Valid()
      modifies this
      ensures Valid()
      ensures var o := ForceFocusState(old(State()), id);
        if o.Done? then error.None? && State() == o.state
        else error == Some(o.message) && State() == old(State())
    {
      if id !in focusableComponents {
        return Some(MissingComponent(id));
      }
      var target := DefaultFocus(nodes, focusableComponents[id]);
      if target.None? {
        return Some(NO_FOCUS_TARGET);
      }
      Focus(target.value);
      return None;
    }

    method RemoveFocusableId(id: string)
      requires Valid()
      modifies this
      ensures Valid() && State() == RemoveFocusableIdState(old(State()), id)
    {
      if id in focusableComponents {
        focusableComponents := focusableComponents - {id};
      }
    }
  }
}
