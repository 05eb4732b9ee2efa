/**
 * Directional traversal: what a node answers when asked for the next focus
 * in a direction, starting from the index of one of its children.
 *
 * `HorizontalNextFocus` is the rule of a horizontal list. The pieces it
 * delegates to belong to the base focusable component and to the vertical
 * list, whose code is not part of this model; they are stated here as
 * assumptions:
 *  - bubbling asks the parent, passing this node's `indexInParent` and the
 *    same direction, and yields nothing past the root (`Bubble`);
 *  - the previous/next child of index i is child i-1/i+1, or nothing when
 *    that index is out of range (`PreviousChild`, `NextChild`);
 *  - a node without an orientation only bubbles;
 *  - a vertical list is the mirror image of a horizontal one on up/down;
 *  - a leaf asked to move from itself bubbles to its parent (`NextFocusFrom`).
 */
module Traversal {
  import opened FocusTree

  datatype Direction = Left | Up | Right | Down

  /** The `remainInFocus` prop, read as false when it is not supplied. */
  predicate RemainsInFocus(n: Node) {
    n.remainInFocus == Some(true)
  }

  function ChildAt(nodes: seq<Node>, h: Handle, i: int): (r: Option<Handle>)
    requires h < |nodes|
    ensures r.Some? <==> 0 <= i < |nodes[h].children|
    ensures r.Some? ==> r.value == nodes[h].children[i]
  {
    if 0 <= i < |nodes[h].children| then Some(nodes[h].children[i]) else None
  }

  function PreviousChild(nodes: seq<Node>, h: Handle, i: int): (r: Option<Handle>)
    requires h < |nodes|
    ensures r.Some? <==> 1 <= i <= |nodes[h].children|
    ensures r.Some? ==> r.value == nodes[h].children[i - 1]
  {
    ChildAt(nodes, h, i - 1)
  }

  function NextChild(nodes: seq<Node>, h: Handle, i: int): (r: Option<Handle>)
    requires h < |nodes|
    ensures r.Some? <==> -1 <= i < |nodes[h].children| - 1
    ensures r.Some? ==> r.value == nodes[h].children[i + 1]
  {
    ChildAt(nodes, h, i + 1)
  }

  /** Asks the parent to move on from this node's position; nothing past the root. */
  function Bubble(nodes: seq<Node>, h: Handle, dir: Direction): (r: Option<Handle>)
    requires WellFormed(nodes) && h < |nodes|
    ensures r.Some? ==> r.value < |nodes| && !nodes[r.value].isContainer
    ensures nodes[h].parent.None? ==> r.None?
    ensures nodes[h].parent.Some? ==>
      nodes[h].parent.value < h && r == NextFocus(nodes, nodes[h].parent.value, dir, nodes[h].indexInParent)
    decreases h, 0
  {
    assert NodeWellFormed(nodes, h);
    match nodes[h].parent
    case None => None
    case Some(p) => NextFocus(nodes, p, dir, nodes[h].indexInParent)
  }

  /** `getNextFocus`, dispatched on the node's orientation. */
  function NextFocus(nodes: seq<Node>, h: Handle, dir: Direction, focusedIndex: int): (r: Option<Handle>)
    requires WellFormed(nodes) && h < |nodes|
    ensures r.Some? ==> r.value < |nodes| && !nodes[r.value].isContainer
    decreases h, 2
  {
    match nodes[h].orientation
    case Horizontal => HorizontalNextFocus(nodes, h, dir, focusedIndex)
    case Vertical => VerticalNextFocus(nodes, h, dir, focusedIndex)
    case Unoriented => Bubble(nodes, h, dir)
  }

  /** The next focus a horizontal list gives for `dir`, moving from its child at `focusedIndex`. */
  function HorizontalNextFocus(nodes: seq<Node>, h: Handle, dir: Direction, focusedIndex: int): (r: Option<Handle>)
    requires WellFormed(nodes) && h < |nodes|
    ensures r.Some? ==> r.value < |nodes| && !nodes[r.value].isContainer
    decreases h, 1
  {
    assert NodeWellFormed(nodes, h);
    if dir != Left && dir != Right then
      if RemainsInFocus(nodes[h]) then None else Bubble(nodes, h, dir)
    else
      var nextFocus := if dir == Left then PreviousChild(nodes, h, focusedIndex)
                       else NextChild(nodes, h, focusedIndex);
      match nextFocus
      case None => Bubble(nodes, h, dir)
      case Some(c) => if nodes[c].isContainer then DefaultFocus(nodes, c) else Some(c)
  }

  /** Assumed rule of a vertical list: the horizontal rule with up/down as its axis. */
  function VerticalNextFocus(nodes: seq<Node>, h: Handle, dir: Direction, focusedIndex: int): (r: Option<Handle>)
    requires WellFormed(nodes) && h < |nodes|
    ensures r.Some? ==> r.value < |nodes| && !nodes[r.value].isContainer
    decreases h, 1
  {
    assert NodeWellFormed(nodes, h);
    if dir != Up && dir != Down then
      if RemainsInFocus(nodes[h]) then None else Bubble(nodes, h, dir)
    else
      var nextFocus := if dir == Up then PreviousChild(nodes, h, focusedIndex)
                       else NextChild(nodes, h, focusedIndex);
      match nextFocus
      case None => Bubble(nodes, h, dir)
      case Some(c) => if nodes[c].isContainer then DefaultFocus(nodes, c) else Some(c)
  }

  /** `getNextFocusFrom` on the focused leaf: the leaf's parent decides. */
  function NextFocusFrom(nodes: seq<Node>, leaf: Handle, dir: Direction): (r: Option<Handle>)
    requires WellFormed(nodes) && leaf < |nodes|
    ensures r.Some? ==> r.value < |nodes| && !nodes[r.value].isContainer
  {
    Bubble(nodes, leaf, dir)
  }

  /**
   * Off the horizontal axis (up, down) a horizontal list either absorbs the
   * request, when `remainInFocus` is set, or hands it unchanged to its
   * parent with its own index; it consults none of its children.
   */
  lemma HorizontalOffAxis(nodes: seq<Node>, h: Handle, dir: Direction, focusedIndex: int)
    requires WellFormed(nodes) && h < |nodes|
    requires dir == Up || dir == Down
    ensures RemainsInFocus(nodes[h]) ==> HorizontalNextFocus(nodes, h, dir, focusedIndex) == None
    ensures nodes[h].remainInFocus.None? ==> HorizontalNextFocus(nodes, h, dir, focusedIndex) == Bubble(nodes, h, dir)
    ensures !RemainsInFocus(nodes[h]) ==>
      && HorizontalNextFocus(nodes, h, dir, focusedIndex) == Bubble(nodes, h, dir)
      && (nodes[h].parent.None? ==> HorizontalNextFocus(nodes, h, dir, focusedIndex) == None)
      && (nodes[h].parent.Some? ==>
            HorizontalNextFocus(nodes, h, dir, focusedIndex) ==
            NextFocus(nodes, nodes[h].parent.value, dir, nodes[h].indexInParent))
  {
  }

  /**
   * On the axis, `left` looks only at the child before `focusedIndex` and
   * `right` only at the child after it; a missing sibling bubbles the same
   * direction to the parent (even when `remainInFocus` is set), a container
   * sibling yields its default focus and a leaf sibling is the answer.
   */
  lemma HorizontalOnAxis(nodes: seq<Node>, h: Handle, dir: Direction, focusedIndex: int)
    requires WellFormed(nodes) && h < |nodes|
    requires dir == Left || dir == Right
    ensures var j := if dir == Left then focusedIndex - 1 else focusedIndex + 1;
      var kids := nodes[h].children;
      var r := HorizontalNextFocus(nodes, h, dir, focusedIndex);
      && (!(0 <= j < |kids|) ==> r == Bubble(nodes, h, dir))
      && (0 <= j < |kids| && nodes[kids[j]].isContainer ==> r == DefaultFocus(nodes, kids[j]))
      && (0 <= j < |kids| && !nodes[kids[j]].isContainer ==> r == Some(kids[j]))
  {
    assert NodeWellFormed(nodes, h);
  }

  /**
   * A move never lands on a container: a container sibling is entered
   * through its default focus, which lies inside that sibling's subtree.
   */
  lemma HorizontalEntersContainer(nodes: seq<Node>, h: Handle, dir: Direction, focusedIndex: int)
    requires WellFormed(nodes) && h < |nodes|
    requires dir == Left || dir == Right
    requires var j := if dir == Left then focusedIndex - 1 else focusedIndex + 1;
      0 <= j < |nodes[h].children| && nodes[nodes[h].children[j]].isContainer
    ensures var j := if dir == Left then focusedIndex - 1 else focusedIndex + 1;
      var sibling := nodes[h].children[j];
      var r := HorizontalNextFocus(nodes, h, dir, focusedIndex);
      r != Some(sibling) && (r.Some? ==> sibling in TreePath(nodes, r.value) && h in TreePath(nodes, r.value))
  {
    assert NodeWellFormed(nodes, h);
    var j := if dir == Left then focusedIndex - 1 else focusedIndex + 1;
    var sibling := nodes[h].children[j];
    var r := HorizontalNextFocus(nodes, h, dir, focusedIndex);
    if r.Some? {
      DefaultFocusInSubtree(nodes, sibling);
      var ps := TreePath(nodes, sibling);
      assert nodes[sibling].parent == Some(h);
      assert ps == TreePath(nodes, h) + [sibling];
      assert h in ps;
    }
  }

  /**
   * Left undoes right between two leaf siblings of a horizontal list: from
   * its i-th child moving right lands on child i+1 and from there moving
   * left lands back on child i.
   */
  lemma LeftUndoesRight(nodes: seq<Node>, h: Handle, i: nat)
    requires WellFormed(nodes) && h < |nodes|
    requires nodes[h].orientation == Horizontal
    requires i + 1 < |nodes[h].children|
    requires !nodes[nodes[h].children[i]].isContainer && !nodes[nodes[h].children[i + 1]].isContainer
    ensures NextFocusFrom(nodes, nodes[h].children[i], Right) == Some(nodes[h].children[i + 1])
    ensures NextFocusFrom(nodes, nodes[h].children[i + 1], Left) == Some(nodes[h].children[i])
  {
    assert NodeWellFormed(nodes, h);
    var x, y := nodes[h].children[i], nodes[h].children[i + 1];
    assert nodes[x].parent == Some(h) && nodes[x].indexInParent == i;
    assert nodes[y].parent == Some(h) && nodes[y].indexInParent == i + 1;
    assert HorizontalNextFocus(nodes, h, Right, i) == Some(y);
    assert HorizontalNextFocus(nodes, h, Left, i + 1) == Some(x);
    assert Bubble(nodes, x, Right) == NextFocus(nodes, h, Right, i);
    assert Bubble(nodes, y, Left) == NextFocus(nodes, h, Left, i + 1);
  }

  /**
   * No wrap-around: at a parentless horizontal list, moving left from the
   * first child or right from the last child finds nothing.
   */
  lemma NoWrapAround(nodes: seq<Node>, h: Handle)
    requires WellFormed(nodes) && h < |nodes| && nodes[h].parent.None?
    ensures HorizontalNextFocus(nodes, h, Left, 0) == None
    ensures HorizontalNextFocus(nodes, h, Right, |nodes[h].children| - 1) == None
  {
  }
}
