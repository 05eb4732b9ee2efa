/**
 * The tree of focusable components, kept as an arena: a node is addressed
 * by its handle (its index in the arena) and records the handle of its
 * parent, the ordered handles of its children and its own index among its
 * parent's children. `TreePath` is derived from the parent chain.
 *
 * Nodes are entered into the arena parents first, so a parent's handle is
 * smaller than its children's; this is what makes walking up (tree paths,
 * bubbling) and walking down (default focus) terminate.
 */
module FocusTree {

  datatype Option<+T> = None | Some(value: T)

  type Handle = nat

  /** Which traversal rule the node's component class applies to directions. */
  datatype Orientation = Unoriented | Horizontal | Vertical

  datatype Node = Node(
    parent: Option<Handle>,
    children: seq<Handle>,
    indexInParent: nat,
    isContainer: bool,
    orientation: Orientation,
    remainInFocus: Option<bool>,
    hasOnWillMove: bool,
    hasOnEnterDown: bool,
    lastFocusChild: Option<int>)

  /** The links of node `h` agree with those of its parent and its children. */
  ghost predicate NodeWellFormed(nodes: seq<Node>, h: Handle)
    requires h < |nodes|
  {
    var n := nodes[h];
    && (n.parent.Some? ==>
          var p := n.parent.value;
          && p < h
          && n.indexInParent < |nodes[p].children|
          && nodes[p].children[n.indexInParent] == h)
    && (forall i :: 0 <= i < |n.children| ==>
          && h < n.children[i] < |nodes|
          && nodes[n.children[i]].parent == Some(h)
          && nodes[n.children[i]].indexInParent == i)
  }

  /**
   * Every node is well-formed. The last two conjuncts follow from the first
   * and are spelled out so that indexing by a child or parent handle is
   * immediate.
   */
  ghost predicate WellFormed(nodes: seq<Node>) {
    && (forall h: Handle :: h < |nodes| ==> NodeWellFormed(nodes, h))
    && (forall h: Handle, i :: h < |nodes| && 0 <= i < |nodes[h].children| ==> nodes[h].children[i] < |nodes|)
    && (forall h: Handle :: h < |nodes| && nodes[h].parent.Some? ==> nodes[h].parent.value < h)
  }

  /** A root-to-node sequence of handles in which every node's parent is its predecessor. */
  ghost predicate IsTreePath(nodes: seq<Node>, p: seq<Handle>) {
    && |p| > 0
    && (forall i :: 0 <= i < |p| ==> p[i] < |nodes|)
    && nodes[p[0]].parent == None
    && (forall i :: 0 < i < |p| ==> nodes[p[i]].parent == Some(p[i - 1]))
  }

  ghost predicate Distinct(p: seq<Handle>) {
    forall i, j :: 0 <= i < j < |p| ==> p[i] != p[j]
  }

  function Last(p: seq<Handle>): (h: Handle)
    requires |p| > 0
    ensures h in p
  {
    p[|p| - 1]
  }

  /** The handles from the root down to `h`, read off the parent chain. */
  function TreePath(nodes: seq<Node>, h: Handle): (path: seq<Handle>)
    requires WellFormed(nodes) && h < |nodes|
    ensures IsTreePath(nodes, path) && Last(path) == h
    decreases h
  {
    assert NodeWellFormed(nodes, h);
    match nodes[h].parent
    case None => [h]
    case Some(p) => TreePath(nodes, p) + [h]
  }

  lemma {:induction false} AscendingSteps(p: seq<Handle>, i: nat, j: nat)
    requires forall k :: 0 < k < |p| ==> p[k - 1] < p[k]
    requires i < j < |p|
    ensures p[i] < p[j]
    decreases j - i
  {
    if i + 1 < j {
      AscendingSteps(p, i + 1, j);
    }
  }

  /** Handles strictly increase along a tree path, so a tree path never repeats a node. */
  lemma TreePathAscending(nodes: seq<Node>, p: seq<Handle>)
    requires WellFormed(nodes) && IsTreePath(nodes, p)
    ensures forall i, j :: 0 <= i < j < |p| ==> p[i] < p[j]
    ensures Distinct(p)
  {
    forall k | 0 < k < |p|
      ensures p[k - 1] < p[k]
    {
      assert NodeWellFormed(nodes, p[k]);
    }
    forall i, j | 0 <= i < j < |p|
      ensures p[i] < p[j]
    {
      AscendingSteps(p, i, j);
    }
  }

  /** A node has exactly one tree path: any tree path ending at `h` is `TreePath(nodes, h)`. */
  lemma {:induction false} TreePathUnique(nodes: seq<Node>, p: seq<Handle>)
    requires WellFormed(nodes) && IsTreePath(nodes, p)
    ensures p == TreePath(nodes, Last(p))
    decreases |p|
  {
    var h := Last(p);
    if |p| > 1 {
      var q := p[..|p| - 1];
      assert IsTreePath(nodes, q);
      TreePathUnique(nodes, q);
      assert nodes[h].parent == Some(Last(q));
      assert p == q + [h];
    }
  }

  /** Index of the child a container re-enters: its remembered child when still valid, else 0. */
  function EntryIndex(n: Node): (i: nat)
    ensures |n.children| > 0 ==> i < |n.children|
  {
    match n.lastFocusChild
    case Some(j) => if 0 <= j < |n.children| then j else 0
    case None => 0
  }

  /**
   * The leaf a node resolves to when it is entered without a specific
   * target: a leaf is itself; a container descends into its entry child.
   * A container without children resolves to nothing, assumed to be
   * `undefined` rather than `null` where the controller stores it.
   */
  function DefaultFocus(nodes: seq<Node>, h: Handle): (r: Option<Handle>)
    requires WellFormed(nodes) && h < |nodes|
    ensures r.Some? ==> h <= r.value < |nodes| && !nodes[r.value].isContainer
    decreases |nodes| - h
  {
    assert NodeWellFormed(nodes, h);
    var n := nodes[h];
    if !n.isContainer then Some(h)
    else if |n.children| == 0 then None
    else DefaultFocus(nodes, n.children[EntryIndex(n)])
  }

  /** A container that remembers a valid child index resolves its default focus through that child. */
  lemma DefaultFocusThroughChild(nodes: seq<Node>, c: Handle, idx: nat)
    requires WellFormed(nodes) && c < |nodes| && nodes[c].isContainer
    requires idx < |nodes[c].children| && nodes[c].lastFocusChild == Some(idx as int)
    ensures DefaultFocus(nodes, c) == DefaultFocus(nodes, nodes[c].children[idx])
  {
    assert EntryIndex(nodes[c]) == idx;
  }

  /** Default focus resolves inside the subtree: `h` lies on the tree path of the leaf it yields. */
  lemma {:induction false} DefaultFocusInSubtree(nodes: seq<Node>, h: Handle)
    requires WellFormed(nodes) && h < |nodes|
    requires DefaultFocus(nodes, h).Some?
    ensures var p := TreePath(nodes, DefaultFocus(nodes, h).value);
      h in p && TreePath(nodes, h) <= p
    decreases |nodes| - h
  {
    assert NodeWellFormed(nodes, h);
    var n := nodes[h];
    if n.isContainer {
      var c := n.children[EntryIndex(n)];
      DefaultFocusInSubtree(nodes, c);
      var ph := TreePath(nodes, h);
      var pc := TreePath(nodes, c);
      assert pc == ph + [c];
      assert ph <= pc;
    }
  }

  /** Two arenas with the same structure: they differ at most in `lastFocusChild`. */
  ghost predicate SameShape(a: seq<Node>, b: seq<Node>) {
    && |a| == |b|
    && forall h :: 0 <= h < |a| ==> b[h] == a[h].(lastFocusChild := b[h].lastFocusChild)
  }

  lemma SameShapeTransitive(a: seq<Node>, b: seq<Node>, c: seq<Node>)
    requires SameShape(a, b) && SameShape(b, c)
    ensures SameShape(a, c)
  {
    forall h | 0 <= h < |a|
      ensures c[h] == a[h].(lastFocusChild := c[h].lastFocusChild)
    {
      assert b[h] == a[h].(lastFocusChild := b[h].lastFocusChild);
    }
  }

  /** Recording a remembered child keeps the arena well-formed. */
  lemma SameShapeWellFormed(a: seq<Node>, b: seq<Node>)
    requires SameShape(a, b) && WellFormed(a)
    ensures WellFormed(b)
  {
    forall h: Handle | h < |b|
      ensures NodeWellFormed(b, h)
    {
      assert NodeWellFormed(a, h);
      assert b[h].parent == a[h].parent && b[h].children == a[h].children;
      if a[h].parent.Some? {
        assert b[a[h].parent.value].children == a[a[h].parent.value].children;
      }
      forall i | 0 <= i < |b[h].children|
        ensures b[b[h].children[i]].parent == Some(h)
        ensures b[b[h].children[i]].indexInParent == i
      {
        assert b[a[h].children[i]] ==
          a[a[h].children[i]].(lastFocusChild := b[a[h].children[i]].lastFocusChild);
      }
    }
  }

  /** Recording a remembered child keeps the structure: well-formedness, tree paths and `TreePath`. */
  lemma SameShapeStructure(a: seq<Node>, b: seq<Node>)
    requires SameShape(a, b) && WellFormed(a)
    ensures WellFormed(b)
    ensures forall p :: IsTreePath(a, p) ==> IsTreePath(b, p)
    ensures forall h :: 0 <= h < |a| ==> TreePath(a, h) == TreePath(b, h)
  {
    SameShapeWellFormed(a, b);
    forall p | IsTreePath(a, p)
      ensures IsTreePath(b, p)
    {
      assert b[p[0]].parent == a[p[0]].parent;
      forall i | 0 < i < |p|
        ensures b[p[i]].parent == Some(p[i - 1])
      {
        assert b[p[i]].parent == a[p[i]].parent;
      }
    }
    forall h | 0 <= h < |a|
      ensures TreePath(a, h) == TreePath(b, h)
    {
      TreePathUnique(b, TreePath(a, h));
    }
  }
}
