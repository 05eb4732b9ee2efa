/**
 * A worked example: a vertical root list over two horizontal lists
 * H1 = [a, b, c] and H2 = [d, e, f]. Starting at a, right twice reaches c,
 * a third right is blocked at the root, down enters H2 at d and up returns
 * to H1 at c, the child H1 was left through, not at its first child a.
 *
 * Handles: root 0, H1 1, H2 2, a b c = 3 4 5, d e f = 6 7 8.
 */
module Scenario {
  import opened FocusTree
  import opened Traversal
  import opened PathDiff

  function Leaf(parent: Handle, index: nat): Node {
    Node(Some(parent), [], index, false, Unoriented, None, false, false, None)
  }

  function List(parent: Option<Handle>, children: seq<Handle>, index: nat, orientation: Orientation): Node {
    Node(parent, children, index, true, orientation, None, false, false, None)
  }

  const Tree: seq<Node> := [
    List(None, [1, 2], 0, Vertical),
    List(Some(0), [3, 4, 5], 0, Horizontal),
    List(Some(0), [6, 7, 8], 1, Horizontal),
    Leaf(1, 0), Leaf(1, 1), Leaf(1, 2),
    Leaf(2, 0), Leaf(2, 1), Leaf(2, 2)]

  lemma ListsWellFormed()
    ensures NodeWellFormed(Tree, 0) && NodeWellFormed(Tree, 1) && NodeWellFormed(Tree, 2)
  {
    assert Tree[0].children == [1, 2] && Tree[1].children == [3, 4, 5] && Tree[2].children == [6, 7, 8];
  }

  lemma LeavesWellFormed()
    ensures forall h: Handle :: 3 <= h < |Tree| ==> NodeWellFormed(Tree, h)
  {
    forall h: Handle | 3 <= h < |Tree|
      ensures NodeWellFormed(Tree, h)
    {
      var p := if h < 6 then 1 else 2;
      assert Tree[h] == Leaf(p, h - 3 * p) && Tree[p].children[h - 3 * p] == h;
    }
  }

  lemma TreeWellFormed()
    ensures WellFormed(Tree)
  {
    ListsWellFormed();
    LeavesWellFormed();
    assert forall h: Handle :: h < |Tree| ==> NodeWellFormed(Tree, h);
  }

  /** H1 as left by the move from c down to d: it remembers index 2, the position of c. */
  const LeftH1: seq<Node> := Tree[1 := Tree[1].(lastFocusChild := Some(2))]

  /** Mounting resolves the root to its first leaf, a. */
  lemma MountResolvesToA()
    ensures WellFormed(Tree)
    ensures DefaultFocus(Tree, 0) == Some(3) && TreePath(Tree, 3) == [0, 1, 3]
  {
    TreeWellFormed();
  }

  /** Right moves from a to b and from b to c. */
  lemma RightAlongH1()
    ensures WellFormed(Tree)
    ensures NextFocusFrom(Tree, 3, Right) == Some(4)
    ensures NextFocusFrom(Tree, 4, Right) == Some(5)
  {
    TreeWellFormed();
  }

  /** A third right is blocked: H1 has no child after c, and the vertical root, which has no parent, does not move sideways. */
  lemma RightBlockedAtC()
    ensures WellFormed(Tree)
    ensures NextFocusFrom(Tree, 5, Right) == None
  {
    TreeWellFormed();
    assert Bubble(Tree, 1, Right) == None;
  }

  /** Down from c bubbles to the root, which enters H2 at its first child d. */
  lemma DownEntersH2AtD()
    ensures WellFormed(Tree)
    ensures NextFocusFrom(Tree, 5, Down) == Some(6)
  {
    TreeWellFormed();
    assert DefaultFocus(Tree, 2) == Some(6);
  }

  /** Moving from c to d blurs H1 and then c, and H1 records that it was left through c. */
  lemma LeavingH1RemembersC()
    ensures BlurredSuffix([0, 2, 6], [0, 1, 5]) == [1, 5]
    ensures AfterBlur(Tree, [0, 1, 5], [0, 2, 6]) == LeftH1
  {
    assert FirstDiff([0, 2, 6], [0, 1, 5]) == Some(1);
    assert RecordUpTo(Tree, [0, 1, 5], 1, 2) == LeftH1;
  }

  /** Up from d returns to H1 at c, the child it was left through. */
  lemma UpReturnsToC()
    ensures WellFormed(LeftH1)
    ensures NextFocusFrom(LeftH1, 6, Up) == Some(5)
  {
    TreeWellFormed();
    SameShapeWellFormed(Tree, LeftH1);
    assert DefaultFocus(LeftH1, 1) == Some(5);
  }

  /** Without the recorded memory the same move would have landed on a. */
  lemma UpWithoutMemoryLandsOnA()
    ensures WellFormed(Tree)
    ensures NextFocusFrom(Tree, 6, Up) == Some(3)
  {
    TreeWellFormed();
    assert DefaultFocus(Tree, 1) == Some(3);
  }
}
