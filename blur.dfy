/**
 * What `blur` does when focus moves from the current path to a new one:
 * the first index at which the two paths differ, the suffix of the old
 * path that loses focus, the blur notifications in root-to-leaf order, and
 * the `lastFocusChild` memory written into every exited node but the last.
 */
module PathDiff {
  import opened FocusTree
  import opened Events

  /** The first index below both lengths at which `next` and `cur` differ, if any. */
  function FirstDiff(next: seq<Handle>, cur: seq<Handle>): (r: Option<nat>)
    ensures r.Some? ==> r.value < |next| && r.value < |cur|
    decreases |next|
  {
    if next == [] || cur == [] then None
    else if next[0] != cur[0] then Some(0)
    else match FirstDiff(next[1..], cur[1..])
      case None => None
      case Some(k) => Some(k + 1)
  }

  /**
   * `FirstDiff` finds nothing exactly when the paths agree on every index
   * they share; otherwise it is the least index where they differ.
   */
  lemma {:induction false} FirstDiffSpec(next: seq<Handle>, cur: seq<Handle>)
    ensures FirstDiff(next, cur).None? <==> forall i :: 0 <= i < |next| && i < |cur| ==> next[i] == cur[i]
    ensures FirstDiff(next, cur).Some? ==>
      var k := FirstDiff(next, cur).value;
      && next[k] != cur[k]
      && forall i :: 0 <= i < k ==> next[i] == cur[i]
    decreases |next|
  {
    if next != [] && cur != [] && next[0] == cur[0] {
      FirstDiffSpec(next[1..], cur[1..]);
      forall i | 0 < i < |next| && i < |cur|
        ensures next[i] == next[1..][i - 1] && cur[i] == cur[1..][i - 1]
      {
      }
    }
  }

  /**
   * The nodes of `cur` that lose focus: from the first index where the paths
   * differ to the end of `cur`; nothing when they agree on every index they
   * share, which includes an empty `cur` and one path extending the other.
   */
  function BlurredSuffix(next: seq<Handle>, cur: seq<Handle>): (b: seq<Handle>)
    ensures |b| <= |cur| && b == cur[|cur| - |b|..]
  {
    match FirstDiff(next, cur)
    case None => []
    case Some(k) => cur[k..]
  }

  /**
   * The blurred suffix is empty exactly when the paths agree on every index
   * they share; otherwise it starts at the first index where they differ.
   */
  lemma BlurredSuffixSpec(next: seq<Handle>, cur: seq<Handle>)
    ensures var b := BlurredSuffix(next, cur);
      && (b == [] <==> forall i :: 0 <= i < |next| && i < |cur| ==> next[i] == cur[i])
      && (b != [] ==>
            var k := |cur| - |b|;
            && k < |next| && next[k] != cur[k]
            && forall i :: 0 <= i < k ==> next[i] == cur[i])
  {
    FirstDiffSpec(next, cur);
  }

  /** The blur notifications for the nodes of `s`, delivered one after another. */
  function Blurs(s: seq<Handle>): (r: seq<Event>)
    ensures |r| == |s|
    decreases |s|
  {
    if s == [] then [] else Blurs(s[..|s| - 1]) + [Blurred(s[|s| - 1])]
  }

  /** One blur notification per node, in the order of `s` (root to leaf for a path suffix). */
  lemma {:induction false} BlursSpec(s: seq<Handle>)
    ensures forall j :: 0 <= j < |s| ==> Blurs(s)[j] == Blurred(s[j])
    decreases |s|
  {
    if s != [] {
      BlursSpec(s[..|s| - 1]);
    }
  }

  /** Blurring one more node of a path appends one notification. */
  lemma BlursExtend(p: seq<Handle>, k: nat, i: nat)
    requires k <= i < |p|
    ensures Blurs(p[k..i + 1]) == Blurs(p[k..i]) + [Blurred(p[i])]
  {
    assert p[k..i + 1][..i - k] == p[k..i];
  }

  ghost predicate InArena(nodes: seq<Node>, p: seq<Handle>) {
    forall j :: 0 <= j < |p| ==> p[j] < |nodes|
  }

  /**
   * The arena after the memory writes of the blur loop for the indices `k`
   * up to (not including) `i` of `path`: each index j that has a successor
   * records the successor's `indexInParent` as `lastFocusChild` of `path[j]`.
   */
  function RecordUpTo(nodes: seq<Node>, path: seq<Handle>, k: nat, i: nat): (r: seq<Node>)
    requires i <= |path| && InArena(nodes, path)
    ensures SameShape(nodes, r)
    decreases i
  {
    if i <= k then nodes
    else
      var prev := RecordUpTo(nodes, path, k, i - 1);
      if i < |path| then
        var n := prev[path[i - 1]];
        var r := prev[path[i - 1] := n.(lastFocusChild := Some(prev[path[i]].indexInParent as int))];
        assert SameShape(prev, r);
        SameShapeTransitive(nodes, prev, r);
        r
      else prev
  }

  /** One more step of the writes: index i is written when it has a successor. */
  lemma RecordUpToStep(nodes: seq<Node>, path: seq<Handle>, k: nat, i: nat)
    requires k <= i < |path| && InArena(nodes, path)
    ensures var prev := RecordUpTo(nodes, path, k, i);
      && |prev| == |nodes|
      && RecordUpTo(nodes, path, k, i + 1) ==
           if i + 1 < |path| then
             prev[path[i] := prev[path[i]].(lastFocusChild := Some(prev[path[i + 1]].indexInParent as int))]
           else prev
  {
  }

  /** The arena once `blur(next)` has run over the current path `cur`. */
  function AfterBlur(nodes: seq<Node>, cur: seq<Handle>, next: seq<Handle>): (r: seq<Node>)
    requires InArena(nodes, cur)
    ensures SameShape(nodes, r)
  {
    match FirstDiff(next, cur)
    case None => nodes
    case Some(k) => RecordUpTo(nodes, cur, k, |cur|)
  }

  /**
   * A written node: for an index j in k..i-1 that has a successor, the
   * writes leave in `path[j]` the successor's `indexInParent` (on a path
   * without repeats, no later write touches `path[j]` again).
   */
  lemma {:induction false} RecordUpToWritten(nodes: seq<Node>, path: seq<Handle>, k: nat, i: nat, j: nat)
    requires k <= j < i <= |path| && j + 1 < |path| && InArena(nodes, path) && Distinct(path)
    ensures RecordUpTo(nodes, path, k, i)[path[j]].lastFocusChild == Some(nodes[path[j + 1]].indexInParent as int)
    decreases i
  {
    var prev := RecordUpTo(nodes, path, k, i - 1);
    if i == j + 1 {
      assert prev[path[i]] == nodes[path[i]].(lastFocusChild := prev[path[i]].lastFocusChild);
    } else {
      RecordUpToWritten(nodes, path, k, i - 1, j);
      if i < |path| {
        assert path[i - 1] != path[j];
      }
    }
  }

  /** An untouched node: one that is no `path[j]` with j in k..i-1 and a successor is left as it was. */
  lemma {:induction false} RecordUpToUntouched(nodes: seq<Node>, path: seq<Handle>, k: nat, i: nat, h: Handle)
    requires k <= i <= |path| && InArena(nodes, path) && h < |nodes|
    requires forall j :: k <= j < i && j + 1 < |path| ==> path[j] != h
    ensures RecordUpTo(nodes, path, k, i)[h] == nodes[h]
    decreases i
  {
    if i > k {
      RecordUpToUntouched(nodes, path, k, i - 1, h);
    }
  }

  /**
   * The writes of the blur loop from index k to the end of `path`: every
   * node from `path[k]` to the one before the leaf remembers its successor's
   * `indexInParent`; the prefix before k, the leaf and every other node are
   * left as they were.
   */
  lemma RecordSuffixEffect(nodes: seq<Node>, path: seq<Handle>, k: nat)
    requires k < |path| && InArena(nodes, path) && Distinct(path)
    ensures var r := RecordUpTo(nodes, path, k, |path|);
      var m := |path| - 1;
      && (forall j :: k <= j < m ==> r[path[j]].lastFocusChild == Some(nodes[path[j + 1]].indexInParent as int))
      && (forall h :: 0 <= h < |nodes| && h !in path[k..m] ==> r[h] == nodes[h])
      && (forall i :: 0 <= i < k ==> r[path[i]] == nodes[path[i]])
      && r[path[m]] == nodes[path[m]]
  {
    var r := RecordUpTo(nodes, path, k, |path|);
    var m := |path| - 1;
    forall j | k <= j < m
      ensures r[path[j]].lastFocusChild == Some(nodes[path[j + 1]].indexInParent as int)
    {
      RecordUpToWritten(nodes, path, k, |path|, j);
    }
    forall h | 0 <= h < |nodes| && h !in path[k..m]
      ensures r[h] == nodes[h]
    {
      forall j | k <= j < |path| && j + 1 < |path|
        ensures path[j] != h
      {
        assert path[k..m][j - k] == path[j];
      }
      RecordUpToUntouched(nodes, path, k, |path|, h);
    }
    forall i | 0 <= i < k
      ensures r[path[i]] == nodes[path[i]]
    {
      RecordUpToUntouched(nodes, path, k, |path|, path[i]);
    }
    RecordUpToUntouched(nodes, path, k, |path|, path[m]);
  }

  /**
   * The memory that `blur` leaves behind. Let b be the blurred suffix of the
   * current path: every node of b but the last now remembers the
   * `indexInParent` of the node after it on the old path.
   */
  lemma BlurMemory(nodes: seq<Node>, cur: seq<Handle>, next: seq<Handle>)
    requires InArena(nodes, cur) && Distinct(cur)
    ensures var b := BlurredSuffix(next, cur);
      var r := AfterBlur(nodes, cur, next);
      && SameShape(nodes, r)
      && (forall j :: 0 <= j < |b| - 1 ==>
            r[b[j]].lastFocusChild == Some(nodes[b[j + 1]].indexInParent as int))
  {
    var b := BlurredSuffix(next, cur);
    if b != [] {
      var k := |cur| - |b|;
      var r := AfterBlur(nodes, cur, next);
      assert FirstDiff(next, cur) == Some(k);
      RecordSuffixEffect(nodes, cur, k);
      forall j | 0 <= j < |b| - 1
        ensures r[b[j]].lastFocusChild == Some(nodes[b[j + 1]].indexInParent as int)
      {
        assert b[j] == cur[k + j] && b[j + 1] == cur[k + j + 1];
      }
    }
  }

  /**
   * Everything else is left alone by `blur`: when the paths agree wherever
   * both are defined nothing changes; otherwise, with k the first index
   * where they differ, the common prefix before k, the old leaf and every
   * node that is not among `cur[k]` .. the node before the leaf.
   */
  lemma BlurLeavesRest(nodes: seq<Node>, cur: seq<Handle>, next: seq<Handle>)
    requires InArena(nodes, cur) && Distinct(cur)
    ensures FirstDiff(next, cur).None? ==> AfterBlur(nodes, cur, next) == nodes
    ensures FirstDiff(next, cur).Some? ==>
      var k := FirstDiff(next, cur).value;
      var r := AfterBlur(nodes, cur, next);
      && (forall h :: 0 <= h < |nodes| && h !in cur[k..|cur| - 1] ==> r[h] == nodes[h])
      && (forall i :: 0 <= i < k ==> r[cur[i]] == nodes[cur[i]])
      && r[Last(cur)] == nodes[Last(cur)]
  {
    if FirstDiff(next, cur).Some? {
      RecordSuffixEffect(nodes, cur, FirstDiff(next, cur).value);
    }
  }

  /**
   * Re-entry after `blur`: a node of the blurred suffix that is a container
   * and is not the last now resolves its default focus through the child it
   * was left through.
   */
  lemma BlurResumesLastChild(nodes: seq<Node>, cur: seq<Handle>, next: seq<Handle>, j: nat)
    requires WellFormed(nodes) && IsTreePath(nodes, cur)
    requires var b := BlurredSuffix(next, cur);
      j + 1 < |b| && nodes[b[j]].isContainer
    ensures var r := AfterBlur(nodes, cur, next);
      var b := BlurredSuffix(next, cur);
      && WellFormed(r)
      && DefaultFocus(r, b[j]) == DefaultFocus(r, b[j + 1])
  {
    var r := AfterBlur(nodes, cur, next);
    var b := BlurredSuffix(next, cur);
    var c, child := b[j], b[j + 1];
    var idx := nodes[child].indexInParent;
    assert SameShape(nodes, r) && r[c] == nodes[c].(lastFocusChild := Some(idx as int)) by {
      TreePathAscending(nodes, cur);
      BlurMemory(nodes, cur, next);
    }
    SameShapeWellFormed(nodes, r);
    assert idx < |nodes[c].children| && nodes[c].children[idx] == child by {
      var k := |cur| - |b|;
      assert c == cur[k + j] && child == cur[k + j + 1];
      EnteredChild(nodes, cur, k + j);
    }
    DefaultFocusThroughChild(r, c, idx);
  }

  /** Along a tree path, the node after index i is the child of `p[i]` at its `indexInParent`. */
  lemma EnteredChild(nodes: seq<Node>, p: seq<Handle>, i: nat)
    requires WellFormed(nodes) && IsTreePath(nodes, p) && i + 1 < |p|
    ensures nodes[p[i + 1]].indexInParent < |nodes[p[i]].children|
    ensures nodes[p[i]].children[nodes[p[i + 1]].indexInParent] == p[i + 1]
  {
    assert NodeWellFormed(nodes, p[i + 1]);
  }
}
