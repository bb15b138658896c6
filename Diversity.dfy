/** Pruning a diversity tree (prune_tree in diversity.py): the copy of a tree
    without the subtrees whose root label is to be discarded. */
module Diversity {
  import opened Wrappers
  import opened TreeNode
  import opened Treemap

  /** prune_tree(t, discard).  A leaf whose label is kept is returned as it
      is; every other node, the root included even when its own label is to
      be discarded, is rebuilt with count None from the pruned copies of its
      kept children. */
  function PruneTree(t: Tree, discard: seq<string>): (r: Tree)
    decreases t, |t.children| + 1
    ensures r.nodeLabel == t.nodeLabel
    ensures |r.children| <= |t.children|
    ensures r == t || (r.count.None? && r.verboseLabel.None?)
  {
    if |t.children| == 0 && t.nodeLabel !in discard then t
    else NewNode(t.nodeLabel, None, PruneChildren(t, discard, 0))
  }

  /** The pruned copies of the kept children i, i+1, ... of t. */
  function PruneChildren(t: Tree, discard: seq<string>, i: nat): (r: seq<Tree>)
    decreases t, |t.children| - i
    ensures i <= |t.children| ==> |r| <= |t.children| - i
  {
    if i >= |t.children| then []
    else
      (if t.children[i].nodeLabel !in discard then [PruneTree(t.children[i], discard)] else [])
      + PruneChildren(t, discard, i + 1)
  }

  /** prune_tree rebuilds every node except a kept leaf. */
  predicate Rebuilt(t: Tree, discard: seq<string>) {
    |t.children| > 0 || t.nodeLabel in discard
  }

  /** No node below the root of the pruned tree carries a discarded label. */
  lemma {:induction false} NoDiscardedBelowRoot(t: Tree, discard: seq<string>, p: seq<nat>)
    requires ValidPath(PruneTree(t, discard), p) && |p| > 0
    decreases t, |t.children| + 1
    ensures At(PruneTree(t, discard), p).nodeLabel !in discard
  {
    var r := PruneTree(t, discard);
    var m := PrunedChildrenOrder(t, discard);
    var c := t.children[m[p[0]]];
    assert r.children[p[0]] == PruneTree(c, discard);
    if |p| > 1 {
      NoDiscardedBelowRoot(c, discard, p[1..]);
      assert At(r, p) == At(PruneTree(c, discard), p[1..]);
    }
  }

  /** The children of the pruned tree are the pruned copies of the kept
      children, in their original order: m picks, strictly increasing, the
      index in t.children of each child of the result, and exactly the
      children with a kept label are picked. */
  lemma PrunedChildrenOrder(t: Tree, discard: seq<string>) returns (m: seq<nat>)
    ensures var r := PruneTree(t, discard);
      Rebuilt(t, discard) ==>
        |m| == |r.children|
        && (forall k :: 0 <= k < |m| ==> m[k] < |t.children| && r.children[k] == PruneTree(t.children[m[k]], discard))
        && (forall k, l :: 0 <= k < l < |m| ==> m[k] < m[l])
        && (forall j :: 0 <= j < |t.children| ==> (t.children[j].nodeLabel !in discard <==> j in m))
  {
    m := ChildrenOrder(t, discard, 0);
  }

  /** m picks, strictly increasing, the indices from i on of the children of
      t that rs holds pruned copies of, and exactly the kept ones. */
  predicate Picks(t: Tree, discard: seq<string>, i: nat, rs: seq<Tree>, m: seq<nat>) {
    |m| == |rs|
    && (forall k :: 0 <= k < |m| ==> i <= m[k] < |t.children| && rs[k] == PruneTree(t.children[m[k]], discard))
    && (forall k, l :: 0 <= k < l < |m| ==> m[k] < m[l])
    && (forall j :: i <= j < |t.children| ==> (t.children[j].nodeLabel !in discard <==> j in m))
  }

  lemma {:induction false} ChildrenOrder(t: Tree, discard: seq<string>, i: nat) returns (m: seq<nat>)
    decreases |t.children| - i
    ensures Picks(t, discard, i, PruneChildren(t, discard, i), m)
  {
    if i >= |t.children| {
      m := [];
    } else {
      var rest := ChildrenOrder(t, discard, i + 1);
      if t.children[i].nodeLabel !in discard {
        m := [i] + rest;
        PicksKept(t, discard, i, PruneChildren(t, discard, i + 1), rest);
      } else {
        m := rest;
        PicksDropped(t, discard, i, PruneChildren(t, discard, i + 1), rest);
      }
    }
  }

  lemma PicksKept(t: Tree, discard: seq<string>, i: nat, rs: seq<Tree>, m: seq<nat>)
    requires i < |t.children| && t.children[i].nodeLabel !in discard
    requires Picks(t, discard, i + 1, rs, m)
    ensures Picks(t, discard, i, [PruneTree(t.children[i], discard)] + rs, [i] + m)
  {
    var rs', m' := [PruneTree(t.children[i], discard)] + rs, [i] + m;
    forall k | 0 <= k < |m'|
      ensures i <= m'[k] < |t.children| && rs'[k] == PruneTree(t.children[m'[k]], discard)
    {
      if k > 0 {
        assert m'[k] == m[k - 1] && rs'[k] == rs[k - 1];
      }
    }
    forall k, l | 0 <= k < l < |m'|
      ensures m'[k] < m'[l]
    {
      assert m'[l] == m[l - 1];
      if k > 0 {
        assert m'[k] == m[k - 1];
      }
    }
    forall j | i <= j < |t.children|
      ensures t.children[j].nodeLabel !in discard <==> j in m'
    {
      assert j in m' <==> j == i || j in m;
    }
  }

  lemma PicksDropped(t: Tree, discard: seq<string>, i: nat, rs: seq<Tree>, m: seq<nat>)
    requires i < |t.children| && t.children[i].nodeLabel in discard
    requires Picks(t, discard, i + 1, rs, m)
    ensures Picks(t, discard, i, [] + rs, m)
  {
    assert [] + rs == rs;
  }

  /** Every rebuilt node of the pruned tree has count None, so the counts
      must be computed again; only kept leaves, returned unchanged, keep a
      count. */
  lemma {:induction false} PrunedCountsCleared(t: Tree, discard: seq<string>, p: seq<nat>)
    requires ValidPath(PruneTree(t, discard), p)
    decreases t, |t.children| + 1
    ensures var n := At(PruneTree(t, discard), p);
      n.count.None? || (|n.children| == 0 && n.nodeLabel !in discard)
  {
    var r := PruneTree(t, discard);
    if |p| > 0 {
      var m := PrunedChildrenOrder(t, discard);
      var c := t.children[m[p[0]]];
      assert r.children[p[0]] == PruneTree(c, discard);
      PrunedCountsCleared(c, discard, p[1..]);
      assert At(r, p) == At(PruneTree(c, discard), p[1..]);
    }
  }

  lemma {:induction false} ChildLeafCountsHas(t: Tree, i: nat, j: nat)
    requires i <= j < |t.children|
    decreases j - i
    ensures forall x :: x in LeafCounts(t.children[j]) ==> x in ChildLeafCounts(t, i)
  {
    if i < j {
      ChildLeafCountsHas(t, i + 1, j);
    }
  }

  /** Pruning all the children of a kept internal child of the root leaves a
      leaf without a count, so compute_internal_counts on the pruned tree
      raises. */
  lemma EmptiedChildBreaksCounts(t: Tree, discard: seq<string>, j: nat)
    requires j < |t.children| && t.children[j].nodeLabel !in discard
    requires |t.children[j].children| > 0
    requires forall k :: 0 <= k < |t.children[j].children| ==> t.children[j].children[k].nodeLabel in discard
    ensures CountsFail(PruneTree(t, discard))
  {
    var r := PruneTree(t, discard);
    var c := t.children[j];
    var m := PrunedChildrenOrder(t, discard);
    var k :| 0 <= k < |m| && m[k] == j;
    Emptied(c, discard, 0);
    assert r.children[k] == PruneTree(c, discard);
    assert LeafCounts(r.children[k]) == [None];
    ChildLeafCountsHas(r, 0, k);
  }

  lemma {:induction false} Emptied(c: Tree, discard: seq<string>, i: nat)
    requires forall k :: 0 <= k < |c.children| ==> c.children[k].nodeLabel in discard
    decreases |c.children| - i
    ensures PruneChildren(c, discard, i) == []
  {
    if i < |c.children| {
      Emptied(c, discard, i + 1);
    }
  }
}
