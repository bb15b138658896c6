/** The labelled tree with counts that treemap.py and diversity.py work on.
    The treenode module itself is not part of this model; from its uses a
    node has a label, a count (None until computed), a verbose label and a
    list of children, and num_children() is the length of that list. */
module TreeNode {
  import opened Wrappers

  datatype Tree = Node(nodeLabel: string, count: Option<int>, verboseLabel: Option<string>, children: seq<Tree>)

  /** TreeNode(label, count, children); its verbose label starts unset. */
  function NewNode(nodeLabel: string, count: Option<int>, children: seq<Tree>): Tree {
    Node(nodeLabel, count, None, children)
  }

  predicate IsLeaf(t: Tree) {
    |t.children| == 0
  }

  /** The counts of the leaves, left to right. */
  function LeafCounts(t: Tree): seq<Option<int>>
    decreases t, |t.children| + 1
  {
    if |t.children| == 0 then [t.count] else ChildLeafCounts(t, 0)
  }

  /** The leaf counts of the children i, i+1, ... of t. */
  function ChildLeafCounts(t: Tree, i: nat): seq<Option<int>>
    decreases t, |t.children| - i
  {
    if i >= |t.children| then [] else LeafCounts(t.children[i]) + ChildLeafCounts(t, i + 1)
  }

  /** The sum of a list of counts, None counting as 0. */
  function SumCounts(xs: seq<Option<int>>): int {
    if |xs| == 0 then 0 else (if xs[0].Some? then xs[0].value else 0) + SumCounts(xs[1..])
  }

  lemma {:induction false} SumCountsAppend(a: seq<Option<int>>, b: seq<Option<int>>)
    ensures SumCounts(a + b) == SumCounts(a) + SumCounts(b)
  {
    if |a| > 0 {
      SumCountsAppend(a[1..], b);
      assert (a + b)[1..] == a[1..] + b;
    } else {
      assert a + b == b;
    }
  }

  /** A path of child indices that stays inside the tree. */
  predicate ValidPath(t: Tree, p: seq<nat>)
    decreases |p|
  {
    |p| == 0 || (p[0] < |t.children| && ValidPath(t.children[p[0]], p[1..]))
  }

  /** The node a valid path leads to. */
  function At(t: Tree, p: seq<nat>): Tree
    requires ValidPath(t, p)
    decreases |p|
  {
    if |p| == 0 then t else At(t.children[p[0]], p[1..])
  }

  /** The labels of the nodes along a valid path, the root's first. */
  function PathLabels(t: Tree, p: seq<nat>): seq<string>
    requires ValidPath(t, p)
    decreases |p|
  {
    if |p| == 0 then [t.nodeLabel] else [t.nodeLabel] + PathLabels(t.children[p[0]], p[1..])
  }
}
