/** Treemap preparation (treemap.py): the counts of internal nodes, the
    verbose labels and the set of leaf labels for the colour key.  Trees are
    values here: each method returns the tree as the source leaves it. */
module Treemap {
  import opened Wrappers
  import opened TreeNode
  import opened Text

  // ---------------------------------------------------------------------
  // compute_internal_counts

  /** The counts of the children of t, in order. */
  function ChildCounts(t: Tree): (r: seq<Option<int>>)
    ensures |r| == |t.children|
  {
    seq(|t.children|, j requires 0 <= j < |t.children| => t.children[j].count)
  }

  /** Every internal node holds a count, and that count is the sum of the
      counts of its children, which are all set. */
  predicate CountsAreSums(t: Tree)
    decreases t
  {
    |t.children| > 0 ==>
      (forall j :: 0 <= j < |t.children| ==> t.children[j].count.Some? && CountsAreSums(t.children[j]))
      && t.count == Some(SumCounts(ChildCounts(t)))
  }

  /** u is t with at most the counts of internal nodes changed. */
  predicate CountsOnly(u: Tree, t: Tree)
    decreases t
  {
    u.nodeLabel == t.nodeLabel && u.verboseLabel == t.verboseLabel
    && |u.children| == |t.children|
    && (|t.children| == 0 ==> u.count == t.count)
    && forall j :: 0 <= j < |t.children| ==> CountsOnly(u.children[j], t.children[j])
  }

  /** When compute_internal_counts raises: some child returns None (a leaf
      without a count) and `total_val += None` fails.  A lone leaf returns
      its count, None or not. */
  predicate CountsFail(t: Tree) {
    |t.children| > 0 && None in LeafCounts(t)
  }

  /** compute_internal_counts(t): the tree with its internal counts set and
      the count returned at its root. */
  method ComputeInternalCounts(t: Tree) returns (r: Result<(Tree, Option<int>)>)
    decreases t
    ensures r.Failure? <==> CountsFail(t)
    ensures r.Failure? ==> r.error == Type
    ensures r.Success? ==> CountsOnly(r.value.0, t) && CountsAreSums(r.value.0)
    ensures r.Success? ==> r.value.1 == r.value.0.count
    ensures r.Success? && |t.children| == 0 ==> r.value.0 == t
    ensures r.Success? && |t.children| > 0 ==> r.value.1 == Some(SumCounts(LeafCounts(t)))
  {
    if |t.children| == 0 {
      return Success((t, t.count));
    }
    var total := 0;
    var done: seq<Tree> := [];
    ghost var pre: seq<Option<int>> := [];
    var i := 0;
    while i < |t.children|
      invariant 0 <= i <= |t.children| && |done| == i
      invariant ChildLeafCounts(t, 0) == pre + ChildLeafCounts(t, i)
      invariant None !in pre
      invariant forall j :: 0 <= j < i ==>
        CountsOnly(done[j], t.children[j]) && CountsAreSums(done[j]) && done[j].count.Some?
      invariant total == SumCounts(DoneCounts(done))
    {
      var c := ComputeInternalCounts(t.children[i]);
      var child := t.children[i];
      assert ChildLeafCounts(t, i) == LeafCounts(child) + ChildLeafCounts(t, i + 1);
      if c.Failure? || c.value.1.None? {
        assert None in LeafCounts(child) by {
          if c.Success? {
            assert c.value.0 == child;
          }
        }
        assert None in ChildLeafCounts(t, 0);
        return Failure(Type);
      }
      ChildAdded(done, c.value.0, total);
      ChildDone(t, done, c.value.0);
      total := total + c.value.1.value;
      done := done + [c.value.0];
      assert ChildLeafCounts(t, 0) == (pre + LeafCounts(child)) + ChildLeafCounts(t, i + 1);
      pre := pre + LeafCounts(child);
      i := i + 1;
    }
    var u := Node(t.nodeLabel, Some(total), t.verboseLabel, done);
    Assembled(t, u, total);
    r := Success((u, Some(total)));
  }

  /** The node compute_internal_counts leaves once every child is done. */
  lemma Assembled(t: Tree, u: Tree, total: int)
    requires |t.children| > 0 && u == Node(t.nodeLabel, Some(total), t.verboseLabel, u.children)
    requires |u.children| == |t.children| && total == SumCounts(DoneCounts(u.children))
    requires forall j :: 0 <= j < |t.children| ==>
      CountsOnly(u.children[j], t.children[j]) && CountsAreSums(u.children[j]) && u.children[j].count.Some?
    ensures CountsOnly(u, t) && CountsAreSums(u)
    ensures u.count == Some(SumCounts(LeafCounts(t)))
  {
    assert ChildCounts(u) == DoneCounts(u.children);
    SumsAreLeafSums(u);
    CountsOnlyLeafCounts(u, t);
  }

  lemma ChildDone(t: Tree, done: seq<Tree>, u: Tree)
    requires |done| < |t.children|
    requires forall j :: 0 <= j < |done| ==>
      CountsOnly(done[j], t.children[j]) && CountsAreSums(done[j]) && done[j].count.Some?
    requires CountsOnly(u, t.children[|done|]) && CountsAreSums(u) && u.count.Some?
    ensures forall j :: 0 <= j < |done| + 1 ==>
      CountsOnly((done + [u])[j], t.children[j]) && CountsAreSums((done + [u])[j]) && (done + [u])[j].count.Some?
  {
  }

  /** The counts of a list of trees. */
  function DoneCounts(ts: seq<Tree>): (r: seq<Option<int>>)
    ensures |r| == |ts|
  {
    seq(|ts|, j requires 0 <= j < |ts| => ts[j].count)
  }

  lemma ChildAdded(done: seq<Tree>, c: Tree, total: int)
    requires total == SumCounts(DoneCounts(done)) && c.count.Some?
    ensures total + c.count.value == SumCounts(DoneCounts(done + [c]))
  {
    assert DoneCounts(done + [c]) == DoneCounts(done) + [c.count];
    SumCountsAppend(DoneCounts(done), [c.count]);
  }

  /** Changing internal counts leaves the leaf counts alone. */
  lemma {:induction false} CountsOnlyLeafCounts(u: Tree, t: Tree)
    requires CountsOnly(u, t)
    decreases t, |t.children| + 1
    ensures LeafCounts(u) == LeafCounts(t)
  {
    if |t.children| > 0 {
      CountsOnlyChildLeafCounts(u, t, 0);
    }
  }

  lemma {:induction false} CountsOnlyChildLeafCounts(u: Tree, t: Tree, i: nat)
    requires CountsOnly(u, t)
    decreases t, |t.children| - i
    ensures ChildLeafCounts(u, i) == ChildLeafCounts(t, i)
  {
    if i < |t.children| {
      CountsOnlyLeafCounts(u.children[i], t.children[i]);
      CountsOnlyChildLeafCounts(u, t, i + 1);
    }
  }

  /** Where every internal count is the sum of its children's, the count of
      an internal node is the sum of all the leaf counts below it. */
  lemma {:induction false} SumsAreLeafSums(t: Tree)
    requires CountsAreSums(t) && |t.children| > 0
    decreases t, |t.children| + 1
    ensures t.count == Some(SumCounts(LeafCounts(t)))
  {
    ChildSumsAreLeafSums(t, 0);
    assert ChildCounts(t)[0..] == ChildCounts(t);
  }

  lemma {:induction false} ChildSumsAreLeafSums(t: Tree, i: nat)
    requires CountsAreSums(t) && |t.children| > 0 && i <= |t.children|
    decreases t, |t.children| - i
    ensures SumCounts(ChildCounts(t)[i..]) == SumCounts(ChildLeafCounts(t, i))
  {
    if i < |t.children| {
      var c := t.children[i];
      ChildSumsAreLeafSums(t, i + 1);
      assert ChildCounts(t)[i..][1..] == ChildCounts(t)[i + 1..];
      SumCountsAppend(LeafCounts(c), ChildLeafCounts(t, i + 1));
      if |c.children| > 0 {
        SumsAreLeafSums(c);
      } else {
        assert SumCounts([c.count]) == c.count.value;
      }
    }
  }

  /** The root count after compute_internal_counts is the sum of the leaf
      counts of the input. */
  lemma RootCountIsLeafSum(t: Tree, u: Tree)
    requires CountsOnly(u, t) && CountsAreSums(u) && |t.children| > 0
    ensures u.count == Some(SumCounts(LeafCounts(t)))
  {
    SumsAreLeafSums(u);
    CountsOnlyLeafCounts(u, t);
  }

  // ---------------------------------------------------------------------
  // compute_verbose_labels

  /** The string an internal node passes down: its label alone below a
      missing or empty prefix, else `prefix: label`. */
  function PassedDown(prefix: Option<string>, nodeLabel: string): (pl: string)
    ensures prefix.Some? && prefix.value != "" ==> pl == prefix.value + ": " + nodeLabel
    ensures prefix.None? || prefix.value == "" ==> pl == nodeLabel
  {
    if prefix.None? || prefix.value == "" then nodeLabel else prefix.value + ": " + nodeLabel
  }

  /** The verbose labels compute_verbose_labels(t, prefix) writes: a leaf
      gets `prefix: label`, an internal node the string it passes down. */
  predicate Labelled(t: Tree, prefix: Option<string>)
    decreases t
  {
    if |t.children| == 0 then
      prefix.Some? && t.verboseLabel == Some(prefix.value + ": " + t.nodeLabel)
    else
      var pl := PassedDown(prefix, t.nodeLabel);
      t.verboseLabel == Some(pl)
      && forall j :: 0 <= j < |t.children| ==> Labelled(t.children[j], Some(pl))
  }

  /** u is t with at most the verbose labels changed. */
  predicate LabelsOnly(u: Tree, t: Tree)
    decreases t
  {
    u.nodeLabel == t.nodeLabel && u.count == t.count
    && |u.children| == |t.children|
    && forall j :: 0 <= j < |t.children| ==> LabelsOnly(u.children[j], t.children[j])
  }

  /** compute_verbose_labels(t, prefix).  Only a leaf reached with prefix
      None fails (`None + ": "`); the children always receive a string. */
  method ComputeVerboseLabels(t: Tree, prefix: Option<string>) returns (r: Result<Tree>)
    decreases t
    ensures r.Failure? <==> |t.children| == 0 && prefix.None?
    ensures r.Failure? ==> r.error == Type
    ensures r.Success? ==> LabelsOnly(r.value, t) && Labelled(r.value, prefix)
  {
    if |t.children| == 0 {
      if prefix.None? {
        return Failure(Type);
      }
      return Success(t.(verboseLabel := Some(prefix.value + ": " + t.nodeLabel)));
    }
    var pl := PassedDown(prefix, t.nodeLabel);
    var done: seq<Tree> := [];
    var i := 0;
    while i < |t.children|
      invariant 0 <= i <= |t.children| && |done| == i
      invariant forall j :: 0 <= j < i ==> LabelsOnly(done[j], t.children[j]) && Labelled(done[j], Some(pl))
    {
      var c := ComputeVerboseLabels(t.children[i], Some(pl));
      done := done + [c.value];
      i := i + 1;
    }
    r := Success(t.(verboseLabel := Some(pl), children := done));
  }

  predicate NonEmptyLabels(t: Tree)
    decreases t
  {
    t.nodeLabel != "" && forall j :: 0 <= j < |t.children| ==> NonEmptyLabels(t.children[j])
  }

  /** The prefix a node receives when the labels above it are pre. */
  function PrefixOf(pre: seq<string>): Option<string> {
    if |pre| == 0 then None else Some(Join(": ", pre))
  }

  /** With non-empty labels, the verbose label of every node is the labels on
      the path to it, joined by ": ", after the labels above the tree. */
  lemma {:induction false} VerboseLabelIsPath(t: Tree, pre: seq<string>, p: seq<nat>)
    requires NonEmptyLabels(t) && forall k :: 0 <= k < |pre| ==> pre[k] != ""
    requires Labelled(t, PrefixOf(pre)) && ValidPath(t, p)
    decreases |p|
    ensures At(t, p).verboseLabel == Some(Join(": ", pre + PathLabels(t, p)))
  {
    if |pre| > 0 {
      JoinNonEmpty(": ", pre);
    }
    if |p| == 0 {
      if |pre| > 0 {
        JoinSnoc(": ", pre, t.nodeLabel);
      } else {
        assert pre + [t.nodeLabel] == [t.nodeLabel];
      }
    } else {
      var pre' := pre + [t.nodeLabel];
      if |pre| > 0 {
        JoinSnoc(": ", pre, t.nodeLabel);
      } else {
        assert pre' == [t.nodeLabel];
      }
      assert PrefixOf(pre') == Some(PassedDown(PrefixOf(pre), t.nodeLabel));
      VerboseLabelIsPath(t.children[p[0]], pre', p[1..]);
      assert pre + PathLabels(t, p) == pre' + PathLabels(t.children[p[0]], p[1..]);
    }
  }

  /** The verbose labels of a tree labelled from the root (prefix None). */
  lemma RootedVerboseLabels(t: Tree, p: seq<nat>)
    requires NonEmptyLabels(t) && Labelled(t, None) && ValidPath(t, p)
    ensures At(t, p).verboseLabel == Some(Join(": ", PathLabels(t, p)))
  {
    VerboseLabelIsPath(t, [], p);
    assert [] + PathLabels(t, p) == PathLabels(t, p);
  }

  // ---------------------------------------------------------------------
  // get_color_key_set

  /** A Python set of strings, updated in place. */
  class StringSet {
    var elems: set<string>

    constructor ()
      ensures elems == {}
    {
      elems := {};
    }
  }

  /** The labels of the leaves of t. */
  function LeafLabels(t: Tree): set<string>
    decreases t, |t.children| + 1
  {
    if |t.children| == 0 then {t.nodeLabel} else ChildLeafLabels(t, 0)
  }

  function ChildLeafLabels(t: Tree, i: nat): set<string>
    decreases t, |t.children| - i
  {
    if i >= |t.children| then {} else LeafLabels(t.children[i]) + ChildLeafLabels(t, i + 1)
  }

  /** get_color_key_set(t, ckset).  The recursive calls pass no set, so they
      all fill dflt, the one default set object shared by every call: a leaf
      adds its label to the set it is given, an internal node adds the leaf
      labels below it to dflt, and the set given is returned. */
  method GetColorKeySet(t: Tree, ckset: StringSet, dflt: StringSet) returns (r: StringSet)
    modifies ckset, dflt
    decreases t
    ensures r == ckset
    ensures |t.children| == 0 ==>
      ckset.elems == old(ckset.elems) + {t.nodeLabel} && (dflt != ckset ==> dflt.elems == old(dflt.elems))
    ensures |t.children| > 0 ==>
      dflt.elems == old(dflt.elems) + LeafLabels(t) && (ckset != dflt ==> ckset.elems == old(ckset.elems))
  {
    if |t.children| == 0 {
      if t.nodeLabel !in ckset.elems {
        ckset.elems := ckset.elems + {t.nodeLabel};
      }
      return ckset;
    }
    var i := 0;
    while i < |t.children|
      invariant 0 <= i <= |t.children|
      invariant dflt.elems + ChildLeafLabels(t, i) == old(dflt.elems) + ChildLeafLabels(t, 0)
      invariant ckset != dflt ==> ckset.elems == old(ckset.elems)
    {
      var _ := GetColorKeySet(t.children[i], dflt, dflt);
      i := i + 1;
    }
    return ckset;
  }

  /** draw_treemap's call get_color_key_set(t): the default set gains the
      leaf labels of t, on top of what earlier calls left in it. */
  method DrawColorKeySet(t: Tree, dflt: StringSet) returns (r: StringSet)
    modifies dflt
    ensures r == dflt && dflt.elems == old(dflt.elems) + LeafLabels(t)
  {
    r := GetColorKeySet(t, dflt, dflt);
  }

  /** Two treemaps drawn one after the other, as diversity.py does: the colour
      key of the second still holds the leaf labels of the first. */
  method SecondColorKeyHoldsFirst() returns (first: set<string>, second: set<string>)
    ensures first == {"Google"} && second == {"Google", "Intel"}
    ensures second != LeafLabels(Node("Intel", Some(1), None, []))
  {
    var dflt := new StringSet();
    var k1 := DrawColorKeySet(Node("Google", Some(1), None, []), dflt);
    first := k1.elems;
    var k2 := DrawColorKeySet(Node("Intel", Some(1), None, []), dflt);
    second := k2.elems;
    assert "Google" in second;
  }

  /** The corrected colour key set: a fresh empty set that is also the set
      the recursive calls fill, in place of the shared default.  It ends as
      exactly the leaf labels of t. */
  method ColorKeySet(t: Tree) returns (r: StringSet)
    ensures fresh(r) && r.elems == LeafLabels(t)
  {
    var s := new StringSet();
    r := GetColorKeySet(t, s, s);
  }

  /** The label of every leaf reached by a path is a leaf label. */
  lemma {:induction false} LeafOnPathIsLeafLabel(t: Tree, p: seq<nat>)
    requires ValidPath(t, p) && |At(t, p).children| == 0
    decreases |p|
    ensures At(t, p).nodeLabel in LeafLabels(t)
  {
    if |p| > 0 {
      LeafOnPathIsLeafLabel(t.children[p[0]], p[1..]);
      ChildLeafLabelsHas(t, 0, p[0]);
    }
  }

  lemma {:induction false} ChildLeafLabelsHas(t: Tree, i: nat, j: nat)
    requires i <= j < |t.children|
    decreases j - i
    ensures LeafLabels(t.children[j]) <= ChildLeafLabels(t, i)
  {
    if i < j {
      ChildLeafLabelsHas(t, i + 1, j);
    }
  }

  /** Every leaf label is the label of a leaf some path reaches. */
  lemma {:induction false} LeafLabelHasPath(t: Tree, x: string) returns (p: seq<nat>)
    requires x in LeafLabels(t)
    decreases t, |t.children| + 1
    ensures ValidPath(t, p) && |At(t, p).children| == 0 && At(t, p).nodeLabel == x
  {
    if |t.children| == 0 {
      p := [];
    } else {
      p := ChildLeafLabelHasPath(t, 0, x);
    }
  }

  lemma {:induction false} ChildLeafLabelHasPath(t: Tree, i: nat, x: string) returns (p: seq<nat>)
    requires x in ChildLeafLabels(t, i)
    decreases t, |t.children| - i
    ensures ValidPath(t, p) && |At(t, p).children| == 0 && At(t, p).nodeLabel == x
  {
    if x in LeafLabels(t.children[i]) {
      var q := LeafLabelHasPath(t.children[i], x);
      p := [i] + q;
      assert p[1..] == q;
    } else {
      p := ChildLeafLabelHasPath(t, i + 1, x);
    }
  }
}
