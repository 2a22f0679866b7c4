/**
 * `findAndRemoveMin` and `buildTree` of Main.java. The `List<Node>` both of them mutate is
 * the class NodeList; what they compute is specified by the functions LastMinIndex,
 * RemoveAt, TreeStep and BuildTreeSpec, whose properties are proved here.
 */
module HuffmanTree {
  import opened Wrappers
  import opened Nodes

  /**
   * `k` is the tie-break the `>=` scan selects: a minimum-weight position with no
   * minimum-weight position after it.
   */
  ghost predicate IsLastMin(s: seq<Node>, k: int) {
    && 0 <= k < |s|
    && (forall j :: 0 <= j < |s| ==> s[k].weight <= s[j].weight)
    && (forall j :: k < j < |s| ==> s[k].weight < s[j].weight)
  }

  /** The position the scan of `findAndRemoveMin` ends on. */
  function LastMinIndex(s: seq<Node>): (k: nat)
    requires |s| > 0
    ensures IsLastMin(s, k)
  {
    if |s| == 1 then 0
    else
      var k := LastMinIndex(s[..|s| - 1]);
      if s[k].weight >= s[|s| - 1].weight then |s| - 1 else k
  }

  /** The list with position `k` removed; the others keep their relative order. */
  function RemoveAt(s: seq<Node>, k: nat): (r: seq<Node>)
    requires k < |s|
    ensures |r| == |s| - 1
    ensures forall i :: 0 <= i < k ==> r[i] == s[i]
    ensures forall i :: k <= i < |r| ==> r[i] == s[i + 1]
    ensures multiset(r) + multiset{s[k]} == multiset(s)
  {
    assert s == s[..k] + [s[k]] + s[k + 1..];
    s[..k] + s[k + 1..]
  }

  lemma SplitAt(s: seq<Node>, k: nat)
    requires k < |s|
    ensures s == (s[..k] + [s[k]]) + s[k + 1..]
  {
  }

  /** Removing a node takes exactly its weight and its leaves out of the list. */
  lemma RemoveAtConserves(s: seq<Node>, k: nat)
    requires k < |s|
    ensures TotalWeight(RemoveAt(s, k)) + s[k].weight == TotalWeight(s)
    ensures multiset(ForestLeaves(RemoveAt(s, k))) + multiset(Leaves(s[k])) == multiset(ForestLeaves(s))
  {
    var a, x, b := s[..k], s[k], s[k + 1..];
    assert RemoveAt(s, k) == a + b;
    SplitAt(s, k);
    ForestConcat(a, b);
    ForestConcat(a + [x], b);
    ForestConcat(a, [x]);
    ForestSingleton(x);
    var la, lx, lb := ForestLeaves(a), Leaves(x), ForestLeaves(b);
    assert ForestLeaves(s) == la + lx + lb;
    assert multiset(la + lb) + multiset(lx) == multiset(la + lx + lb);
  }

  /** The internal node `buildTree` pushes for the pair removed as `r` and then `l`. */
  function Merge(l: Node, r: Node): (n: Node)
    ensures n.symbol == l.symbol + r.symbol && n.weight == l.weight + r.weight
    ensures Leaves(n) == Leaves(l) + Leaves(r)
    ensures forall x :: x in Leaves(l) ==> FindPath(n, x) == Some("0" + FindPath(l, x).value)
    ensures forall x :: x !in Leaves(l) && x in Leaves(r) ==> FindPath(n, x) == Some("1" + FindPath(r, x).value)
  {
    Branch(l.symbol + r.symbol, l.weight + r.weight, l, r)
  }

  /** One iteration of `buildTree`'s loop: the list shrinks by one. */
  function TreeStep(s: seq<Node>): (t: seq<Node>)
    requires |s| >= 2
    ensures |t| == |s| - 1
  {
    var kr := LastMinIndex(s);
    var s1 := RemoveAt(s, kr);
    var kl := LastMinIndex(s1);
    RemoveAt(s1, kl) + [Merge(s1[kl], s[kr])]
  }

  /** Removing two nodes and pushing their merge conserves weight and leaves. */
  lemma MergeConserves(s: seq<Node>, kr: nat, kl: nat)
    requires kr < |s| && kl < |s| - 1
    ensures var s1 := RemoveAt(s, kr); var t := RemoveAt(s1, kl) + [Merge(s1[kl], s[kr])];
      && TotalWeight(t) == TotalWeight(s)
      && multiset(ForestLeaves(t)) == multiset(ForestLeaves(s))
  {
    var r := s[kr];
    var s1 := RemoveAt(s, kr);
    var l := s1[kl];
    var s2 := RemoveAt(s1, kl);
    var m := Merge(l, r);
    var t := s2 + [m];
    assert TotalWeight(t) == TotalWeight(s) by {
      ForestSingleton(m);
      ForestConcat(s2, [m]);
      RemoveAtConserves(s, kr);
      RemoveAtConserves(s1, kl);
    }
    var f, fl, fr := ForestLeaves(s2), Leaves(l), Leaves(r);
    assert ForestLeaves(t) == f + (fl + fr) by {
      ForestSingleton(m);
      ForestConcat(s2, [m]);
    }
    assert multiset(f) + multiset(fl) == multiset(ForestLeaves(s1)) by {
      RemoveAtConserves(s1, kl);
    }
    assert multiset(ForestLeaves(s1)) + multiset(fr) == multiset(ForestLeaves(s)) by {
      RemoveAtConserves(s, kr);
    }
    MultisetChain(f, fl, fr, ForestLeaves(s1), ForestLeaves(s), ForestLeaves(t));
  }

  lemma MultisetChain(f: seq<string>, fl: seq<string>, fr: seq<string>, a: seq<string>, b: seq<string>, c: seq<string>)
    requires c == f + (fl + fr)
    requires multiset(f) + multiset(fl) == multiset(a)
    requires multiset(a) + multiset(fr) == multiset(b)
    ensures multiset(c) == multiset(b)
  {
  }

  /** A step conserves the total weight and the multiset of leaf symbols. */
  lemma TreeStepConserves(s: seq<Node>)
    requires |s| >= 2
    ensures TotalWeight(TreeStep(s)) == TotalWeight(s)
    ensures multiset(ForestLeaves(TreeStep(s))) == multiset(ForestLeaves(s))
  {
    MergeConserves(s, LastMinIndex(s), LastMinIndex(RemoveAt(s, LastMinIndex(s))));
  }

  /** The shape of the list after removing `kr`, then `kl`, and pushing the merge. */
  lemma MergeShape(s: seq<Node>, kr: nat, kl: nat)
    requires kr < |s| && kl < |s| - 1
    ensures var s1 := RemoveAt(s, kr); var s2 := RemoveAt(s1, kl);
      && multiset(s2) + multiset{s1[kl], s[kr]} == multiset(s)
      && forall x :: x in s2 ==> x in s1
  {
    var s1 := RemoveAt(s, kr);
    var s2 := RemoveAt(s1, kl);
    forall x | x in s2
      ensures x in s1
    {
      assert x in multiset(s1);
    }
  }

  /**
   * The node a step pushes merges the two lightest nodes: `r`, the last minimum of the
   * list, on the right, and `l`, the last minimum of the rest, on the left; every other
   * node stays in the list.
   */
  lemma TreeStepMerges(s: seq<Node>)
    requires |s| >= 2
    ensures var t := TreeStep(s); var n := t[|t| - 1];
      && n.Branch?
      && n.symbol == n.left.symbol + n.right.symbol
      && n.weight == n.left.weight + n.right.weight
      && multiset(t[..|t| - 1]) + multiset{n.left, n.right} == multiset(s)
      && IsLastMin(s, LastMinIndex(s)) && n.right == s[LastMinIndex(s)]
      && n.right.weight <= n.left.weight
      && forall x :: x in t[..|t| - 1] ==> n.left.weight <= x.weight
    ensures var s1 := RemoveAt(s, LastMinIndex(s)); var t := TreeStep(s);
      && IsLastMin(s1, LastMinIndex(s1)) && t[|t| - 1].left == s1[LastMinIndex(s1)]
  {
    var kr := LastMinIndex(s);
    var s1 := RemoveAt(s, kr);
    var kl := LastMinIndex(s1);
    MergeShape(s, kr, kl);
    var t := TreeStep(s);
    assert t[..|t| - 1] == RemoveAt(s1, kl);
    assert s1[kl] in multiset(s1);
  }

  /**
   * What `buildTree` returns for a list: None for the empty list (where `nodes.get(0)`
   * throws), the node itself for a singleton, and otherwise the result of repeated merging.
   * The root carries the total weight and exactly the leaves of the list.
   */
  function BuildTreeSpec(s: seq<Node>): (root: Option<Node>)
    ensures root.None? <==> s == []
    ensures |s| == 1 ==> root == Some(s[0])
    ensures root.Some? ==> root.value.weight == TotalWeight(s)
    ensures root.Some? ==> multiset(Leaves(root.value)) == multiset(ForestLeaves(s))
    decreases |s|
  {
    if |s| == 0 then None
    else if |s| == 1 then
      assert s[..0] == [];
      Some(s[0])
    else
      TreeStepConserves(s);
      BuildTreeSpec(TreeStep(s))
  }

  /** The mutable `List<Node>` that `findAndRemoveMin` and `buildTree` work on. */
  class NodeList {
    var nodes: seq<Node>

    constructor (initial: seq<Node>)
      ensures nodes == initial
    {
      nodes := initial;
    }

    /**
     * `findAndRemoveMin`: None on the empty list; otherwise the last minimum-weight node,
     * removed from the list.
     */
    method FindAndRemoveMin() returns (entry: Option<Node>)
      modifies this
      ensures old(nodes) == [] ==> entry == None && nodes == old(nodes)
      ensures old(nodes) != [] ==>
        && entry == Some(old(nodes)[LastMinIndex(old(nodes))])
        && nodes == RemoveAt(old(nodes), LastMinIndex(old(nodes)))
    {
      if |nodes| == 0 {
        return None;
      }
      var k := 0;
      for i := 0 to |nodes|
        invariant nodes == old(nodes)
        invariant i == 0 ==> k == 0
        invariant i > 0 ==> k == LastMinIndex(nodes[..i])
      {
        assert nodes[..i + 1][..i] == nodes[..i];
        if nodes[k].weight >= nodes[i].weight {
          k := i;
        }
      }
      assert nodes[..|nodes|] == nodes;
      entry := Some(nodes[k]);
      nodes := RemoveAt(nodes, k);
    }

    /** `add`: append a node at the end. */
    method Add(n: Node)
      modifies this
      ensures nodes == old(nodes) + [n]
    {
      nodes := nodes + [n];
    }
  }

  /**
   * `buildTree`: while more than one node remains, remove the minimum `r`, then the
   * minimum `l`, and add their merge. The list ends holding only the root.
   */
  method BuildTree(list: NodeList) returns (root: Option<Node>)
    modifies list
    ensures root == BuildTreeSpec(old(list.nodes))
    ensures root.Some? ==> list.nodes == [root.value]
    ensures root.None? ==> list.nodes == []
  {
    while |list.nodes| > 1
      invariant BuildTreeSpec(list.nodes) == BuildTreeSpec(old(list.nodes))
      decreases |list.nodes|
    {
      ghost var before := list.nodes;
      var r := list.FindAndRemoveMin();
      var l := list.FindAndRemoveMin();
      list.Add(Merge(l.value, r.value));
      assert list.nodes == TreeStep(before);
    }
    if |list.nodes| == 0 {
      root := None;
    } else {
      root := Some(list.nodes[0]);
      assert list.nodes == [root.value];
    }
  }
}
