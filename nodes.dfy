/**
 * The tree node of the Huffman coder. The source of `Node` is not available; it is
 * reconstructed from its uses in Main.java (the four-argument constructor, `symbol()`,
 * `weight()`, `incrementWeight()` and `findPath(symbol)`). A node has both
 * children or none, so leaves and internal nodes are two constructors.
 */
module Nodes {
  import opened Wrappers
  import opened Text

  datatype Node =
    | Leaf(symbol: string, weight: int)
    | Branch(symbol: string, weight: int, left: Node, right: Node)

  /** `incrementWeight()`: the same node with its weight one higher. */
  function IncrementWeight(n: Node): (m: Node)
    ensures m.weight == n.weight + 1 && m.symbol == n.symbol && m.Leaf? == n.Leaf?
  {
    match n
    case Leaf(s, w) => Leaf(s, w + 1)
    case Branch(s, w, l, r) => Branch(s, w + 1, l, r)
  }

  /** The leaf symbols of a tree, left to right. */
  function Leaves(n: Node): seq<string>
  {
    match n
    case Leaf(s, _) => [s]
    case Branch(_, _, l, r) => Leaves(l) + Leaves(r)
  }

  /**
   * `findPath(symbol)`, reconstructed as a leaf search: "0" is appended when descending
   * left, "1" when descending right, the left subtree is searched first, and a symbol that
   * labels no leaf yields None. A tree that is a single leaf gives its symbol the empty path.
   */
  function FindPath(n: Node, target: string): (r: Option<string>)
    ensures r.Some? <==> target in Leaves(n)
    ensures r.Some? ==> IsBits(r.value)
    ensures r.Some? && n.Branch? ==> |r.value| > 0
  {
    match n
    case Leaf(s, _) => if s == target then Some("") else None
    case Branch(_, _, l, r) =>
      match FindPath(l, target)
      case Some(p) => Some("0" + p)
      case None =>
        match FindPath(r, target)
        case Some(p) => Some("1" + p)
        case None => None
  }

  /** The paths of two different symbols found in one tree are prefix-free. */
  lemma {:induction false} PathsPrefixFree(n: Node, a: string, b: string)
    requires a != b && FindPath(n, a).Some? && FindPath(n, b).Some?
    ensures !IsPrefix(FindPath(n, a).value, FindPath(n, b).value)
  {
    match n
    case Leaf(_, _) =>
    case Branch(_, _, l, r) =>
      var pa, pb := FindPath(n, a).value, FindPath(n, b).value;
      if FindPath(l, a).Some? && FindPath(l, b).Some? {
        PathsPrefixFree(l, a, b);
        PrefixCons('0', FindPath(l, a).value, FindPath(l, b).value);
      } else if FindPath(l, a).None? && FindPath(l, b).None? {
        PathsPrefixFree(r, a, b);
        PrefixCons('1', FindPath(r, a).value, FindPath(r, b).value);
      } else {
        assert pa[0] != pb[0];
      }
  }

  lemma PrefixCons(c: char, p: string, q: string)
    ensures IsPrefix([c] + p, [c] + q) ==> IsPrefix(p, q)
  {
    if |p| <= |q| {
      assert ([c] + q)[1..|p| + 1] == q[..|p|];
      assert ([c] + q)[..|p| + 1][1..] == ([c] + q)[1..|p| + 1];
    }
  }

  /** Sum of the weights of a list of nodes. */
  function TotalWeight(s: seq<Node>): int
  {
    if s == [] then 0 else TotalWeight(s[..|s| - 1]) + s[|s| - 1].weight
  }

  /** The leaf symbols of a list of trees, tree after tree. */
  function ForestLeaves(s: seq<Node>): seq<string>
  {
    if s == [] then [] else ForestLeaves(s[..|s| - 1]) + Leaves(s[|s| - 1])
  }

  lemma {:induction false} ForestConcat(a: seq<Node>, b: seq<Node>)
    ensures TotalWeight(a + b) == TotalWeight(a) + TotalWeight(b)
    ensures ForestLeaves(a + b) == ForestLeaves(a) + ForestLeaves(b)
  {
    if b == [] {
      assert a + b == a;
    } else {
      assert (a + b)[..|a + b| - 1] == a + b[..|b| - 1];
      ForestConcat(a, b[..|b| - 1]);
    }
  }

  lemma ForestSingleton(n: Node)
    ensures TotalWeight([n]) == n.weight && ForestLeaves([n]) == Leaves(n)
  {
    assert [n][..0] == [];
  }

  /** Every tree's leaves occur among the leaves of the list holding it. */
  lemma {:induction false} ForestLeavesHas(s: seq<Node>, k: nat)
    requires k < |s|
    ensures forall x :: x in Leaves(s[k]) ==> x in ForestLeaves(s)
  {
    ForestConcat(s[..k + 1], s[k + 1..]);
    ForestConcat(s[..k], [s[k]]);
    assert s[..k + 1] + s[k + 1..] == s;
    assert s[..k] + [s[k]] == s[..k + 1];
    ForestSingleton(s[k]);
  }
}
