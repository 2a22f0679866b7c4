/** `buildAlphabet` of Main.java: one leaf per distinct character, weighted by its count. */
module FrequencyModel {
  import opened Text
  import opened Nodes

  predicate Distinct(p: string) {
    forall i, j :: 0 <= i < j < |p| ==> p[i] != p[j]
  }

  /** The distinct characters of `s`, each once, in the order in which they first occur. */
  function FirstSeen(s: string): (p: string)
    ensures forall c :: c in p <==> c in s
    ensures Distinct(p)
  {
    if s == [] then []
    else
      assert s == s[..|s| - 1] + [s[|s| - 1]];
      var q := FirstSeen(s[..|s| - 1]);
      if s[|s| - 1] in q then q else q + [s[|s| - 1]]
  }

  /** Position of the first occurrence of `c` in `s`. */
  function FirstIndex(s: string, c: char): (k: nat)
    requires c in s
    ensures k < |s| && s[k] == c
    ensures forall j :: 0 <= j < k ==> s[j] != c
  {
    assert s == s[..|s| - 1] + [s[|s| - 1]];
    if c in s[..|s| - 1] then FirstIndex(s[..|s| - 1], c) else |s| - 1
  }

  /** FirstSeen lists the characters in increasing order of their first occurrence. */
  lemma {:induction false} FirstSeenInOrder(s: string)
    ensures forall i, j :: 0 <= i < j < |FirstSeen(s)| ==>
      FirstIndex(s, FirstSeen(s)[i]) < FirstIndex(s, FirstSeen(s)[j])
  {
    if s != [] {
      var t := s[..|s| - 1];
      var x := s[|s| - 1];
      FirstSeenInOrder(t);
      var q := FirstSeen(t);
      var p := FirstSeen(s);
      forall i | 0 <= i < |q|
        ensures FirstIndex(s, q[i]) == FirstIndex(t, q[i]) < |t|
      {
        assert q[i] in q;
      }
      if x !in q {
        assert p == q + [x];
        assert FirstIndex(s, x) == |t|;
      }
    }
  }

  lemma CountSnoc(s: string, x: char, c: char)
    ensures Count(s + [x], c) == Count(s, c) + (if x == c then 1 else 0)
  {
    assert (s + [x])[..|s|] == s;
  }

  lemma UpdateSplit(s: seq<Node>, j: nat, n: Node)
    requires j < |s|
    ensures s == s[..j] + [s[j]] + s[j + 1..]
    ensures s[j := n] == s[..j] + [n] + s[j + 1..]
  {
  }

  lemma TotalWeightUpdate(s: seq<Node>, j: nat, n: Node)
    requires j < |s|
    ensures TotalWeight(s[j := n]) == TotalWeight(s) - s[j].weight + n.weight
  {
    UpdateSplit(s, j, n);
    ForestConcat(s[..j] + [s[j]], s[j + 1..]);
    ForestConcat(s[..j], [s[j]]);
    ForestConcat(s[..j] + [n], s[j + 1..]);
    ForestConcat(s[..j], [n]);
    ForestSingleton(n);
    ForestSingleton(s[j]);
  }

  /** The list `buildAlphabet` is meant to produce: a leaf per FirstSeen character with its count. */
  function Alphabet(w: string): seq<Node>
  {
    var p := FirstSeen(w);
    seq(|p|, k requires 0 <= k < |p| => Leaf([p[k]], Count(w, p[k])))
  }

  /** A character already listed: only its node's weight grows, by one. */
  lemma AlphabetStepSeen(w: string, x: char, j: nat)
    requires j < |Alphabet(w)| && Alphabet(w)[j].symbol == [x]
    ensures Alphabet(w + [x]) == Alphabet(w)[j := IncrementWeight(Alphabet(w)[j])]
  {
    assert (w + [x])[..|w|] == w;
    var p := FirstSeen(w);
    assert p[j] == x;
    assert FirstSeen(w + [x]) == p;
    forall c ensures Count(w + [x], c) == Count(w, c) + (if x == c then 1 else 0) {
      CountSnoc(w, x, c);
    }
  }

  /** A new character: a leaf of weight 1 is appended. */
  lemma AlphabetStepNew(w: string, x: char)
    requires forall k :: 0 <= k < |Alphabet(w)| ==> Alphabet(w)[k].symbol != [x]
    ensures Alphabet(w + [x]) == Alphabet(w) + [Leaf([x], 1)]
  {
    assert (w + [x])[..|w|] == w;
    var p := FirstSeen(w);
    assert x !in p by {
      forall k | 0 <= k < |p|
        ensures p[k] != x
      {
        assert Alphabet(w)[k].symbol != [x];
      }
    }
    assert FirstSeen(w + [x]) == p + [x];
    forall c ensures Count(w + [x], c) == Count(w, c) + (if x == c then 1 else 0) {
      CountSnoc(w, x, c);
    }
  }

  /**
   * The stream search `nodes.stream().filter(n -> n.symbol().equals(symbol)).findFirst()`
   * (`anyMatch` is its success): the first position holding `symbol`, or |nodes| if none does.
   */
  method FindSymbol(nodes: seq<Node>, symbol: string) returns (j: nat)
    ensures j <= |nodes|
    ensures j < |nodes| ==> nodes[j].symbol == symbol
    ensures forall k :: 0 <= k < j ==> nodes[k].symbol != symbol
  {
    j := 0;
    while j < |nodes| && nodes[j].symbol != symbol
      invariant j <= |nodes|
      invariant forall k :: 0 <= k < j ==> nodes[k].symbol != symbol
    {
      j := j + 1;
    }
  }

  /**
   * `buildAlphabet`: scan the text; a character already in the list has its node's weight
   * incremented, a new character is appended as a leaf of weight 1.
   */
  method BuildAlphabet(word: string) returns (nodes: seq<Node>)
    ensures |nodes| == |FirstSeen(word)|
    ensures forall k :: 0 <= k < |nodes| ==>
      nodes[k] == Leaf([FirstSeen(word)[k]], Count(word, FirstSeen(word)[k]))
    ensures TotalWeight(nodes) == |word|
  {
    nodes := [];
    for i := 0 to |word|
      invariant nodes == Alphabet(word[..i])
      invariant TotalWeight(nodes) == i
    {
      PrefixSnoc(word, i);
      var symbol := [word[i]];
      var j := FindSymbol(nodes, symbol);
      if j < |nodes| {
        // node.incrementWeight()
        AlphabetStepSeen(word[..i], word[i], j);
        TotalWeightUpdate(nodes, j, IncrementWeight(nodes[j]));
        nodes := nodes[j := IncrementWeight(nodes[j])];
      } else {
        AlphabetStepNew(word[..i], word[i]);
        ForestConcat(nodes, [Leaf(symbol, 1)]);
        ForestSingleton(Leaf(symbol, 1));
        nodes := nodes + [Leaf(symbol, 1)];
      }
    }
    WholePrefix(word);
  }
}
