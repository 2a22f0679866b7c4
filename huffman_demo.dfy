/**
 * The Huffman pipeline of `testHaffMethod`: count the characters of a word, build the tree
 * from the counts, encode the word over the tree, build the code table and decode the
 * encoding with it. The console report around these calls is not modelled.
 */
module HuffmanDemo {
  import opened Wrappers
  import opened Text
  import opened Nodes
  import opened FrequencyModel
  import opened HuffmanTree
  import opened HuffmanCodec

  /** No character has a meaning in a `replaceAll` replacement string: no `$` and no `\`. */
  predicate ReplacementSafe(word: string) {
    forall c :: c in word ==> c != '$' && c != '\\'
  }

  /** Neither a binary digit nor the delimiter occurs, and the text is replacement-safe. */
  predicate PlainText(word: string) {
    && ReplacementSafe(word)
    && forall c :: c in word ==> c != '0' && c != '1' && c != PLACEHOLDER
  }

  /** A tree whose leaves are those of the alphabet of `word` has a path for each of its characters. */
  lemma AlphabetCovers(word: string, alphabet: seq<Node>, root: Node)
    requires |alphabet| == |FirstSeen(word)|
    requires forall k :: 0 <= k < |alphabet| ==>
      alphabet[k] == Leaf([FirstSeen(word)[k]], Count(word, FirstSeen(word)[k]))
    requires multiset(Leaves(root)) == multiset(ForestLeaves(alphabet))
    ensures AllFound(root, word)
  {
    forall c | c in word
      ensures FindPath(root, [c]).Some?
    {
      var k :| 0 <= k < |FirstSeen(word)| && FirstSeen(word)[k] == c;
      ForestLeavesHas(alphabet, k);
      assert [c] in Leaves(alphabet[k]);
      assert [c] in multiset(ForestLeaves(alphabet));
    }
  }

  /** The code table of a replacement-safe text holds no `replaceAll` metacharacter. */
  lemma TableLiteral(m: map<string, string>, root: Node, word: string)
    requires ReplacementSafe(word) && IsCodeTable(m, root, word)
    ensures forall k :: k in m ==> ReplacementLiteral(k) && PatternLiteral(m[k])
  {
    forall k | k in m
      ensures ReplacementLiteral(k) && PatternLiteral(m[k])
    {
      var c := k[0];
      assert k == [c] && c in word;
      assert c != '$' && c != '\\';
      BitsLiteral(m[k]);
    }
  }

  /** No code contains the delimiter. */
  lemma CodesPlain(root: Node, word: string)
    requires AllFound(root, word)
    ensures forall i :: 0 <= i < |word| ==> PLACEHOLDER !in Codes(root, word)[i]
  {
    forall i | 0 <= i < |word|
      ensures PLACEHOLDER !in Codes(root, word)[i]
    {
      assert word[i] in word;
      assert IsBits(Codes(root, word)[i]);
    }
  }

  /**
   * The calls of `testHaffMethod`. The tree of a non-empty word weighs as many as its
   * characters, and the encoding has one delimiter fewer than it has characters; a plain
   * word comes back unchanged from the round trip. On the empty word `buildTree` has no
   * node to return.
   */
  method HuffmanRoundTrip(word: string) returns (root: Option<Node>, encoded: Option<string>, decoded: Option<string>)
    requires ReplacementSafe(word)
    ensures root.None? <==> word == []
    ensures root.Some? ==> root.value.weight == |word|
    ensures encoded.Some? <==> word != []
    ensures encoded.Some? ==> Count(encoded.value, PLACEHOLDER) == |word| - 1
    ensures decoded.Some? <==> word != []
    ensures PlainText(word) && word != [] ==> decoded == Some(word)
  {
    var alphabet := BuildAlphabet(word);
    if word != [] {
      assert word[0] in FirstSeen(word);
    }
    var list := new NodeList(alphabet);
    root := BuildTree(list);
    if root.None? {
      encoded, decoded := None, None;
      return;
    }
    var tree := root.value;
    AlphabetCovers(word, alphabet, tree);
    var e := EncodeString(tree, word);
    var table := CreateConversationMap(tree, word);
    var m := table.value;
    TableLiteral(m, tree, word);
    var d := DecodeString(m, e.value);
    if PlainText(word) {
      ghost var ord :| DecodeOrder(m, ord) && d == DecodeWith(ord, e.value);
      RoundTrip(tree, word, m, ord);
    }
    CodesPlain(tree, word);
    JoinDelimiters(Codes(tree, word), PLACEHOLDER);
    encoded, decoded := e, Some(d);
  }
}
