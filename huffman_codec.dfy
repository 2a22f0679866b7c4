/**
 * `encodeString`, `createCoversationMap` and `decodeString` of Main.java, the `Mapping`
 * record and the `PLACEHOLDER` delimiter, with the proof that decoding inverts encoding.
 */
module HuffmanCodec {
  import opened Wrappers
  import opened Text
  import opened Nodes

  /** `PLACEHOLDER`: the delimiter written between consecutive codes. */
  const PLACEHOLDER: char := '_'

  /** Every character of `word` labels a leaf of the tree. */
  predicate AllFound(root: Node, word: string) {
    forall c :: c in word ==> FindPath(root, [c]).Some?
  }

  lemma AllFoundPrefix(root: Node, word: string, i: nat)
    requires i <= |word| && AllFound(root, word)
    ensures AllFound(root, word[..i])
  {
    assert word == word[..i] + word[i..];
  }

  /** The code of each character of `word`, position by position. */
  function Codes(root: Node, word: string): (codes: seq<string>)
    requires AllFound(root, word)
    ensures |codes| == |word|
    ensures forall i :: 0 <= i < |word| ==> FindPath(root, [word[i]]) == Some(codes[i])
  {
    if word == [] then []
    else
      AllFoundPrefix(root, word, |word| - 1);
      Codes(root, word[..|word| - 1]) + [FindPath(root, [word[|word| - 1]]).value]
  }

  /**
   * What `encodeString` has built after `i` characters: their codes joined by PLACEHOLDER,
   * followed by a PLACEHOLDER unless the word is finished.
   */
  ghost function EncodedPrefix(root: Node, word: string, i: nat): string
    requires i <= |word| && AllFound(root, word[..i])
  {
    if i == 0 then ""
    else Join(Codes(root, word[..i]), PLACEHOLDER) + (if i < |word| then [PLACEHOLDER] else "")
  }

  lemma AllFoundSnoc(root: Node, w: string, x: char)
    requires AllFound(root, w) && FindPath(root, [x]).Some?
    ensures AllFound(root, w + [x])
  {
  }

  lemma CodesSnoc(root: Node, w: string, x: char)
    requires AllFound(root, w) && AllFound(root, w + [x])
    ensures Codes(root, w + [x]) == Codes(root, w) + [FindPath(root, [x]).value]
  {
    assert (w + [x])[..|w|] == w;
  }

  /** Appending the code of `word[i]`, and a delimiter unless it is the last character. */
  lemma EncodeStep(root: Node, word: string, i: nat)
    requires i < |word| && AllFound(root, word[..i]) && FindPath(root, [word[i]]).Some?
    ensures AllFound(root, word[..i + 1])
    ensures EncodedPrefix(root, word, i + 1)
            == EncodedPrefix(root, word, i) + FindPath(root, [word[i]]).value
               + (if i != |word| - 1 then [PLACEHOLDER] else "")
  {
    var w, x := word[..i], word[i];
    var px := FindPath(root, [x]).value;
    var ending: string := if i != |word| - 1 then [PLACEHOLDER] else "";
    assert word[..i + 1] == w + [x];
    AllFoundSnoc(root, w, x);
    CodesSnoc(root, w, x);
    assert EncodedPrefix(root, word, i + 1) == Join(Codes(root, w) + [px], PLACEHOLDER) + ending;
    if i > 0 {
      JoinSnoc(Codes(root, w), px, PLACEHOLDER);
      assert EncodedPrefix(root, word, i) == Join(Codes(root, w), PLACEHOLDER) + [PLACEHOLDER];
    } else {
      assert Codes(root, w) + [px] == [px];
    }
  }

  lemma EncodeDone(root: Node, word: string)
    requires AllFound(root, word)
    ensures AllFound(root, word[..|word|])
    ensures EncodedPrefix(root, word, |word|) == Join(Codes(root, word), PLACEHOLDER)
  {
    WholePrefix(word);
  }

  /**
   * `encodeString`: the paths of the characters of `word`, joined by PLACEHOLDER with no
   * delimiter after the last one; None when a character has no path in the tree.
   */
  method EncodeString(root: Node, word: string) returns (r: Option<string>)
    ensures r.Some? <==> AllFound(root, word)
    ensures r.Some? ==> r.value == Join(Codes(root, word), PLACEHOLDER)
  {
    var result := "";
    for i := 0 to |word|
      invariant AllFound(root, word[..i])
      invariant result == EncodedPrefix(root, word, i)
    {
      var path := FindPath(root, [word[i]]);
      if path.None? {
        assert word[i] in word;
        return None;
      }
      EncodeStep(root, word, i);
      result := result + path.value;
      if i != |word| - 1 {
        result := result + [PLACEHOLDER];
      }
    }
    WholePrefix(word);
    EncodeDone(root, word);
    return Some(result);
  }

  /** `m` maps each character of `word`, as a one-character string, to its path and nothing else. */
  ghost predicate IsCodeTable(m: map<string, string>, root: Node, word: string) {
    && (forall k :: k in m ==> |k| == 1 && k[0] in word)
    && (forall c :: c in word ==> [c] in m)
    && (forall c :: c in word ==> FindPath(root, [c]).Some? && m[[c]] == FindPath(root, [c]).value)
  }

  lemma TableStep(m: map<string, string>, root: Node, w: string, x: char, word: string)
    requires word == w + [x] && FindPath(root, [x]).Some?
    requires IsCodeTable(m, root, w)
    ensures IsCodeTable(m[[x] := FindPath(root, [x]).value], root, word)
  {
    var m' := m[[x] := FindPath(root, [x]).value];
    forall k
      ensures k in m' <==> |k| == 1 && k[0] in word
    {
      if |k| == 1 {
        assert k == [k[0]];
      }
    }
    forall c | c in word
      ensures FindPath(root, [c]).Some? && m'[[c]] == FindPath(root, [c]).value
    {
      if c != x {
        assert c in w;
        assert [c] != [x];
      }
    }
  }

  /**
   * `createCoversationMap`: `map.put(symbol, root.findPath(symbol))` for every character;
   * None when a character has no path in the tree.
   */
  method CreateConversationMap(root: Node, word: string) returns (r: Option<map<string, string>>)
    ensures r.Some? <==> AllFound(root, word)
    ensures r.Some? ==> IsCodeTable(r.value, root, word)
  {
    var m := map[];
    for i := 0 to |word|
      invariant AllFound(root, word[..i])
      invariant IsCodeTable(m, root, word[..i])
    {
      assert word[..i + 1] == word[..i] + [word[i]];
      var path := FindPath(root, [word[i]]);
      if path.None? {
        assert word[i] in word;
        return None;
      }
      TableStep(m, root, word[..i], word[i], word[..i + 1]);
      m := m[[word[i]] := path.value];
    }
    assert word[..|word|] == word;
    return Some(m);
  }

  /** `record Mapping(String symbol, String mapping)`. */
  datatype Mapping = Mapping(symbol: string, code: string)

  /** Non-increasing code length: the order the comparator of `decodeString` sorts into. */
  predicate LongestFirst(s: seq<Mapping>) {
    forall i, j :: 0 <= i < j < |s| ==> |s[i].code| >= |s[j].code|
  }

  /** Insert `x` after every entry whose code is at least as long (a stable insertion). */
  function InsertByLength(sorted: seq<Mapping>, x: Mapping): (r: seq<Mapping>)
    requires LongestFirst(sorted)
    ensures LongestFirst(r)
    ensures multiset(r) == multiset(sorted) + multiset{x}
  {
    if sorted == [] then [x]
    else
      var last := sorted[|sorted| - 1];
      var init := sorted[..|sorted| - 1];
      assert sorted == init + [last];
      if |last.code| >= |x.code| then sorted + [x]
      else
        var r' := InsertByLength(init, x);
        InsertAfterShorter(init, last, x, r');
        r' + [last]
  }

  lemma InsertAfterShorter(init: seq<Mapping>, last: Mapping, x: Mapping, r': seq<Mapping>)
    requires LongestFirst(init + [last]) && LongestFirst(r')
    requires multiset(r') == multiset(init) + multiset{x}
    requires |last.code| < |x.code|
    ensures LongestFirst(r' + [last])
    ensures multiset(r' + [last]) == multiset(init + [last]) + multiset{x}
  {
    forall e | e in r'
      ensures |e.code| >= |last.code|
    {
      assert e in multiset(r');
      if e != x {
        assert (init + [last])[|init|] == last;
        assert e in multiset(init);
        assert e in init;
        var i :| 0 <= i < |init| && init[i] == e;
        assert (init + [last])[i] == e;
      }
    }
    forall i, j | 0 <= i < j < |r' + [last]|
      ensures |(r' + [last])[i].code| >= |(r' + [last])[j].code|
    {
      if j == |r'| {
        assert (r' + [last])[i] in r';
      }
    }
  }

  /** `Collections.sort(list, (o1, o2) -> o2.mapping().length() - o1.mapping().length())`. */
  function SortByCodeLength(s: seq<Mapping>): (r: seq<Mapping>)
    ensures LongestFirst(r)
    ensures multiset(r) == multiset(s)
  {
    if s == [] then []
    else
      assert s == s[..|s| - 1] + [s[|s| - 1]];
      InsertByLength(SortByCodeLength(s[..|s| - 1]), s[|s| - 1])
  }

  /**
   * `ord` is an order in which `decodeString` may visit the table `m`: each entry once
   * (the iteration order of a HashMap is unspecified), longest code first.
   */
  ghost predicate DecodeOrder(m: map<string, string>, ord: seq<Mapping>) {
    && |ord| == |m.Keys|
    && (forall i :: 0 <= i < |ord| ==> ord[i].symbol in m && m[ord[i].symbol] == ord[i].code)
    && (forall k :: k in m ==> exists i :: 0 <= i < |ord| && ord[i].symbol == k)
    && LongestFirst(ord)
  }

  /** The working string after replacing the code of each entry of `ord`, in order. */
  function ReplaceEach(ord: seq<Mapping>, s: string): string
  {
    if ord == [] then s
    else
      var m := ord[|ord| - 1];
      ReplaceAll(ReplaceEach(ord[..|ord| - 1], s), m.code, m.symbol)
  }

  /** What `decodeString` returns when it visits the entries in the order `ord`. */
  function DecodeWith(ord: seq<Mapping>, encoded: string): string
  {
    Strip(ReplaceEach(ord, encoded), PLACEHOLDER)
  }

  /** `list` holds every entry of `m` exactly once, in some order. */
  ghost predicate Enumerates(m: map<string, string>, list: seq<Mapping>) {
    && |list| == |m.Keys|
    && (forall i :: 0 <= i < |list| ==> list[i].symbol in m && m[list[i].symbol] == list[i].code)
    && (forall k :: k in m ==> exists i :: 0 <= i < |list| && list[i].symbol == k)
  }

  /**
   * `map.entrySet().stream().map(e -> new Mapping(...)).collect(...)`: the entries of the
   * table as a list, in the unspecified iteration order of the HashMap.
   */
  method EntryList(m: map<string, string>) returns (list: seq<Mapping>)
    ensures Enumerates(m, list)
  {
    list := [];
    var rest := m.Keys;
    while rest != {}
      invariant rest <= m.Keys
      invariant |list| + |rest| == |m.Keys|
      invariant forall i :: 0 <= i < |list| ==>
        list[i].symbol in m && list[i].symbol !in rest && m[list[i].symbol] == list[i].code
      invariant forall k :: k in m && k !in rest ==> exists i :: 0 <= i < |list| && list[i].symbol == k
      decreases |rest|
    {
      var k :| k in rest;
      ghost var before := list;
      list := list + [Mapping(k, m[k])];
      rest := rest - {k};
      forall k' | k' in m && k' !in rest
        ensures exists i :: 0 <= i < |list| && list[i].symbol == k'
      {
        if k' == k {
          assert list[|list| - 1].symbol == k';
        } else {
          var i :| 0 <= i < |before| && before[i].symbol == k';
          assert list[i] == before[i];
        }
      }
    }
  }

  /** Two lists with the same multiset hold the same elements. */
  lemma SameMembers(a: seq<Mapping>, b: seq<Mapping>, i: nat)
    requires multiset(a) == multiset(b) && i < |a|
    ensures exists j :: 0 <= j < |b| && b[j] == a[i]
  {
    assert a[i] in multiset(b);
  }

  /** Sorting an enumeration of the table gives an order `decodeString` may follow. */
  lemma SortedEntries(m: map<string, string>, list: seq<Mapping>)
    requires Enumerates(m, list)
    ensures DecodeOrder(m, SortByCodeLength(list))
  {
    var sorted := SortByCodeLength(list);
    assert |sorted| == |list| by {
      assert |multiset(sorted)| == |multiset(list)|;
    }
    forall i | 0 <= i < |sorted|
      ensures sorted[i].symbol in m && m[sorted[i].symbol] == sorted[i].code
    {
      assert sorted[i] in multiset(list);
    }
    forall k | k in m
      ensures exists i :: 0 <= i < |sorted| && sorted[i].symbol == k
    {
      var i :| 0 <= i < |list| && list[i].symbol == k;
      SameMembers(list, sorted, i);
      var j :| 0 <= j < |sorted| && sorted[j] == list[i];
    }
  }

  /** The loop of `decodeString`: replace the code of each entry, in the order of `ord`. */
  method ReplaceInOrder(m: map<string, string>, ord: seq<Mapping>, encoded: string) returns (result: string)
    requires forall i :: 0 <= i < |ord| ==> ord[i].symbol in m && m[ord[i].symbol] == ord[i].code
    ensures result == ReplaceEach(ord, encoded)
  {
    result := encoded;
    for i := 0 to |ord|
      invariant result == ReplaceEach(ord[..i], encoded)
    {
      assert ord[..i + 1][..i] == ord[..i];
      var key := ord[i].symbol;
      result := ReplaceAll(result, m[key], key);
    }
    assert ord[..|ord|] == ord;
  }

  /**
   * `decodeString`: list the entries of the table, sort them longest code first, replace
   * every occurrence of each code by its symbol, then delete every PLACEHOLDER.
   */
  method DecodeString(m: map<string, string>, encoded: string) returns (r: string)
    requires forall k :: k in m ==> ReplacementLiteral(k) && PatternLiteral(m[k])
    ensures PLACEHOLDER !in r
    ensures exists ord :: DecodeOrder(m, ord) && r == DecodeWith(ord, encoded)
  {
    var list := EntryList(m);
    var sorted := SortByCodeLength(list);
    SortedEntries(m, list);
    var result := ReplaceInOrder(m, sorted, encoded);
    r := Strip(result, PLACEHOLDER);
    assert DecodeOrder(m, sorted) && r == DecodeWith(sorted, encoded);
  }

  /**
   * The conditions under which `decodeString` inverts `encodeString`: the table holds the
   * word's characters only, none of which is a binary digit or the delimiter, its codes
   * are bit strings, and as soon as it has two entries their codes differ and are non-empty.
   */
  ghost predicate Decodable(m: map<string, string>, word: string) {
    && (forall k :: k in m ==> |k| == 1 && k[0] in word)
    && (forall c :: c in word ==> [c] in m)
    && (forall c :: c in word ==> c != '0' && c != '1' && c != PLACEHOLDER)
    && (forall k :: k in m ==> IsBits(m[k]))
    && (forall k1, k2 :: k1 in m && k2 in m && k1 != k2 ==> m[k1] != m[k2] && m[k1] != [])
  }

  lemma SameParts(a: seq<string>, b: seq<string>)
    requires |a| == |b| && forall i :: 0 <= i < |a| ==> a[i] == b[i]
    ensures a == b
  {
  }

  /** The symbols of the first `j` entries of `ord`: those already substituted. */
  ghost function Done(ord: seq<Mapping>, j: nat): set<string>
    requires j <= |ord|
  {
    set i | 0 <= i < j :: ord[i].symbol
  }

  lemma DoneHas(ord: seq<Mapping>, j: nat, t: nat)
    requires t < j <= |ord|
    ensures ord[t].symbol in Done(ord, j)
  {
  }

  lemma DoneFirst(ord: seq<Mapping>)
    requires |ord| > 0
    ensures Done(ord, 0) == {} && Done(ord, 1) == {ord[0].symbol}
  {
  }

  lemma DoneStep(ord: seq<Mapping>, j: nat)
    requires j < |ord|
    ensures Done(ord, j + 1) == Done(ord, j) + {ord[j].symbol}
  {
  }

  /** The delimited parts of the working string: a symbol once substituted, else its code. */
  ghost function Tokens(m: map<string, string>, word: string, done: set<string>): seq<string>
    requires forall c :: c in word ==> [c] in m
  {
    seq(|word|, i requires 0 <= i < |word| => TokenAt(m, word, done, i))
  }

  /** The part for position `i` of the word. */
  ghost function TokenAt(m: map<string, string>, word: string, done: set<string>, i: nat): string
    requires forall c :: c in word ==> [c] in m
    requires i < |word|
  {
    assert word[i] in word;
    if [word[i]] in done then [word[i]] else m[[word[i]]]
  }

  /** A symbol not yet substituted comes at or after position `j` of a longest-first order. */
  lemma PendingCodeFits(m: map<string, string>, ord: seq<Mapping>, j: nat, k: string)
    requires DecodeOrder(m, ord) && j < |ord|
    requires k in m && k !in Done(ord, j)
    ensures |m[k]| <= |ord[j].code|
  {
    var t :| 0 <= t < |ord| && ord[t].symbol == k;
  }

  /** A part is a whole symbol, or a code no longer than the pattern about to be replaced. */
  lemma TokenFits(m: map<string, string>, word: string, done: set<string>, i: nat, pat: string)
    requires forall c :: c in word ==> [c] in m
    requires i < |word| && word[i] != '0' && word[i] != '1' && word[i] != PLACEHOLDER
    requires [word[i]] !in done ==> IsBits(m[[word[i]]]) && |m[[word[i]]]| <= |pat|
    ensures TokenFor(TokenAt(m, word, done, i), pat, PLACEHOLDER)
  {
  }

  /** Before the `j`-th substitution every part is a whole symbol or a short enough code. */
  lemma TokensFit(m: map<string, string>, ord: seq<Mapping>, word: string, j: nat)
    requires Decodable(m, word) && DecodeOrder(m, ord) && j < |ord|
    ensures forall i :: 0 <= i < |word| ==> TokenFor(Tokens(m, word, Done(ord, j))[i], ord[j].code, PLACEHOLDER)
  {
    var done := Done(ord, j);
    forall i | 0 <= i < |word|
      ensures TokenFor(Tokens(m, word, done)[i], ord[j].code, PLACEHOLDER)
    {
      var k := [word[i]];
      assert word[i] in word;
      if k !in done {
        PendingCodeFits(m, ord, j, k);
      }
      TokenFits(m, word, done, i, ord[j].code);
    }
  }

  /** Substituting the code of `key` changes one part exactly when it holds that code. */
  lemma TokenSubstitute(m: map<string, string>, word: string, done: set<string>, i: nat, key: string)
    requires forall c :: c in word ==> [c] in m
    requires i < |word| && word[i] != '0' && word[i] != '1'
    requires key in m && IsBits(m[key]) && m[key] != []
    requires [word[i]] != key ==> m[[word[i]]] != m[key]
    ensures |Tokens(m, word, done)| == |word|
    ensures Substitute(Tokens(m, word, done), m[key], key)[i] == Tokens(m, word, done + {key})[i]
  {
    var k := [word[i]];
    if k in done {
      assert k[0] != m[key][0];
    }
  }

  /** Substituting a code changes exactly the parts that hold it, into its symbol. */
  lemma TokensSubstitute(m: map<string, string>, ord: seq<Mapping>, word: string, j: nat)
    requires Decodable(m, word) && DecodeOrder(m, ord) && j < |ord| && ord[j].code != []
    ensures Substitute(Tokens(m, word, Done(ord, j)), ord[j].code, ord[j].symbol)
            == Tokens(m, word, Done(ord, j + 1))
  {
    var key, done := ord[j].symbol, Done(ord, j);
    DoneStep(ord, j);
    assert m[key] == ord[j].code && IsBits(m[key]);
    var before := Substitute(Tokens(m, word, done), m[key], key);
    var after := Tokens(m, word, done + {key});
    forall i | 0 <= i < |word|
      ensures before[i] == after[i]
    {
      var k := [word[i]];
      assert word[i] in word;
      if k != key {
        assert m[k] != m[key];
      }
      TokenSubstitute(m, word, done, i, key);
    }
    SameParts(before, after);
  }

  /** Substituting a non-empty code turns exactly the parts holding it into its symbol. */
  lemma ReplaceStep(m: map<string, string>, ord: seq<Mapping>, word: string, j: nat)
    requires Decodable(m, word) && DecodeOrder(m, ord)
    requires j < |ord| && ord[j].code != []
    ensures ReplaceAll(Join(Tokens(m, word, Done(ord, j)), PLACEHOLDER), ord[j].code, ord[j].symbol)
            == Join(Tokens(m, word, Done(ord, j + 1)), PLACEHOLDER)
  {
    var pat, key := ord[j].code, ord[j].symbol;
    var before := Tokens(m, word, Done(ord, j));
    assert IsBits(pat);
    TokensFit(m, ord, word, j);
    ReplaceInJoin(before, pat, key, PLACEHOLDER);
    TokensSubstitute(m, ord, word, j);
  }

  /** A table whose entry for `key` has the empty code has no other entry. */
  lemma EmptyCodeAlone(m: map<string, string>, word: string, key: string)
    requires Decodable(m, word) && key in m && m[key] == []
    ensures m.Keys == {key}
  {
    forall k | k in m
      ensures k == key
    {
    }
  }

  /** With one entry, whose code is empty, inserting its symbol everywhere restores the word. */
  lemma InsertAll(m: map<string, string>, word: string, key: string)
    requires forall c :: c in word ==> [c] in m
    requires |word| > 0 && m.Keys == {key} && m[key] == []
    ensures ReplaceAll(Join(Tokens(m, word, {}), PLACEHOLDER), [], key)
            == Join(Tokens(m, word, {key}), PLACEHOLDER)
  {
    var before := Tokens(m, word, {});
    var after := Tokens(m, word, {key});
    forall i | 0 <= i < |word|
      ensures before[i] == [] && after[i] == key
    {
      assert word[i] in word;
    }
    InsertTokens(before, after, key, PLACEHOLDER);
  }

  /**
   * Substituting an empty code happens only for a one-entry table (a tree that is a single
   * leaf); inserting the symbol at every position then restores every character.
   */
  lemma InsertStep(m: map<string, string>, ord: seq<Mapping>, word: string, j: nat)
    requires Decodable(m, word) && DecodeOrder(m, ord)
    requires j < |ord| && ord[j].code == []
    ensures ReplaceAll(Join(Tokens(m, word, Done(ord, j)), PLACEHOLDER), ord[j].code, ord[j].symbol)
            == Join(Tokens(m, word, Done(ord, j + 1)), PLACEHOLDER)
  {
    var key := ord[j].symbol;
    EmptyCodeAlone(m, word, key);
    assert |m.Keys| == 1;
    DoneFirst(ord);
    assert |key| == 1 && key[0] in word;
    InsertAll(m, word, key);
  }

  /** One substitution, of an empty code or not, moves the tokens on by one entry. */
  lemma SubstituteStep(m: map<string, string>, ord: seq<Mapping>, word: string, j: nat)
    requires Decodable(m, word) && DecodeOrder(m, ord) && j < |ord|
    ensures ReplaceAll(Join(Tokens(m, word, Done(ord, j)), PLACEHOLDER), ord[j].code, ord[j].symbol)
            == Join(Tokens(m, word, Done(ord, j + 1)), PLACEHOLDER)
  {
    if ord[j].code == [] {
      InsertStep(m, ord, word, j);
    } else {
      ReplaceStep(m, ord, word, j);
    }
  }

  lemma ReplaceEachSnoc(ord: seq<Mapping>, j: nat, s: string)
    requires j < |ord|
    ensures ReplaceEach(ord[..j + 1], s) == ReplaceAll(ReplaceEach(ord[..j], s), ord[j].code, ord[j].symbol)
  {
    assert ord[..j + 1][..j] == ord[..j];
  }

  /** The working string starts as the join of the codes: nothing is substituted yet. */
  lemma TokensInitial(m: map<string, string>, ord: seq<Mapping>, word: string, codes: seq<string>)
    requires Decodable(m, word)
    requires |codes| == |word| && forall i :: 0 <= i < |word| ==> codes[i] == m[[word[i]]]
    ensures Stage(m, ord, word, 0) == Join(codes, PLACEHOLDER)
  {
    var first := Tokens(m, word, Done(ord, 0));
    assert Done(ord, 0) == {};
    forall i | 0 <= i < |word|
      ensures first[i] == codes[i]
    {
      assert word[i] in word;
    }
    SameParts(first, codes);
  }

  /** The working string after the first `t` substitutions. */
  ghost function Stage(m: map<string, string>, ord: seq<Mapping>, word: string, t: nat): string
    requires forall c :: c in word ==> [c] in m
    requires t <= |ord|
  {
    Join(Tokens(m, word, Done(ord, t)), PLACEHOLDER)
  }

  /** Each substitution takes one stage to the next. */
  lemma AllSteps(m: map<string, string>, ord: seq<Mapping>, word: string)
    requires Decodable(m, word) && DecodeOrder(m, ord)
    ensures forall t {:trigger ord[t]} :: 0 <= t < |ord| ==>
      ReplaceAll(Stage(m, ord, word, t), ord[t].code, ord[t].symbol) == Stage(m, ord, word, t + 1)
  {
    forall t | 0 <= t < |ord|
      ensures ReplaceAll(Stage(m, ord, word, t), ord[t].code, ord[t].symbol) == Stage(m, ord, word, t + 1)
    {
      SubstituteStep(m, ord, word, t);
    }
  }

  /** Replacing the first `j` entries of `ord` walks from the first stage to stage `j`. */
  lemma {:induction false} DecodeSteps(m: map<string, string>, ord: seq<Mapping>, word: string, j: nat)
    requires forall c :: c in word ==> [c] in m
    requires forall t {:trigger ord[t]} :: 0 <= t < |ord| ==>
      ReplaceAll(Stage(m, ord, word, t), ord[t].code, ord[t].symbol) == Stage(m, ord, word, t + 1)
    requires j <= |ord|
    ensures ReplaceEach(ord[..j], Stage(m, ord, word, 0)) == Stage(m, ord, word, j)
  {
    if j == 0 {
      assert ord[..0] == [];
    } else {
      DecodeSteps(m, ord, word, j - 1);
      ReplaceEachSnoc(ord, j - 1, Stage(m, ord, word, 0));
    }
  }

  /** Every key of the table is among the symbols of an order that enumerates it. */
  lemma AllDone(m: map<string, string>, ord: seq<Mapping>, word: string)
    requires DecodeOrder(m, ord) && forall c :: c in word ==> [c] in m
    ensures forall c :: c in word ==> [c] in Done(ord, |ord|)
  {
    forall c | c in word
      ensures [c] in Done(ord, |ord|)
    {
      var t :| 0 <= t < |ord| && ord[t].symbol == [c];
      DoneHas(ord, |ord|, t);
    }
  }

  /** With every symbol substituted each part is its own character again. */
  lemma FinalTokens(m: map<string, string>, word: string, done: set<string>)
    requires forall c :: c in word ==> [c] in m
    requires forall c :: c in word ==> [c] in done
    ensures Tokens(m, word, done) == seq(|word|, i requires 0 <= i < |word| => [word[i]])
  {
    var fin := Tokens(m, word, done);
    var chars := seq(|word|, i requires 0 <= i < |word| => [word[i]]);
    forall i | 0 <= i < |word|
      ensures fin[i] == chars[i]
    {
      assert word[i] in word;
    }
    SameParts(fin, chars);
  }

  /** Once every entry is substituted each part is its own character again. */
  lemma TokensFinal(m: map<string, string>, ord: seq<Mapping>, word: string)
    requires Decodable(m, word) && DecodeOrder(m, ord)
    ensures Stage(m, ord, word, |ord|) == Join(seq(|word|, i requires 0 <= i < |word| => [word[i]]), PLACEHOLDER)
  {
    AllDone(m, ord, word);
    FinalTokens(m, word, Done(ord, |ord|));
  }

  /** Replacing every entry of `ord` walks from the first stage to the last. */
  lemma DecodeAll(m: map<string, string>, ord: seq<Mapping>, word: string)
    requires Decodable(m, word) && DecodeOrder(m, ord)
    ensures ReplaceEach(ord, Stage(m, ord, word, 0)) == Stage(m, ord, word, |ord|)
  {
    AllSteps(m, ord, word);
    DecodeSteps(m, ord, word, |ord|);
    WholePrefix(ord);
  }

  /** Deleting the delimiters from the join of the one-character parts of `word` gives `word`. */
  lemma StripTokens(ord: seq<Mapping>, encoded: string, word: string)
    requires PLACEHOLDER !in word
    requires ReplaceEach(ord, encoded) == Join(seq(|word|, i requires 0 <= i < |word| => [word[i]]), PLACEHOLDER)
    ensures DecodeWith(ord, encoded) == word
  {
    StripJoinChars(word, PLACEHOLDER);
  }

  /** `decodeString` inverts `encodeString` for every order it may visit the table in. */
  lemma DecodeInverts(m: map<string, string>, ord: seq<Mapping>, word: string, codes: seq<string>)
    requires Decodable(m, word) && DecodeOrder(m, ord)
    requires |codes| == |word| && forall i :: 0 <= i < |word| ==> codes[i] == m[[word[i]]]
    ensures DecodeWith(ord, Join(codes, PLACEHOLDER)) == word
  {
    TokensInitial(m, ord, word, codes);
    DecodeAll(m, ord, word);
    TokensFinal(m, ord, word);
    assert PLACEHOLDER !in word;
    StripTokens(ord, Join(codes, PLACEHOLDER), word);
  }

  /** The code table of a tree, over characters that are not digits or the delimiter, decodes. */
  lemma TableDecodable(root: Node, word: string, m: map<string, string>)
    requires forall c :: c in word ==> c != '0' && c != '1' && c != PLACEHOLDER
    requires IsCodeTable(m, root, word)
    ensures Decodable(m, word)
  {
    forall k | k in m
      ensures IsBits(m[k])
    {
      assert k == [k[0]];
    }
    forall k1, k2 | k1 in m && k2 in m && k1 != k2
      ensures m[k1] != m[k2] && m[k1] != []
    {
      assert k1 == [k1[0]] && k2 == [k2[0]];
      PathsPrefixFree(root, k1, k2);
      assert IsPrefix(m[k1], m[k1]);
      assert IsPrefix([], m[k2]);
    }
  }

  lemma CodesInTable(root: Node, word: string, m: map<string, string>)
    requires AllFound(root, word) && IsCodeTable(m, root, word)
    ensures forall i :: 0 <= i < |word| ==> [word[i]] in m && Codes(root, word)[i] == m[[word[i]]]
  {
    forall i | 0 <= i < |word|
      ensures [word[i]] in m && Codes(root, word)[i] == m[[word[i]]]
    {
      assert word[i] in word;
    }
  }

  /**
   * The round trip: decoding, with the code table of a tree and in any order `decodeString`
   * may take, the encoding of a word over that tree gives back the word, provided its
   * characters are neither binary digits nor the delimiter.
   */
  lemma RoundTrip(root: Node, word: string, m: map<string, string>, ord: seq<Mapping>)
    requires AllFound(root, word)
    requires forall c :: c in word ==> c != '0' && c != '1' && c != PLACEHOLDER
    requires IsCodeTable(m, root, word) && DecodeOrder(m, ord)
    ensures DecodeWith(ord, Join(Codes(root, word), PLACEHOLDER)) == word
  {
    TableDecodable(root, word, m);
    CodesInTable(root, word, m);
    DecodeInverts(m, ord, word, Codes(root, word));
  }
}
