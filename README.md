# Huffman coder of Main.java, modelled in Dafny

This project models the Huffman half of `Main.java`. That half has six steps:

- `buildAlphabet` counts the characters of a word into a list of leaf nodes, in first-seen order.
- `findAndRemoveMin` removes the last minimum-weight node from that list.
- `buildTree` merges the two lightest nodes until one node remains. The first node removed becomes the right child.
- `encodeString` writes each character's tree path, with the `PLACEHOLDER` `_` between consecutive paths.
- `createCoversationMap` builds the symbol → path table.
- `decodeString` sorts the table longest code first, replaces every code by its symbol, and deletes the `_`s.

The source of `Node` is not available; it is reconstructed from its uses in Main.java: the four-argument constructor, `symbol()`, `weight()`, `incrementWeight()` and `findPath(symbol)`. `findPath` is an assumed leaf search that appends `0` going left and `1` going right, and gives `None` for a symbol that labels no leaf.

Modules:

- `Text`: strings, joins, delimiter stripping, and `String.replaceAll` on literal patterns.
- `Nodes`: the node and its paths.
- `FrequencyModel`: `buildAlphabet`.
- `HuffmanTree`: `findAndRemoveMin`, the mutable list as class `NodeList`, and `buildTree`.
- `HuffmanCodec`: the constant, encoding, the code table, decoding, and the round-trip proof.
- `HuffmanDemo`: the chain of calls in `testHaffMethod`.

The round-trip theorem is `HuffmanCodec.RoundTrip`. Take a tree, and a word whose characters all have paths in it and are not `0`, `1` or `_`. Encode the word, then decode it with the tree's code table, visiting the table in any order `decodeString` may take. The result is the word again.

The proof tracks the working string after each replacement. It is always the join of one "token" per character: the symbol, if that character's code has already been replaced, and the code otherwise. Three facts make each replacement turn exactly the tokens equal to its code into its symbol:

- Distinct symbols have distinct, non-empty codes, because the tree's paths are prefix-free (`HuffmanCodec.TableDecodable`). The rest of the proof uses only this consequence (`HuffmanCodec.Decodable`), not prefix-freeness itself.
- The entries are visited longest code first. So no code still pending in the string is longer than the pattern being replaced (`HuffmanCodec.TokensFit`). Without this order, the code `0` would match inside the token `00`.
- The delimiter is neither a digit nor a character of the word. So a match cannot cross a delimiter, and it cannot fall inside a symbol already put back.

The one-leaf tree, where every code is empty, is covered too: `replaceAll("", s)` inserts `s` at every position.

## Model

| member | source | states |
|---|---|---|
| Nodes.Node | src/main/java/org/example/Main.java:58 | the reconstructed node: a leaf `Node(symbol, weight, null, null)` or an internal node with both children |
| Nodes.IncrementWeight | src/main/java/org/example/Main.java:55 | the node keeps its symbol and kind and weighs one more |
| Nodes.FindPath | src/main/java/org/example/Main.java:77 | a path exists exactly when the symbol labels a leaf; it is a bit string, non-empty below a branch |
| Nodes.PathsPrefixFree | src/main/java/org/example/Main.java:113 | for two different symbols of one tree, neither path is a prefix of the other |
| Nodes.ForestConcat | src/main/java/org/example/Main.java:67 | weight and leaves of a list are additive over concatenation |
| FrequencyModel.FirstSeen | src/main/java/org/example/Main.java:50-58 | the distinct characters of the text: exactly those that occur, each once |
| FrequencyModel.FirstSeenInOrder | src/main/java/org/example/Main.java:50-58 | the distinct characters are listed by increasing position of first occurrence |
| FrequencyModel.FindSymbol | src/main/java/org/example/Main.java:53-54 | the index of the first node carrying the symbol, or the list length when none does |
| FrequencyModel.AlphabetStepSeen | src/main/java/org/example/Main.java:53-56 | a character already listed: the counts of the longer text differ only in its node, by one |
| FrequencyModel.AlphabetStepNew | src/main/java/org/example/Main.java:58 | a new character: the counts of the longer text append a leaf for it with weight 1 |
| FrequencyModel.TotalWeightUpdate | src/main/java/org/example/Main.java:55 | replacing one node changes the total weight by the difference of the two weights |
| FrequencyModel.BuildAlphabet | src/main/java/org/example/Main.java:48-61 | one leaf per distinct character in first-seen order, weighted by its number of occurrences; the weights add up to the text length |
| HuffmanTree.LastMinIndex | src/main/java/org/example/Main.java:38-43 | the position of a minimum weight that has no minimum-weight position after it (the `>=` tie-break) |
| HuffmanTree.RemoveAt | src/main/java/org/example/Main.java:44 | one element fewer; the others keep their relative order; the multiset loses the removed node |
| HuffmanTree.RemoveAtConserves | src/main/java/org/example/Main.java:44 | removing a node takes exactly its weight and its leaves out of the list |
| HuffmanTree.NodeList.constructor | src/main/java/org/example/Main.java:149 | the copied list holds the alphabet |
| HuffmanTree.NodeList.FindAndRemoveMin | src/main/java/org/example/Main.java:33-46 | None and no change on the empty list; otherwise the last minimum-weight node, removed from the list with the others in order |
| HuffmanTree.NodeList.Add | src/main/java/org/example/Main.java:67 | the merged node is appended at the end |
| HuffmanTree.Merge | src/main/java/org/example/Main.java:67 | the merged node's symbol and weight are the sums of its children's, its leaves are `l`'s then `r`'s, and paths into `l` start with `0`, paths into `r` with `1` |
| HuffmanTree.TreeStep | src/main/java/org/example/Main.java:65-67 | one loop iteration shortens the list by one |
| HuffmanTree.MergeConserves | src/main/java/org/example/Main.java:65-67 | removing two nodes and appending their merge keeps the total weight and the leaf multiset |
| HuffmanTree.TreeStepConserves | src/main/java/org/example/Main.java:64-67 | every iteration preserves total weight and the leaf multiset |
| HuffmanTree.MergeShape | src/main/java/org/example/Main.java:65-67 | the two removed nodes and the nodes left in the list make up the input multiset, and every node left was in the list after the first removal |
| HuffmanTree.TreeStepMerges | src/main/java/org/example/Main.java:65-67 | the appended node has symbol `l.symbol + r.symbol` and weight `l.weight + r.weight`; `r` is the last minimum of the list and `l` the last minimum of the rest, both by the `>=` tie-break; the other nodes are kept |
| HuffmanTree.BuildTreeSpec | src/main/java/org/example/Main.java:63-70 | None exactly for the empty list; a singleton is returned unchanged; the root weighs the total and has exactly the list's leaves |
| HuffmanTree.BuildTree | src/main/java/org/example/Main.java:63-70 | the loop's result is the merged tree; the list ends holding the root alone, or empty for an empty input |
| Text.ReplaceAllNoMatch | src/main/java/org/example/Main.java:102 | `replaceAll` of a literal leaves a text where the pattern never occurs unchanged |
| Text.ReplaceAllLeftmost | src/main/java/org/example/Main.java:102 | `replaceAll` of a literal keeps the text before the leftmost match, writes the replacement for it, and resumes after the match, so matches never overlap |
| Text.ReplaceAllEmpty | src/main/java/org/example/Main.java:102 | `replaceAll("", rep)` gives `rep` for the empty text and writes `rep` after every character and once in front |
| Text.ReplaceAllEmptyLength | src/main/java/org/example/Main.java:102 | `replaceAll("", rep)` adds one copy of `rep` per character plus one |
| Text.StripIsReplaceAll | src/main/java/org/example/Main.java:105 | deleting the delimiter is `replaceAll` of the one-character pattern with "" |
| Text.JoinSnoc | src/main/java/org/example/Main.java:79-81 | appending a code adds one delimiter, in front of it, and none trailing |
| Text.JoinDelimiters | src/main/java/org/example/Main.java:79-81 | n delimiter-free codes joined give exactly n - 1 delimiters |
| Text.Strip | src/main/java/org/example/Main.java:105 | no delimiter is left, and every other character keeps its count |
| Text.StripConcat | src/main/java/org/example/Main.java:105 | deleting the delimiter commutes with concatenation |
| Text.StripJoinChars | src/main/java/org/example/Main.java:105 | deleting the delimiters from a join of single characters gives those characters back |
| Text.BitsLiteral | src/main/java/org/example/Main.java:102 | a bit-string code contains no regex metacharacter, so `replaceAll` matches it literally |
| Text.ReplaceInJoin | src/main/java/org/example/Main.java:102 | replacing a non-empty code in a join of tokens replaces exactly the tokens equal to it |
| Text.InsertInJoin | src/main/java/org/example/Main.java:102 | replacing the empty code in a join of empty tokens yields a join of copies of the symbol |
| HuffmanCodec.PLACEHOLDER | src/main/java/org/example/Main.java:14 | the delimiter `_` |
| HuffmanCodec.Mapping | src/main/java/org/example/Main.java:8 | the (symbol, code) pair of the record `Mapping` |
| HuffmanCodec.Codes | src/main/java/org/example/Main.java:76-77 | one code per character, each the path of that character |
| HuffmanCodec.EncodeStep | src/main/java/org/example/Main.java:75-82 | one iteration appends the character's path, plus a delimiter unless it is the last character |
| HuffmanCodec.EncodeString | src/main/java/org/example/Main.java:73-86 | the paths joined by `_` with none trailing ("" for the empty word); None exactly when some character has no path |
| HuffmanCodec.TableStep | src/main/java/org/example/Main.java:111-113 | one `put` extends a table of the prefix to a table of the longer prefix |
| HuffmanCodec.CreateConversationMap | src/main/java/org/example/Main.java:109-116 | keys are exactly the one-character strings of the word, each mapped to its path; None exactly when some character has no path |
| HuffmanCodec.InsertByLength | src/main/java/org/example/Main.java:96-98 | the longest-first order is kept, and the entry is added to the multiset |
| HuffmanCodec.SortByCodeLength | src/main/java/org/example/Main.java:96-98 | the sorted list is longest code first and a permutation of the input |
| HuffmanCodec.EntryList | src/main/java/org/example/Main.java:92-94 | the list holds every entry of the table exactly once |
| HuffmanCodec.SortedEntries | src/main/java/org/example/Main.java:92-98 | sorting that list gives a longest-first order covering the whole table |
| HuffmanCodec.ReplaceInOrder | src/main/java/org/example/Main.java:100-103 | the loop's string is the input with each entry's code replaced, in list order |
| HuffmanCodec.DecodeString | src/main/java/org/example/Main.java:88-107 | the result has no `_`, and it is the decoding along some longest-first enumeration of the table |
| HuffmanCodec.TokensInitial | src/main/java/org/example/Main.java:89 | the encoded string is the first stage: every token still a code |
| HuffmanCodec.AllSteps | src/main/java/org/example/Main.java:102 | each replacement turns exactly the tokens of its code into its symbol |
| HuffmanCodec.DecodeSteps | src/main/java/org/example/Main.java:100-103 | the first j replacements take the first stage to stage j |
| HuffmanCodec.TokensFinal | src/main/java/org/example/Main.java:100-103 | after the loop every token is its own character |
| HuffmanCodec.StripTokens | src/main/java/org/example/Main.java:105 | deleting the delimiters then gives the word |
| HuffmanCodec.DecodeInverts | src/main/java/org/example/Main.java:88-107 | with a decodable table, decoding the joined codes gives back the word in every admissible order |
| HuffmanCodec.TableDecodable | src/main/java/org/example/Main.java:109-116 | a tree's table over non-digit, non-delimiter characters has bit-string codes that are distinct and non-empty whenever there are two entries |
| HuffmanCodec.CodesInTable | src/main/java/org/example/Main.java:109-116 | the table maps each character to the code the encoder writes for it |
| HuffmanCodec.RoundTrip | src/main/java/org/example/Main.java:149-155 | decoding the encoding with the tree's own table gives back the word |
| HuffmanDemo.AlphabetCovers | src/main/java/org/example/Main.java:149 | a tree built from the alphabet of a word has a path for every character of the word |
| HuffmanDemo.TableLiteral | src/main/java/org/example/Main.java:102 | for a text without `$` or `\`, every key and code of the table is a literal for `replaceAll` |
| HuffmanDemo.CodesPlain | src/main/java/org/example/Main.java:79-81 | no code contains the delimiter |
| HuffmanDemo.HuffmanRoundTrip | src/main/java/org/example/Main.java:149-155 | for any word without `$` or `\`: the root weighs the word's length, the encoding has one `_` fewer than the word has characters, and the empty word has no tree; if the word also has no `0`, `1` or `_`, decoding gives it back |

## Left out

- The arithmetic coder is not modelled: `getProportionsMap`, `copy`, `recalculateProportionsMap`, `arithmeticMethod`, `decodeArithmetic`, `returnResult` and `Segment`. It computes in Java `double`, and its output depends on the decimal formatting of doubles.
- `main`, `convertToBinary`, the message templates, the compression ratio and the printing in `testHaffMethod` are not modelled. They are console output; `HuffmanDemo.HuffmanRoundTrip` keeps only the chain of calls.
- `String.replaceAll` is modelled as literal replacement. The keys must hold no `$` or `\` (the replacement metacharacters) and the codes no regex metacharacter (`DecodeString`'s requires). For a tree's table this holds when the text has no `$` or `\` (`HuffmanDemo.ReplacementSafe`, proved by `HuffmanDemo.TableLiteral`).
- HashMap iteration order is not fixed. `EntryList` picks the entries in an arbitrary order, and the round trip holds for every order.
- `SortByCodeLength` is proved sorted and a permutation. It is not proved stable, because the order among equal-length codes is unspecified anyway.
- `FindPath` is a reconstruction. Its left-first search and `0`/`1` labels are assumptions about the missing `Node` class, not code of the repository.
- `FindPath` returns None for a symbol that is not in the tree, where the Java behaviour is unknown. So do `EncodeString` and `CreateConversationMap` when a character has no path.
- `BuildTree` returns None for an empty list, where `nodes.get(0)` throws.
- `FindAndRemoveMin`: `list.remove(entry)` removes the first element that `equals` the chosen node. The model removes at the index the scan selected. This assumes `Node` keeps `Object.equals` (identity), since every node in the list is a distinct object. Value equality would give the same result on every list `buildAlphabet` and `buildTree` produce, because the symbols of its nodes are pairwise distinct; this is not proved.
- `IncrementWeight` is modelled as replacing the list element. No other reference to a leaf exists while `buildAlphabet` runs.
- `BuildAlphabet`: Java `int` weights and lengths are unbounded here; overflow past 2^31 - 1 is not modelled.
- `RoundTrip` needs every character of the word to be neither a binary digit nor `_`. A `_` in the word is deleted by the final strip. A `0` or `1` already put back can be rewritten by a later one-bit code. The source guards against neither, and the round trip is not proved for words that may need it, such as the demo's `WORD`.
- Characters are Unicode scalar values here, while Java's `charAt` works on UTF-16 code units. For a character outside the Basic Multilingual Plane, Java makes two leaves, two codes and one more `_`, and counts it twice in `length()`; the model makes one of each.
