/**
 * The string operations of java.lang.String that the Huffman codec relies on:
 * counting, joining with a delimiter, deleting a delimiter and `replaceAll`
 * with a literal pattern, together with the facts the codec's proofs need.
 */
module Text {

  /** Taking the whole of a sequence as a prefix gives the sequence. */
  lemma WholePrefix<T>(s: seq<T>)
    ensures s[..|s|] == s
  {
  }

  /** A prefix one longer is the prefix followed by the next element. */
  lemma PrefixSnoc<T>(s: seq<T>, i: nat)
    requires i < |s|
    ensures s[..i + 1] == s[..i] + [s[i]]
  {
  }

  /** Number of occurrences of `c` in `s`. */
  function Count(s: string, c: char): (n: nat)
    ensures n <= |s|
    ensures n > 0 <==> c in s
  {
    if s == [] then 0
    else
      assert s == s[..|s| - 1] + [s[|s| - 1]];
      Count(s[..|s| - 1], c) + (if s[|s| - 1] == c then 1 else 0)
  }

  lemma {:induction false} CountConcat(a: string, b: string, c: char)
    ensures Count(a + b, c) == Count(a, c) + Count(b, c)
  {
    if b == [] {
      assert a + b == a;
    } else {
      assert (a + b)[..|a + b| - 1] == a + b[..|b| - 1];
      CountConcat(a, b[..|b| - 1], c);
    }
  }

  /** True when every character is a binary digit. */
  predicate IsBits(s: string) {
    forall i :: 0 <= i < |s| ==> s[i] == '0' || s[i] == '1'
  }

  predicate IsPrefix(p: string, q: string) {
    |p| <= |q| && q[..|p|] == p
  }

  /** `parts` joined with one `sep` between consecutive parts and none after the last. */
  function Join(parts: seq<string>, sep: char): string
  {
    if |parts| == 0 then ""
    else if |parts| == 1 then parts[0]
    else parts[0] + [sep] + Join(parts[1..], sep)
  }

  /** Appending a part adds exactly one delimiter, in front of it: nothing trails the last part. */
  lemma {:induction false} JoinSnoc(parts: seq<string>, x: string, sep: char)
    requires |parts| > 0
    ensures Join(parts + [x], sep) == Join(parts, sep) + [sep] + x
  {
    if |parts| == 1 {
      assert (parts + [x])[1..] == [x];
    } else {
      assert (parts + [x])[1..] == parts[1..] + [x];
      JoinSnoc(parts[1..], x, sep);
    }
  }

  /** Joining n parts that do not contain the delimiter yields exactly n - 1 delimiters. */
  lemma {:induction false} JoinDelimiters(parts: seq<string>, sep: char)
    requires |parts| > 0
    requires forall i :: 0 <= i < |parts| ==> sep !in parts[i]
    ensures Count(Join(parts, sep), sep) == |parts| - 1
  {
    if |parts| > 1 {
      JoinDelimiters(parts[1..], sep);
      CountConcat(parts[0], [sep], sep);
      CountConcat(parts[0] + [sep], Join(parts[1..], sep), sep);
      assert Count([sep], sep) == 1 by {
        assert [sep][..0] == [];
      }
    }
  }

  /** `s` with every `d` removed (`replaceAll` of a one-character literal with ""). */
  function Strip(s: string, d: char): (r: string)
    ensures d !in r
    ensures forall c :: c != d ==> Count(r, c) == Count(s, c)
  {
    if s == [] then []
    else
      var p := Strip(s[..|s| - 1], d);
      var r := if s[|s| - 1] == d then p else p + [s[|s| - 1]];
      assert r != [] ==> r[..|r| - 1] == p || r == p;
      r
  }

  lemma {:induction false} StripConcat(a: string, b: string, d: char)
    ensures Strip(a + b, d) == Strip(a, d) + Strip(b, d)
  {
    if b == [] {
      assert a + b == a;
    } else {
      assert (a + b)[..|a + b| - 1] == a + b[..|b| - 1];
      StripConcat(a, b[..|b| - 1], d);
    }
  }

  /** Stripping the delimiter from one-character parts joined by it gives back the characters. */
  lemma {:induction false} StripJoinChars(w: string, sep: char)
    requires sep !in w
    ensures Strip(Join(seq(|w|, i requires 0 <= i < |w| => [w[i]]), sep), sep) == w
  {
    var parts := seq(|w|, i requires 0 <= i < |w| => [w[i]]);
    if |w| == 1 {
      assert Strip([w[0]], sep) == Strip([], sep) + [w[0]];
      assert [w[0]] == w;
    } else if |w| > 1 {
      var tail := seq(|w| - 1, i requires 0 <= i < |w| - 1 => [w[1..][i]]);
      assert parts[1..] == tail;
      StripJoinChars(w[1..], sep);
      StripConcat([w[0]] + [sep], Join(tail, sep), sep);
      StripConcat([w[0]], [sep], sep);
      assert Strip([w[0]], sep) == [w[0]] by {
        assert [w[0]][..0] == [];
      }
      assert Strip([sep], sep) == [] by {
        assert [sep][..0] == [];
      }
      assert w == [w[0]] + w[1..];
    }
  }

  /** Does `pat` occur in `s` starting at position `p`? */
  predicate MatchAt(s: string, p: nat, pat: string) {
    p + |pat| <= |s| && s[p..p + |pat|] == pat
  }

  /**
   * `replaceAll(pat, rep)` for a non-empty literal pattern: matches are taken left to
   * right without overlapping, each replaced by `rep`.
   */
  function ReplaceLiteral(s: string, pat: string, rep: string): string
    requires pat != []
    decreases |s|
  {
    if |s| < |pat| then s
    else if s[..|pat|] == pat then rep + ReplaceLiteral(s[|pat|..], pat, rep)
    else [s[0]] + ReplaceLiteral(s[1..], pat, rep)
  }

  /** `replaceAll("", rep)`: the empty pattern matches before every character and at the end. */
  function InsertEverywhere(s: string, rep: string): string
  {
    if s == [] then rep else rep + [s[0]] + InsertEverywhere(s[1..], rep)
  }

  /** Java's `String.replaceAll` for a pattern and a replacement that hold no regex metacharacter. */
  function ReplaceAll(s: string, pat: string, rep: string): string
  {
    if pat == [] then InsertEverywhere(s, rep) else ReplaceLiteral(s, pat, rep)
  }

  /** Characters with a meaning in a `java.util.regex` pattern. */
  predicate PatternLiteral(s: string) {
    forall i :: 0 <= i < |s| ==> s[i] !in "\\^$.|?*+()[]{}"
  }

  /** A bit string has no regular-expression metacharacter. */
  lemma BitsLiteral(s: string)
    requires IsBits(s)
    ensures PatternLiteral(s)
  {
    forall i | 0 <= i < |s|
      ensures s[i] !in "\\^$.|?*+()[]{}"
    {
      assert s[i] == '0' || s[i] == '1';
    }
  }

  /** Characters with a meaning in a `replaceAll` replacement string. */
  predicate ReplacementLiteral(s: string) {
    '$' !in s && '\\' !in s
  }

  lemma MatchShift(s: string, p: nat, pat: string)
    requires |s| > 0
    ensures MatchAt(s[1..], p, pat) ==> MatchAt(s, p + 1, pat)
  {
    if p + |pat| <= |s[1..]| {
      assert s[1..][p..p + |pat|] == s[p + 1..p + 1 + |pat|];
    }
  }

  lemma ConsAppend(c: char, a: string, b: string)
    ensures [c] + (a + b) == ([c] + a) + b
  {
  }

  /** A position where the pattern does not start is copied as it is. */
  lemma StepUnmatched(s: string, pat: string, rep: string)
    requires pat != [] && |s| > 0 && !MatchAt(s, 0, pat)
    ensures ReplaceLiteral(s, pat, rep) == [s[0]] + ReplaceLiteral(s[1..], pat, rep)
  {
    if |s| < |pat| {
      assert s == [s[0]] + s[1..];
    } else {
      assert s[0..|pat|] == s[..|pat|];
    }
  }

  lemma {:induction false} SkipUnmatched(u: string, rest: string, pat: string, rep: string)
    requires pat != []
    requires forall p: nat :: p < |u| ==> !MatchAt(u + rest, p, pat)
    ensures ReplaceLiteral(u + rest, pat, rep) == u + ReplaceLiteral(rest, pat, rep)
  {
    var s := u + rest;
    if u == [] {
      assert s == rest;
    } else {
      assert !MatchAt(s, 0, pat);
      var tail := u[1..] + rest;
      assert s[1..] == tail;
      StepUnmatched(s, pat, rep);
      forall p: nat | p < |u| - 1
        ensures !MatchAt(tail, p, pat)
      {
        assert !MatchAt(s, p + 1, pat);
        MatchShift(s, p, pat);
      }
      SkipUnmatched(u[1..], rest, pat, rep);
      ConsAppend(u[0], u[1..], ReplaceLiteral(rest, pat, rep));
      assert [u[0]] + u[1..] == u;
    }
  }


  lemma ReplaceMatched(pat: string, rest: string, rep: string)
    requires pat != []
    ensures ReplaceLiteral(pat + rest, pat, rep) == rep + ReplaceLiteral(rest, pat, rep)
  {
    assert (pat + rest)[..|pat|] == pat;
    assert (pat + rest)[|pat|..] == rest;
  }

  /** `replaceAll` of a literal keeps a text in which the pattern never occurs. */
  lemma ReplaceAllNoMatch(s: string, pat: string, rep: string)
    requires pat != []
    requires forall p: nat :: !MatchAt(s, p, pat)
    ensures ReplaceAll(s, pat, rep) == s
  {
    assert s + [] == s;
    SkipUnmatched(s, [], pat, rep);
  }

  /**
   * `replaceAll` of a literal scans left to right: the text before the leftmost match is
   * kept, the match becomes `rep`, and the scan resumes after it, so matches never overlap.
   */
  lemma ReplaceAllLeftmost(s: string, pat: string, rep: string, p: nat)
    requires pat != [] && MatchAt(s, p, pat)
    requires forall q: nat :: q < p ==> !MatchAt(s, q, pat)
    ensures ReplaceAll(s, pat, rep) == s[..p] + rep + ReplaceAll(s[p + |pat|..], pat, rep)
  {
    var u, rest := s[..p], s[p..];
    assert s == u + rest;
    SkipUnmatched(u, rest, pat, rep);
    assert rest == pat + s[p + |pat|..];
    ReplaceMatched(pat, s[p + |pat|..], rep);
  }

  /** `replaceAll("", rep)` writes `rep` before every character and once more at the end. */
  lemma {:induction false} ReplaceAllEmpty(s: string, c: char, rep: string)
    ensures ReplaceAll([], [], rep) == rep
    ensures ReplaceAll(s + [c], [], rep) == ReplaceAll(s, [], rep) + [c] + rep
  {
    var t := s + [c];
    assert t[0] == (if s == [] then c else s[0]);
    if s == [] {
      assert t[1..] == [];
    } else {
      assert t[1..] == s[1..] + [c];
      ReplaceAllEmpty(s[1..], c, rep);
    }
  }

  /** `replaceAll("", rep)` adds |s| + 1 copies of `rep` to the |s| characters. */
  lemma {:induction false} ReplaceAllEmptyLength(s: string, rep: string)
    ensures |ReplaceAll(s, [], rep)| == |s| + (|s| + 1) * |rep|
  {
    if s != [] {
      ReplaceAllEmptyLength(s[1..], rep);
      assert (|s| + 1) * |rep| == |s| * |rep| + |rep|;
    }
  }

  /** Deleting a character is `replaceAll` of that one-character pattern with "". */
  lemma {:induction false} StripIsReplaceAll(s: string, d: char)
    ensures Strip(s, d) == ReplaceAll(s, [d], "")
  {
    if s != [] {
      StripIsReplaceAll(s[1..], d);
      assert s == [s[0]] + s[1..];
      StripConcat([s[0]], s[1..], d);
      assert Strip([s[0]], d) == (if s[0] == d then [] else [s[0]]) by {
        assert [s[0]][..0] == [];
      }
      assert s[..1] == [s[0]];
    }
  }

  /**
   * A part of a joined string that a bit-string pattern can only match as a whole: the
   * pattern itself, a single non-binary character, or a bit string no longer than it.
   */
  predicate TokenFor(t: string, pat: string, sep: char) {
    t == pat
    || (|t| == 1 && t[0] != '0' && t[0] != '1' && t[0] != sep)
    || (IsBits(t) && |t| <= |pat|)
  }

  lemma TokenUnmatched(t: string, rest: string, pat: string, sep: char)
    requires pat != [] && IsBits(pat) && sep != '0' && sep != '1'
    requires TokenFor(t, pat, sep) && t != pat
    requires rest == [] || rest[0] == sep
    ensures forall p: nat :: p < |t| ==> !MatchAt(t + rest, p, pat)
  {
    var s := t + rest;
    forall p: nat | p < |t|
      ensures !MatchAt(s, p, pat)
    {
      if p + |pat| <= |s| {
        if |t| == 1 && !IsBits(t) {
          assert s[p..p + |pat|][0] == t[0];
        } else if p + |pat| <= |t| {
          assert s[p..p + |pat|] == t;
        } else {
          var q := |t| - p;
          assert s[p..p + |pat|][q] == sep;
        }
      }
    }
  }

  /** The parts of `parts` equal to `pat` replaced by `rep`. */
  function Substitute(parts: seq<string>, pat: string, rep: string): seq<string>
  {
    seq(|parts|, i requires 0 <= i < |parts| => if parts[i] == pat then rep else parts[i])
  }

  /** The delimiter in front of the later parts is never part of a match. */
  lemma ReplaceAfterSep(parts: seq<string>, pat: string, rep: string, sep: char)
    requires |parts| > 1 && pat != [] && IsBits(pat) && sep != '0' && sep != '1'
    requires ReplaceLiteral(Join(parts[1..], sep), pat, rep) == Join(Substitute(parts[1..], pat, rep), sep)
    ensures ReplaceLiteral([sep] + Join(parts[1..], sep), pat, rep)
            == [sep] + Join(Substitute(parts, pat, rep)[1..], sep)
  {
    assert Substitute(parts[1..], pat, rep) == Substitute(parts, pat, rep)[1..];
    assert !MatchAt([sep] + Join(parts[1..], sep), 0, pat) by {
      if |pat| <= |[sep] + Join(parts[1..], sep)| {
        assert ([sep] + Join(parts[1..], sep))[0..|pat|][0] == sep;
      }
    }
    SkipUnmatched([sep], Join(parts[1..], sep), pat, rep);
  }

  /** Inserting `rep` everywhere in a join of empty parts yields the join of copies of `rep`. */
  lemma InsertTokens(parts: seq<string>, reps: seq<string>, rep: string, sep: char)
    requires |parts| > 0 && |reps| == |parts|
    requires forall i :: 0 <= i < |parts| ==> parts[i] == [] && reps[i] == rep
    ensures ReplaceAll(Join(parts, sep), [], rep) == Join(reps, sep)
  {
    InsertInJoin(parts, rep, sep);
    assert reps == seq(|parts|, i requires 0 <= i < |parts| => rep);
  }

  /** The first part of a join is replaced when it is the pattern and copied otherwise. */
  lemma ReplaceHead(t: string, rest: string, pat: string, rep: string, sep: char)
    requires pat != [] && IsBits(pat) && sep != '0' && sep != '1'
    requires TokenFor(t, pat, sep)
    requires rest == [] || rest[0] == sep
    ensures ReplaceLiteral(t + rest, pat, rep) == (if t == pat then rep else t) + ReplaceLiteral(rest, pat, rep)
  {
    if t == pat {
      ReplaceMatched(pat, rest, rep);
    } else {
      TokenUnmatched(t, rest, pat, sep);
      SkipUnmatched(t, rest, pat, rep);
    }
  }

  /**
   * Replacing a bit-string pattern in a delimiter-joined string replaces exactly the parts
   * equal to it, when no part can contain it other than as a whole.
   */
  lemma {:induction false} ReplaceInJoin(parts: seq<string>, pat: string, rep: string, sep: char)
    requires pat != [] && IsBits(pat) && sep != '0' && sep != '1'
    requires forall i :: 0 <= i < |parts| ==> TokenFor(parts[i], pat, sep)
    ensures ReplaceLiteral(Join(parts, sep), pat, rep) == Join(Substitute(parts, pat, rep), sep)
  {
    if |parts| > 0 {
      var t := parts[0];
      var sub := Substitute(parts, pat, rep);
      var rest, subRest;
      if |parts| == 1 {
        rest, subRest := "", "";
      } else {
        rest, subRest := [sep] + Join(parts[1..], sep), [sep] + Join(sub[1..], sep);
        ReplaceInJoin(parts[1..], pat, rep, sep);
        ReplaceAfterSep(parts, pat, rep, sep);
      }
      assert ReplaceLiteral(rest, pat, rep) == subRest;
      assert Join(parts, sep) == t + rest;
      assert Join(sub, sep) == sub[0] + subRest;
      ReplaceHead(t, rest, pat, rep, sep);
    }
  }


  /** Replacing the empty pattern in a join of empty parts yields the join of replacements. */
  lemma {:induction false} InsertInJoin(parts: seq<string>, rep: string, sep: char)
    requires |parts| > 0
    requires forall i :: 0 <= i < |parts| ==> parts[i] == []
    ensures InsertEverywhere(Join(parts, sep), rep)
         == Join(seq(|parts|, i requires 0 <= i < |parts| => rep), sep)
  {
    var reps := seq(|parts|, i requires 0 <= i < |parts| => rep);
    if |parts| > 1 {
      InsertInJoin(parts[1..], rep, sep);
      var j := Join(parts[1..], sep);
      assert Join(parts, sep) == [sep] + j;
      assert ([sep] + j)[1..] == j;
      assert reps[1..] == seq(|parts| - 1, i requires 0 <= i < |parts| - 1 => rep);
    }
  }
}
