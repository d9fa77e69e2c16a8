/**
 The `ProfaneFilter` record of the filtering service: a source name paired
 with the source's set of profane words, and the regular-expression source
 text derived from those words when the record is built.

 The derived pattern is the literal `\b(`, then the words joined by `|` in
 the set's enumeration order, then the literal `)\b`. The words go in as
 they are: nothing is regex-escaped, nothing is case-folded, and an empty
 word set is accepted and gives `\b()\b`.
 */
module ProfaneFilters {
  import opened Strings

  /** The three characters `\b(` that open every pattern. */
  const Prefix: string := "\\b("

  /** The three characters `)\b` that close every pattern. */
  const Suffix: string := ")\\b"

  /** The character `string.Join` puts between two words. */
  const Separator: char := '|'

  /** A frozen set of words, seen through its enumeration order. The order
      is whatever the set yields; only the absence of repeats is fixed. */
  type WordSet = words: seq<string> | Distinct(words) witness []

  /** The regular-expression source text built from `words`. */
  function Pattern(words: seq<string>): (r: string)
    ensures |r| == |Prefix| + TotalLength(words) + (if |words| == 0 then 0 else |words| - 1) + |Suffix|
    ensures r[..|Prefix|] == Prefix && r[|r| - |Suffix|..] == Suffix
  {
    Prefix + Join(Separator, words) + Suffix
  }

  /** The record: its two positional members and the pattern derived from
      them once, when the value is built. A datatype value never changes, so
      neither does its pattern. */
  datatype ProfaneFilter = ProfaneFilter(sourceName: string, profaneWords: WordSet)
  {
    const RegexPattern: string := Pattern(profaneWords)
  }

  /** The text strictly between the opening `\b(` and the closing `)\b`. */
  function Body(pattern: string): string
    requires |pattern| >= |Prefix| + |Suffix|
  {
    pattern[|Prefix|..|pattern| - |Suffix|]
  }

  /** A pattern opens with `\b(`, closes with `)\b`, and between the two
      holds exactly the words joined by `|`, in enumeration order. */
  lemma PatternFraming(f: ProfaneFilter)
    ensures |f.RegexPattern| >= 6
    ensures f.RegexPattern[..3] == ['\\', 'b', '(']
    ensures f.RegexPattern[|f.RegexPattern| - 3..] == [')', '\\', 'b']
    ensures Body(f.RegexPattern) == Join('|', f.profaneWords)
  {
  }

  /** For n >= 1 words the pattern is 6 characters of framing, the words, and
      n - 1 separators long; with no words it is the six framing characters. */
  lemma PatternLength(f: ProfaneFilter)
    ensures |f.profaneWords| >= 1 ==>
              |f.RegexPattern| == 6 + TotalLength(f.profaneWords) + |f.profaneWords| - 1
    ensures |f.profaneWords| == 0 ==> |f.RegexPattern| == 6
  {
  }

  /** An empty word set is not rejected: it yields the pattern `\b()\b`. */
  lemma EmptyWordSet(sourceName: string)
    ensures ProfaneFilter(sourceName, []).RegexPattern == ['\\', 'b', '(', ')', '\\', 'b']
  {
  }

  /** A single word is wrapped as it is. */
  lemma SingleWord(sourceName: string, w: string)
    ensures ProfaneFilter(sourceName, [w]).RegexPattern == "\\b(" + w + ")\\b"
  {
  }

  /** Every word sits verbatim in the pattern between two delimiters: it is
      preceded by `(` or `|`, and followed by `|` or `)`. */
  lemma WordIsDelimited(f: ProfaneFilter, i: nat)
    requires i < |f.profaneWords|
    ensures var p, w, at := f.RegexPattern, f.profaneWords[i], |Prefix| + Offset(f.profaneWords, i);
      && 1 <= at && at + |w| < |p|
      && p[at..at + |w|] == w
      && p[at - 1] == (if i == 0 then '(' else '|')
      && p[at + |w|] == (if i + 1 == |f.profaneWords| then ')' else '|')
  {
    PatternAt(f.profaneWords, i);
  }

  /** `WordIsDelimited` stated over a plain sequence of words, so that the
      proof does not carry the no-repeats constraint of `WordSet`. */
  lemma PatternAt(words: seq<string>, i: nat)
    requires i < |words|
    ensures var p, w, at := Pattern(words), words[i], |Prefix| + Offset(words, i);
      && 1 <= at && at + |w| < |p|
      && p[at..at + |w|] == w
      && p[at - 1] == (if i == 0 then '(' else '|')
      && p[at + |w|] == (if i + 1 == |words| then ')' else '|')
  {
    var o := Offset(words, i);
    JoinAt(Separator, words, i);
    JoinNeighbours(Separator, words, i);
    Framed(Join(Separator, words), o, o + |words[i]|);
  }

  /** Positions of a framed text, read through the framing. */
  lemma Framed(j: string, lo: nat, hi: nat)
    requires lo <= hi <= |j|
    ensures var p := Prefix + j + Suffix;
      && p[|Prefix| + lo..|Prefix| + hi] == j[lo..hi]
      && p[|Prefix| + lo - 1] == (if lo == 0 then '(' else j[lo - 1])
      && p[|Prefix| + hi] == (if hi == |j| then ')' else j[hi])
  {
  }

  /** `w` occupies the positions of `p` from `k` on. */
  predicate OccursAt(w: string, p: string, k: nat) {
    k + |w| <= |p| && p[k..k + |w|] == w
  }

  /** Every word of the set occurs verbatim, as a contiguous piece, in the
      pattern: no escaping and no change of case. */
  lemma WordsOccurVerbatim(f: ProfaneFilter)
    ensures forall w :: w in f.profaneWords ==> exists k :: OccursAt(w, f.RegexPattern, k)
  {
    forall w | w in f.profaneWords
      ensures exists k :: OccursAt(w, f.RegexPattern, k)
    {
      var i :| 0 <= i < |f.profaneWords| && f.profaneWords[i] == w;
      WordIsDelimited(f, i);
      assert OccursAt(w, f.RegexPattern, |Prefix| + Offset(f.profaneWords, i));
    }
  }

  /** When the set is not empty and no word contains `|`, splitting the text
      between the framing on `|` gives back the word sequence. */
  lemma PiecesRoundTrip(f: ProfaneFilter)
    requires |f.profaneWords| >= 1
    requires forall k :: 0 <= k < |f.profaneWords| ==> '|' !in f.profaneWords[k]
    ensures Split('|', Body(f.RegexPattern)) == f.profaneWords
  {
    PatternFraming(f);
    SplitJoin(Separator, f.profaneWords);
  }

  /** Under the same conditions the `|`-separated pieces of the body are
      exactly the members of the set, as many as the set has. */
  lemma PiecesAreTheSet(f: ProfaneFilter)
    requires |f.profaneWords| >= 1
    requires forall k :: 0 <= k < |f.profaneWords| ==> '|' !in f.profaneWords[k]
    ensures Elements(Split('|', Body(f.RegexPattern))) == Elements(f.profaneWords)
    ensures |Split('|', Body(f.RegexPattern))| == |Elements(f.profaneWords)|
  {
    PiecesRoundTrip(f);
    DistinctCardinality(f.profaneWords);
  }

  /** Because words are not escaped, a word holding `|` falls apart into two
      `|`-separated pieces of the body. */
  lemma UnescapedBarSplitsWord(sourceName: string)
    ensures Split('|', Body(ProfaneFilter(sourceName, ["a|b"]).RegexPattern)) == ["a", "b"]
  {
    var f := ProfaneFilter(sourceName, ["a|b"]);
    PatternFraming(f);
    assert Body(f.RegexPattern) == "a" + [Separator] + "b";
    SplitCons(Separator, "a", "b");
    SplitWithoutSeparator(Separator, "b");
  }

  /** The pattern is a function of the word set alone: the source name plays
      no part in it. */
  lemma PatternIgnoresSourceName(f: ProfaneFilter, g: ProfaneFilter)
    requires f.profaneWords == g.profaneWords
    ensures f.RegexPattern == g.RegexPattern
  {
  }

  /** For any non-empty set, whatever its words hold, the `|`-separated
      pieces of the body are the pieces of the words split on `|`, word after
      word. These are the regex's alternatives only when no word holds a
      regex metacharacter, since words are not escaped. */
  lemma PiecesOfAnyWords(f: ProfaneFilter)
    requires |f.profaneWords| >= 1
    ensures Split('|', Body(f.RegexPattern)) == SplitEach('|', f.profaneWords)
  {
    PatternFraming(f);
    SplitJoinPieces(Separator, f.profaneWords);
  }

  /** The set does not fix its enumeration order, but every order gives a
      pattern of the same length with the same `|`-separated body pieces,
      whether or not some word holds `|`. */
  lemma EnumerationOrderIrrelevant(f: ProfaneFilter, g: ProfaneFilter)
    requires Elements(f.profaneWords) == Elements(g.profaneWords)
    ensures |f.RegexPattern| == |g.RegexPattern|
    ensures Elements(Split('|', Body(f.RegexPattern))) == Elements(Split('|', Body(g.RegexPattern)))
  {
    SameElementsPermutation(f.profaneWords, g.profaneWords);
    TotalLengthPermutation(f.profaneWords, g.profaneWords);
    assert |f.profaneWords| == |multiset(f.profaneWords)| == |multiset(g.profaneWords)| == |g.profaneWords|;
    if |f.profaneWords| == 0 {
      assert f.profaneWords == [] && g.profaneWords == [];
    } else {
      PiecesOfAnyWords(f);
      PiecesOfAnyWords(g);
      forall x
        ensures x in Split('|', Body(f.RegexPattern)) <==> x in Split('|', Body(g.RegexPattern))
      {
        SplitEachMembers(Separator, f.profaneWords, x);
        SplitEachMembers(Separator, g.profaneWords, x);
        assert forall w :: w in f.profaneWords <==> w in Elements(f.profaneWords);
        assert forall w :: w in g.profaneWords <==> w in Elements(g.profaneWords);
      }
    }
  }
}
