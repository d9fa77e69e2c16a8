/**
 The two string operations of the .NET base class library that the
 profane-filter pattern builder relies on, modelled on `seq<char>`:

 - `Join(sep, words)` is `string.Join<T>(char, IEnumerable<T>)` at `T = string`: the words
   in enumeration order with one separator between neighbours, and the empty
   string for no words;
 - `Split(sep, s)` is `string.Split(char)` with default options: the pieces
   between separators, empty pieces kept, and always at least one piece.

 `Split` is what a reader of a joined string uses to recover the words, so the
 two are proved to be inverses where that holds.
 */
module Strings {

  /** No two positions of `s` hold the same value. */
  predicate Distinct<T(==)>(s: seq<T>) {
    forall i, j :: 0 <= i < j < |s| ==> s[i] != s[j]
  }

  /** The elements of `s`, forgetting order. */
  function Elements<T>(s: seq<T>): set<T> {
    set x | x in s
  }

  /** The sum of the lengths of all strings in `words`. */
  function TotalLength(words: seq<string>): nat {
    if |words| == 0 then 0 else |words[0]| + TotalLength(words[1..])
  }

  /** Where `words[i]` starts inside `Join(sep, words)`: every earlier word
      and one separator after each of them. */
  function Offset(words: seq<string>, i: nat): nat
    requires i <= |words|
  {
    TotalLength(words[..i]) + i
  }

  function Join(sep: char, words: seq<string>): (r: string)
    ensures |r| == TotalLength(words) + (if |words| == 0 then 0 else |words| - 1)
  {
    if |words| == 0 then ""
    else if |words| == 1 then words[0]
    else words[0] + [sep] + Join(sep, words[1..])
  }

  function Split(sep: char, s: string): (r: seq<string>)
    ensures |r| >= 1
    ensures forall k :: 0 <= k < |r| ==> sep !in r[k]
    ensures TotalLength(r) + |r| - 1 == |s|
    decreases |s|
  {
    if |s| == 0 then [""]
    else
      var rest := Split(sep, s[1..]);
      if s[0] == sep then [""] + rest
      else [[s[0]] + rest[0]] + rest[1..]
  }

  lemma {:induction false} TotalLengthConcat(a: seq<string>, b: seq<string>)
    ensures TotalLength(a + b) == TotalLength(a) + TotalLength(b)
    decreases |a|
  {
    if |a| > 0 {
      assert (a + b)[1..] == a[1..] + b;
      TotalLengthConcat(a[1..], b);
    } else {
      assert a + b == b;
    }
  }

  /** The length of a join does not depend on the order in which the words
      are enumerated. */
  lemma {:induction false} TotalLengthPermutation(a: seq<string>, b: seq<string>)
    requires multiset(a) == multiset(b)
    ensures TotalLength(a) == TotalLength(b)
    decreases |a|
  {
    if |a| == 0 {
      assert |b| == |multiset(b)| == 0;
    } else {
      assert a[0] in multiset(b);
      var j :| 0 <= j < |b| && b[j] == a[0];
      RemoveAt(b, j);
      assert a == [a[0]] + a[1..];
      assert multiset(a[1..]) == multiset(a) - multiset{a[0]};
      TotalLengthPermutation(a[1..], b[..j] + b[j + 1..]);
    }
  }

  /** Taking out the string at position `j`. */
  lemma RemoveAt(b: seq<string>, j: nat)
    requires j < |b|
    ensures multiset(b[..j] + b[j + 1..]) == multiset(b) - multiset{b[j]}
    ensures TotalLength(b) == |b[j]| + TotalLength(b[..j] + b[j + 1..])
  {
    assert b == b[..j] + [b[j]] + b[j + 1..];
    TotalLengthConcat(b[..j] + [b[j]], b[j + 1..]);
    TotalLengthConcat(b[..j], [b[j]]);
    TotalLengthConcat(b[..j], b[j + 1..]);
    assert TotalLength([b[j]]) == |b[j]| by {
      assert [b[j]][1..] == [];
    }
  }

  /** Each word sits verbatim at its offset in the join, followed by the
      separator unless it is the last word. */
  lemma {:induction false} JoinAt(sep: char, words: seq<string>, i: nat)
    requires i < |words|
    ensures Offset(words, i) + |words[i]| <= |Join(sep, words)|
    ensures Join(sep, words)[Offset(words, i)..Offset(words, i) + |words[i]|] == words[i]
    ensures i + 1 < |words| ==>
              Offset(words, i) + |words[i]| < |Join(sep, words)| &&
              Join(sep, words)[Offset(words, i) + |words[i]|] == sep
    decreases i
  {
    var r := Join(sep, words);
    if i == 0 {
      assert words[..0] == [];
      assert Offset(words, 0) == 0;
      if |words| > 1 {
        var t := Join(sep, words[1..]);
        assert r == words[0] + ([sep] + t);
      }
    } else {
      var tail := words[1..];
      var t := Join(sep, tail);
      JoinAt(sep, tail, i - 1);
      OffsetStep(words, i);
      var o := Offset(tail, i - 1);
      assert r == (words[0] + [sep]) + t;
      assert r[|words[0]| + 1..] == t;
      assert r[Offset(words, i)..Offset(words, i) + |words[i]|] == t[o..o + |words[i]|];
    }
  }

  /** Offsets into a join, counted from its second word. */
  lemma OffsetStep(words: seq<string>, i: nat)
    requires 0 < i <= |words|
    ensures Offset(words, i) == |words[0]| + 1 + Offset(words[1..], i - 1)
  {
    var tail := words[1..];
    assert words[..i] == [words[0]] + tail[..i - 1];
    TotalLengthConcat([words[0]], tail[..i - 1]);
    assert TotalLength([words[0]]) == |words[0]| by {
      assert [words[0]][1..] == [];
    }
  }

  /** Each offset is one word and one separator past the previous one. */
  lemma PrecedingOffset(words: seq<string>, i: nat)
    requires 0 < i < |words|
    ensures Offset(words, i) == Offset(words, i - 1) + |words[i - 1]| + 1
  {
    assert words[..i] == words[..i - 1] + [words[i - 1]];
    TotalLengthConcat(words[..i - 1], [words[i - 1]]);
    assert TotalLength([words[i - 1]]) == |words[i - 1]| by {
      assert [words[i - 1]][1..] == [];
    }
  }

  /** The last word ends where the join ends. */
  lemma LastOffset(words: seq<string>, i: nat)
    requires i + 1 == |words|
    ensures Offset(words, i) + |words[i]| == TotalLength(words) + |words| - 1
  {
    assert words == words[..i] + [words[i]];
    TotalLengthConcat(words[..i], [words[i]]);
    assert TotalLength([words[i]]) == |words[i]| by {
      assert [words[i]][1..] == [];
    }
  }

  /** What surrounds a word inside a join: a separator before every word but
      the first, and the end of the join after the last. */
  lemma JoinNeighbours(sep: char, words: seq<string>, i: nat)
    requires i < |words|
    ensures i > 0 ==> 0 < Offset(words, i) <= |Join(sep, words)| &&
                      Join(sep, words)[Offset(words, i) - 1] == sep
    ensures i + 1 == |words| ==> Offset(words, i) + |words[i]| == |Join(sep, words)|
  {
    if i > 0 {
      JoinAt(sep, words, i - 1);
      PrecedingOffset(words, i);
    }
    if i + 1 == |words| {
      LastOffset(words, i);
    }
  }

  /** A piece with no separator splits to itself. */
  lemma {:induction false} SplitWithoutSeparator(sep: char, w: string)
    requires sep !in w
    ensures Split(sep, w) == [w]
    decreases |w|
  {
    if |w| > 0 {
      SplitWithoutSeparator(sep, w[1..]);
      assert [w[0]] + w[1..] == w;
    }
  }

  /** Splitting peels off a leading separator-free piece. */
  lemma {:induction false} SplitCons(sep: char, w: string, t: string)
    requires sep !in w
    ensures Split(sep, w + [sep] + t) == [w] + Split(sep, t)
    decreases |w|
  {
    var s := w + [sep] + t;
    if |w| == 0 {
      assert s == [sep] + t;
      assert s[1..] == t;
    } else {
      assert s[1..] == w[1..] + [sep] + t;
      SplitCons(sep, w[1..], t);
      assert [w[0]] + w[1..] == w;
    }
  }

  /** Splitting a join gives the words back, provided there is at least one
      word and no word contains the separator. */
  lemma {:induction false} SplitJoin(sep: char, words: seq<string>)
    requires |words| >= 1
    requires forall k :: 0 <= k < |words| ==> sep !in words[k]
    ensures Split(sep, Join(sep, words)) == words
    decreases |words|
  {
    if |words| == 1 {
      SplitWithoutSeparator(sep, words[0]);
    } else {
      SplitJoin(sep, words[1..]);
      SplitCons(sep, words[0], Join(sep, words[1..]));
      assert words == [words[0]] + words[1..];
    }
  }

  /** The pieces of every word, in order: what splitting each word on its
      own gives, one word after another. */
  function SplitEach(sep: char, words: seq<string>): seq<string>
  {
    if |words| == 0 then [] else Split(sep, words[0]) + SplitEach(sep, words[1..])
  }

  /** Splitting at one separator splits the two sides independently, whatever
      separators they hold themselves. */
  lemma {:induction false} SplitAppend(sep: char, w: string, t: string)
    ensures Split(sep, w + [sep] + t) == Split(sep, w) + Split(sep, t)
    decreases |w|
  {
    var s := w + [sep] + t;
    if |w| == 0 {
      assert s == [sep] + t;
      assert s[1..] == t;
    } else {
      assert s[1..] == w[1..] + [sep] + t;
      SplitAppend(sep, w[1..], t);
    }
  }

  /** Splitting a non-empty join gives the pieces of every word; a word that
      holds the separator contributes several pieces. */
  lemma {:induction false} SplitJoinPieces(sep: char, words: seq<string>)
    requires |words| >= 1
    ensures Split(sep, Join(sep, words)) == SplitEach(sep, words)
    decreases |words|
  {
    if |words| == 1 {
      assert words[1..] == [];
      assert Split(sep, words[0]) + [] == Split(sep, words[0]);
    } else {
      SplitJoinPieces(sep, words[1..]);
      SplitAppend(sep, words[0], Join(sep, words[1..]));
    }
  }

  /** A piece comes from some word, and every piece of every word is there. */
  lemma {:induction false} SplitEachMembers(sep: char, words: seq<string>, x: string)
    ensures x in SplitEach(sep, words) <==> exists w :: w in words && x in Split(sep, w)
    decreases |words|
  {
    if |words| > 0 {
      var head, rest := Split(sep, words[0]), words[1..];
      SplitEachMembers(sep, rest, x);
      assert SplitEach(sep, words) == head + SplitEach(sep, rest);
      if x in head {
        assert words[0] in words;
      } else if x in SplitEach(sep, rest) {
        var w :| w in rest && x in Split(sep, w);
        assert w in words;
      }
    }
  }

  /** Joining the pieces of a split gives the string back, for every string. */
  lemma {:induction false} JoinSplit(sep: char, s: string)
    ensures Join(sep, Split(sep, s)) == s
    decreases |s|
  {
    if |s| > 0 {
      var rest := Split(sep, s[1..]);
      JoinSplit(sep, s[1..]);
      if s[0] == sep {
        assert ([""] + rest)[1..] == rest;
        assert s == [s[0]] + s[1..];
      } else {
        var parts := [[s[0]] + rest[0]] + rest[1..];
        assert parts == Split(sep, s);
        assert parts[1..] == rest[1..];
        if |rest| == 1 {
          assert s == [s[0]] + rest[0];
        } else {
          assert Join(sep, rest) == rest[0] + [sep] + Join(sep, rest[1..]);
          assert s == [s[0]] + rest[0] + [sep] + Join(sep, rest[1..]);
        }
      }
    }
  }

  /** A sequence without repeats has as many elements as positions. */
  lemma {:induction false} DistinctCardinality<T>(s: seq<T>)
    requires Distinct(s)
    ensures |Elements(s)| == |s|
    decreases |s|
  {
    if |s| > 0 {
      DistinctCardinality(s[1..]);
      assert Elements(s) == {s[0]} + Elements(s[1..]);
      assert s[0] !in Elements(s[1..]);
    } else {
      assert Elements(s) == {};
    }
  }

  /** In a sequence without repeats every element occurs exactly once. */
  lemma {:induction false} DistinctMultiplicity<T>(s: seq<T>, x: T)
    requires Distinct(s)
    ensures multiset(s)[x] == if x in s then 1 else 0
    decreases |s|
  {
    if |s| > 0 {
      DistinctMultiplicity(s[1..], x);
      assert s == [s[0]] + s[1..];
      assert s[0] !in s[1..];
    }
  }

  /** Two repeat-free enumerations of the same set are permutations of each
      other. */
  lemma SameElementsPermutation<T>(a: seq<T>, b: seq<T>)
    requires Distinct(a) && Distinct(b)
    requires Elements(a) == Elements(b)
    ensures multiset(a) == multiset(b)
  {
    forall x
      ensures multiset(a)[x] == multiset(b)[x]
    {
      DistinctMultiplicity(a, x);
      DistinctMultiplicity(b, x);
      assert x in a <==> x in Elements(a);
      assert x in b <==> x in Elements(b);
    }
  }
}
