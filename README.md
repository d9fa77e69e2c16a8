# ProfaneFilter pattern builder, modelled in Dafny

The filtering service keeps, for each source of profane words, an immutable
record `ProfaneFilter(SourceName, ProfaneWords)`. When the record is built it
derives one regular-expression source string, `RegexPattern`: the three
characters `\b(`, then the words joined by `|` in the set's enumeration
order, then the three characters `)\b`.

This project models that record and the string it derives, and proves what
the derived string looks like.

- `strings.dfy`, module `Strings`: the two base-library string operations
  involved. `Join` is `string.Join<T>(char, IEnumerable<T>)` with `T = string`. `Split` is
  `string.Split(char)` with default options. The record never calls
  `Split`; it is here so that the round trip between the two can be stated.
- `profane_filter.dfy`, module `ProfaneFilters`: the record as a datatype
  `ProfaneFilter(sourceName, profaneWords)`. `RegexPattern` is a `const` member
  whose initializer is `Pattern(profaneWords)`. That mirrors a get-only
  property with an initializer. The value is fixed when the datatype value is
  built and can never change afterwards.

The frozen word set is modelled as `WordSet`, a `seq<string>` with no
repeats. The sequence stands for the set's enumeration order, which the source
does not fix. `EnumerationOrderIrrelevant` shows that any order gives a pattern
of the same length with the same `|`-separated pieces of its body, also when
some word holds `|`.

Two consequences of the code as written:

- Words are inserted verbatim. They are not regex-escaped and their case is
  not changed. `UnescapedBarSplitsWord` shows a consequence: a word holding
  `|` yields two `|`-separated pieces of the body. `PiecesOfAnyWords` states
  this for every word set: the pieces of the body are the pieces of each word
  split on `|`.
- An empty word set is not rejected. It yields `\b()\b` (`EmptyWordSet`).

## Model

| member | source | states |
|---|---|---|
| `ProfaneFilters.ProfaneFilter` | src/ProfanityFilter.Services/Internals/ProfaneFilter.cs:6-11 | the record: a source name and a word set, with `RegexPattern` fixed from `profaneWords` when the value is built and unchangeable afterwards |
| `ProfaneFilters.WordSet` | src/ProfanityFilter.Services/Internals/ProfaneFilter.cs:8 | the frozen word set as a sequence with no repeats, standing for one enumeration order of the set |
| `Strings.Join` | src/ProfanityFilter.Services/Internals/ProfaneFilter.cs:11 | the joined text is as long as all words together plus one separator between each pair of neighbours; with no words it is empty |
| `Strings.JoinAt` | src/ProfanityFilter.Services/Internals/ProfaneFilter.cs:11 | word i stands verbatim at its offset (all earlier words plus one separator each), and a separator follows it unless it is the last word |
| `Strings.JoinSplit` | src/ProfanityFilter.Services/Internals/ProfaneFilter.cs:11 | joining the pieces of any split of a string on the separator gives that string back |
| `Strings.SplitJoin` | src/ProfanityFilter.Services/Internals/ProfaneFilter.cs:11 | splitting a join on the separator gives the words back when there is at least one word and none contains the separator |
| `Strings.SplitAppend` | src/ProfanityFilter.Services/Internals/ProfaneFilter.cs:11 | splitting at one separator splits the text on each side on its own, whatever separators the two sides hold |
| `Strings.SplitJoinPieces` | src/ProfanityFilter.Services/Internals/ProfaneFilter.cs:11 | splitting a join of at least one word gives the pieces of every word, word after word, with no condition on the words |
| `Strings.SplitEachMembers` | src/ProfanityFilter.Services/Internals/ProfaneFilter.cs:11 | a string is one of those pieces exactly when it is a piece of some word, in both directions |
| `Strings.TotalLengthPermutation` | src/ProfanityFilter.Services/Internals/ProfaneFilter.cs:8-11 | two enumerations that are permutations of each other have the same total length |
| `ProfaneFilters.Pattern` | src/ProfanityFilter.Services/Internals/ProfaneFilter.cs:10-11 | the pattern opens with `\b(`, closes with `)\b`, and is 6 characters longer than the joined words |
| `ProfaneFilters.PatternFraming` | src/ProfanityFilter.Services/Internals/ProfaneFilter.cs:11 | a record's pattern starts with the three characters `\b(`, ends with the three characters `)\b`, and between them holds exactly the words joined by `\|` in enumeration order |
| `ProfaneFilters.PatternLength` | src/ProfanityFilter.Services/Internals/ProfaneFilter.cs:6-11 | for n >= 1 words the pattern length is 6 + the sum of word lengths + (n - 1); for no words it is 6 |
| `ProfaneFilters.EmptyWordSet` | src/ProfanityFilter.Services/Internals/ProfaneFilter.cs:6-11 | a record built from an empty word set is accepted, and its pattern is `\b()\b` |
| `ProfaneFilters.SingleWord` | src/ProfanityFilter.Services/Internals/ProfaneFilter.cs:11 | a record with the single word w has the pattern `\b(` + w + `)\b` |
| `ProfaneFilters.WordIsDelimited` | src/ProfanityFilter.Services/Internals/ProfaneFilter.cs:11 | every word stands verbatim in the pattern at a known position, preceded by `(` (first word) or `\|`, and followed by `)` (last word) or `\|` |
| `ProfaneFilters.WordsOccurVerbatim` | src/ProfanityFilter.Services/Internals/ProfaneFilter.cs:11 | every word of the set occurs as a contiguous, unescaped, case-preserved piece of the pattern |
| `ProfaneFilters.PiecesRoundTrip` | src/ProfanityFilter.Services/Internals/ProfaneFilter.cs:11 | for a non-empty set whose words hold no `\|`, splitting the text between `\b(` and `)\b` on `\|` gives back the word sequence |
| `ProfaneFilters.PiecesAreTheSet` | src/ProfanityFilter.Services/Internals/ProfaneFilter.cs:8-11 | under the same conditions the `\|`-separated pieces of the body are exactly the members of the set, and there are as many as the set has members |
| `ProfaneFilters.UnescapedBarSplitsWord` | src/ProfanityFilter.Services/Internals/ProfaneFilter.cs:11 | the single word `a\|b` is not escaped, so the `\|`-separated pieces of the body are `a` and `b` |
| `ProfaneFilters.PiecesOfAnyWords` | src/ProfanityFilter.Services/Internals/ProfaneFilter.cs:11 | for any non-empty set, with words holding `\|` or not, the `\|`-separated pieces of the body are each word's own pieces split on `\|`, in enumeration order |
| `ProfaneFilters.PatternIgnoresSourceName` | src/ProfanityFilter.Services/Internals/ProfaneFilter.cs:6-11 | two records with the same words have the same pattern, whatever their source names |
| `ProfaneFilters.EnumerationOrderIrrelevant` | src/ProfanityFilter.Services/Internals/ProfaneFilter.cs:8-11 | two enumerations of the same word set give patterns of equal length and the same set of `\|`-separated body pieces, with no condition on the words |

## Left out

- `|`-separated pieces versus regex alternatives: the lemmas speak of the pieces of the body split on `|`. Because words are not escaped, these pieces are the regular expression's alternatives only when no word holds a regex metacharacter. For the words `\` and `x` the body is `\|x`, one alternative matching a literal bar, yet it splits into two pieces.
- What the pattern matches: word boundaries, case-insensitive matching and alternation order belong to the .NET regular-expression engine. Only the pattern text is modelled.
- Record equality and hashing of `ProfaneFilter`: these depend on how `FrozenSet<string>` compares, which is base-library behaviour.
- Stale patterns: a C# `with` copy, and an object initializer on construction (`new ProfaneFilter(n, a) { ProfaneWords = b }`, allowed because positional record members are init-only), both keep the `RegexPattern` computed from the first word set while `ProfaneWords` holds another. The datatype cannot represent such a value: its pattern is always the one for the words it holds. For such C# values `PatternIgnoresSourceName` and the lemmas tying the pattern to `profaneWords` do not hold.
- `null`: C# `string.Join` writes a `null` element as empty text, and a `null` `ProfaneWords` makes it throw `ArgumentNullException` during construction. Callers are not meant to pass `null`, but the non-nullable annotation is only a compile-time warning. The model has no `null`, so the null-element case and the `ArgumentNullException` path are not modelled.
- Characters are Dafny `char` values. UTF-16 code units, surrogate pairs and culture rules are not modelled; `Join` and `Split` only copy characters and compare them to the separator.
- The rest of the service: the content-filter service and its step pipeline, the replacement strategies (asterisk, bleep, emoji, middle asterisk), pattern caching in a memory cache, loading word lists from embedded files, and the async entry points with their options. These are outside this record and are not modelled.
