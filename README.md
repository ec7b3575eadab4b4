# Token-difference front end of FuzzierSharp

FuzzierSharp scores how similar two strings are. Its token-difference scorers
(`TokenDifferenceScorer`, `PartialTokenDifferenceScorer`) share one base class,
`TokenDifferenceScorerBase`. That base class turns each raw input into the
ascending sequence of its whole-word tokens and hands the two token sequences to
the token-level `Scorer` of the concrete subclass. It has three `Score`
overloads:

- `Score(string[], string[])` hands the two token arrays to `Scorer` unchanged.
- `Score(string, string)` tokenizes each input and calls the array overload.
  Tokenizing is `Regex.Split(input, @"\s+")`, then `Where(s => s.Any())`, then
  `OrderBy(s => s)`.
- `Score(string, string, IPreprocessor)` preprocesses each raw input once and
  then calls the string overload.

The project is three modules:

- `WhitespaceSplit` (`whitespace_split.dfy`) holds the .NET `\s` class and
  `Regex.Split` on `\s+`, with its empty leading and trailing pieces. It also
  holds the `Where` filter and `Words`. `Words` is an independent definition of
  "the maximal runs of non-whitespace characters". It comes with lemmas on how
  whitespace cuts words.
- `OrdinalSort` (`ordinal_sort.dfy`) holds the ordinal string order, the
  proofs that it is a total order, and a stable insertion sort standing for
  `OrderBy`. It proves that the sort orders and permutes its input, and that a
  multiset has only one sorted arrangement.
- `TokenDifference` (`token_difference.dfy`) holds `Tokenize`, the three
  overloads (`ScoreTokens`, `Score`, `ScorePreprocessed`) and the properties of
  the whole front end.

The subclass's abstract `Scorer(string[], string[])` is a parameter
`scorer: (seq<string>, seq<string>) -> int`. The caller's `IPreprocessor` is a
parameter `preprocessor: string -> string`. Nothing is assumed about either of
them, so every property below holds whatever concrete scorer and preprocessor
are used. `Score` and `ScorePreprocessed` are plain definitions. What they
promise is stated by the lemmas about them in the table.

## Model

| member | source | states |
|---|---|---|
| `WhitespaceSplit.WordLength` | FuzzierSharp/SimilarityRatio/Scorer/StrategySensitive/TokenDifference/TokenDifferenceScorerBase.cs:17 | the length of the longest whitespace-free prefix: no character before it is whitespace, and it stops only at the end of the input or at a whitespace character |
| `WhitespaceSplit.GapLength` | FuzzierSharp/SimilarityRatio/Scorer/StrategySensitive/TokenDifference/TokenDifferenceScorerBase.cs:17 | one greedy match of `\s+` at the front: every character before it is whitespace, and it stops only at the end of the input or at a non-whitespace character |
| `WhitespaceSplit.NextStart` | FuzzierSharp/SimilarityRatio/Scorer/StrategySensitive/TokenDifference/TokenDifferenceScorerBase.cs:17 | after a first word that is followed by whitespace, the next piece starts past the whole whitespace run: everything from the end of the word up to it is whitespace, and it is the end of the input or a non-whitespace character |
| `WhitespaceSplit.RegexSplit` | FuzzierSharp/SimilarityRatio/Scorer/StrategySensitive/TokenDifference/TokenDifferenceScorerBase.cs:17 | `Regex.Split(input, @"\s+")` gives at least one piece, and no piece holds whitespace |
| `WhitespaceSplit.FirstPieceEmptyIff` | FuzzierSharp/SimilarityRatio/Scorer/StrategySensitive/TokenDifference/TokenDifferenceScorerBase.cs:17 | the first piece is empty iff the input is empty or starts with whitespace |
| `WhitespaceSplit.LastPieceEmptyIff` | FuzzierSharp/SimilarityRatio/Scorer/StrategySensitive/TokenDifference/TokenDifferenceScorerBase.cs:17 | the last piece is empty iff the input is empty or ends with whitespace |
| `WhitespaceSplit.InnerPiecesNonEmpty` | FuzzierSharp/SimilarityRatio/Scorer/StrategySensitive/TokenDifference/TokenDifferenceScorerBase.cs:17 | every piece strictly between the first and the last is non-empty |
| `WhitespaceSplit.WhereNonEmpty` | FuzzierSharp/SimilarityRatio/Scorer/StrategySensitive/TokenDifference/TokenDifferenceScorerBase.cs:17 | `Where(s => s.Any())` keeps exactly the non-empty pieces: each kept string is non-empty, a string is kept iff it is a non-empty piece, and each non-empty string is kept as often as it occurs |
| `WhitespaceSplit.WhereNonEmptyAppend` | FuzzierSharp/SimilarityRatio/Scorer/StrategySensitive/TokenDifference/TokenDifferenceScorerBase.cs:17 | the filter keeps the order of what it keeps: filtering a concatenation is the concatenation of the filtered parts |
| `WhitespaceSplit.Words` | FuzzierSharp/SimilarityRatio/Scorer/StrategySensitive/TokenDifference/TokenDifferenceScorerBase.cs:17 | the reference list of words: every word is non-empty and free of whitespace |
| `WhitespaceSplit.SplitThenFilterIsWords` | FuzzierSharp/SimilarityRatio/Scorer/StrategySensitive/TokenDifference/TokenDifferenceScorerBase.cs:17 | splitting on `\s+` and dropping empty pieces yields exactly the maximal non-whitespace runs, left to right |
| `WhitespaceSplit.NoWordsIffBlank` | FuzzierSharp/SimilarityRatio/Scorer/StrategySensitive/TokenDifference/TokenDifferenceScorerBase.cs:17 | an input has no words iff it is empty or all whitespace |
| `WhitespaceSplit.WordsAfterWhitespace` | FuzzierSharp/SimilarityRatio/Scorer/StrategySensitive/TokenDifference/TokenDifferenceScorerBase.cs:17 | leading whitespace adds no word |
| `WhitespaceSplit.WordsBeforeWhitespace` | FuzzierSharp/SimilarityRatio/Scorer/StrategySensitive/TokenDifference/TokenDifferenceScorerBase.cs:17 | trailing whitespace adds no word |
| `WhitespaceSplit.WordLengthOfExtension` | FuzzierSharp/SimilarityRatio/Scorer/StrategySensitive/TokenDifference/TokenDifferenceScorerBase.cs:17 | text appended after whitespace (or nothing) does not lengthen the first word |
| `WhitespaceSplit.WordsAroundGap` | FuzzierSharp/SimilarityRatio/Scorer/StrategySensitive/TokenDifference/TokenDifferenceScorerBase.cs:17 | the words of `a + gap + b`, for a non-empty whitespace `gap`, are the words of `a` followed by the words of `b` |
| `WhitespaceSplit.WordsOfWord` | FuzzierSharp/SimilarityRatio/Scorer/StrategySensitive/TokenDifference/TokenDifferenceScorerBase.cs:17 | a non-empty whitespace-free string is exactly one word |
| `WhitespaceSplit.WordsOfJoin` | FuzzierSharp/SimilarityRatio/Scorer/StrategySensitive/TokenDifference/TokenDifferenceScorerBase.cs:17 | round trip: words joined by any non-empty whitespace separator split back into the same words |
| `WhitespaceSplit.WordsKeepEveryLetter` | FuzzierSharp/SimilarityRatio/Scorer/StrategySensitive/TokenDifference/TokenDifferenceScorerBase.cs:17 | nothing but whitespace is dropped: the words, concatenated, are the input's non-whitespace characters in order |
| `OrdinalSort.BelowReflexive` | FuzzierSharp/SimilarityRatio/Scorer/StrategySensitive/TokenDifference/TokenDifferenceScorerBase.cs:17 | the order used for `OrderBy` is reflexive |
| `OrdinalSort.BelowAntisymmetric` | FuzzierSharp/SimilarityRatio/Scorer/StrategySensitive/TokenDifference/TokenDifferenceScorerBase.cs:17 | the order is antisymmetric: strings that sort no later than each other are equal |
| `OrdinalSort.BelowTransitive` | FuzzierSharp/SimilarityRatio/Scorer/StrategySensitive/TokenDifference/TokenDifferenceScorerBase.cs:17 | the order is transitive |
| `OrdinalSort.BelowTotal` | FuzzierSharp/SimilarityRatio/Scorer/StrategySensitive/TokenDifference/TokenDifferenceScorerBase.cs:17 | the order is total: any two strings are comparable |
| `OrdinalSort.InsertPermutes` | FuzzierSharp/SimilarityRatio/Scorer/StrategySensitive/TokenDifference/TokenDifferenceScorerBase.cs:17 | inserting adds exactly the inserted string to the multiset |
| `OrdinalSort.InsertSorted` | FuzzierSharp/SimilarityRatio/Scorer/StrategySensitive/TokenDifference/TokenDifferenceScorerBase.cs:17 | inserting into an ascending sequence keeps it ascending |
| `OrdinalSort.SortSortsAndPermutes` | FuzzierSharp/SimilarityRatio/Scorer/StrategySensitive/TokenDifference/TokenDifferenceScorerBase.cs:17 | `OrderBy(s => s)` gives an ascending sequence with the same elements and multiplicities as its input |
| `OrdinalSort.SortedUnique` | FuzzierSharp/SimilarityRatio/Scorer/StrategySensitive/TokenDifference/TokenDifferenceScorerBase.cs:17 | two ascending sequences with the same multiset are equal |
| `OrdinalSort.SortEqualIffSameMultiset` | FuzzierSharp/SimilarityRatio/Scorer/StrategySensitive/TokenDifference/TokenDifferenceScorerBase.cs:17 | two inputs sort to the same output iff they have the same multiset, in both directions |
| `TokenDifference.Tokenize` | FuzzierSharp/SimilarityRatio/Scorer/StrategySensitive/TokenDifference/TokenDifferenceScorerBase.cs:17-18 | the tokens are ascending, every token is non-empty and whitespace-free, and they are a permutation of the input's words |
| `TokenDifference.TokenizeEqualIffSameWords` | FuzzierSharp/SimilarityRatio/Scorer/StrategySensitive/TokenDifference/TokenDifferenceScorerBase.cs:17-18 | two inputs give the same tokens iff they have the same multiset of words, in both directions |
| `TokenDifference.NoTokensIffBlank` | FuzzierSharp/SimilarityRatio/Scorer/StrategySensitive/TokenDifference/TokenDifferenceScorerBase.cs:17-18 | an input gives no tokens iff it is empty or all whitespace |
| `TokenDifference.TokenizeJoined` | FuzzierSharp/SimilarityRatio/Scorer/StrategySensitive/TokenDifference/TokenDifferenceScorerBase.cs:17-18 | words joined by any non-empty whitespace tokenize to those words sorted |
| `TokenDifference.ScoreTokens` | FuzzierSharp/SimilarityRatio/Scorer/StrategySensitive/TokenDifference/TokenDifferenceScorerBase.cs:10-13 | the array overload is the subclass's scorer applied to the two token sequences as given, with nothing else computed |
| `TokenDifference.ScorerSeesSortedWords` | FuzzierSharp/SimilarityRatio/Scorer/StrategySensitive/TokenDifference/TokenDifferenceScorerBase.cs:15-21 | the string overload is the scorer applied to two token sequences, each ascending, whitespace-free, non-empty per token and a permutation of that input's words |
| `TokenDifference.ScoreDependsOnlyOnWordMultisets` | FuzzierSharp/SimilarityRatio/Scorer/StrategySensitive/TokenDifference/TokenDifferenceScorerBase.cs:15-21 | the string score depends on each input only through the multiset of its words |
| `TokenDifference.ScoreIgnoresWordOrder` | FuzzierSharp/SimilarityRatio/Scorer/StrategySensitive/TokenDifference/TokenDifferenceScorerBase.cs:15-21 | swapping the text on the two sides of a whitespace run, in either input, leaves the score unchanged |
| `TokenDifference.ScoreIgnoresSpacing` | FuzzierSharp/SimilarityRatio/Scorer/StrategySensitive/TokenDifference/TokenDifferenceScorerBase.cs:15-21 | replacing one non-empty whitespace run by another, in either input, leaves the score unchanged |
| `TokenDifference.ScoreIgnoresOuterWhitespace` | FuzzierSharp/SimilarityRatio/Scorer/StrategySensitive/TokenDifference/TokenDifferenceScorerBase.cs:15-21 | adding leading or trailing whitespace, in either input, leaves the score unchanged |
| `TokenDifference.BlankInputScoresAsNoTokens` | FuzzierSharp/SimilarityRatio/Scorer/StrategySensitive/TokenDifference/TokenDifferenceScorerBase.cs:15-21 | an empty or all-whitespace input reaches the scorer as an empty token sequence |
| `TokenDifference.PreprocessedScoresPreprocessedInputs` | FuzzierSharp/SimilarityRatio/Scorer/StrategySensitive/TokenDifference/TokenDifferenceScorerBase.cs:24-29 | the preprocessing overload is the scorer applied to the tokens of the two preprocessed raw inputs, so the preprocessor never sees a token; with the identity preprocessor it equals the plain string overload |
| `TokenDifference.PreprocessorKeepingWordsIsInvisible` | FuzzierSharp/SimilarityRatio/Scorer/StrategySensitive/TokenDifference/TokenDifferenceScorerBase.cs:24-29 | a preprocessor that keeps each input's multiset of words leaves the score unchanged |

## Left out

- The concrete token-level scorers are not part of this model. This covers the
  token-level Levenshtein ratio behind `TokenDifferenceScorer` and its partial
  variant. The abstract `Scorer` is a function parameter, and no range or
  symmetry is assumed for it, because the base class promises neither.
- `IPreprocessor` implementations are not part of this model. The preprocessor
  is an arbitrary function parameter.
- `OrderBy(s => s)` uses the default string comparer, which is
  culture-sensitive. The model sorts by ordinal order on characters instead.
  The culture comparer is only a total preorder: distinct strings can compare
  equal, for instance `"co\u00ADop"` and `"coop"`, because the soft hyphen is
  ignorable. `OrderBy` is stable, so such tied tokens stay in input order, and
  the token sequence then depends on the order of the words in the input.
  Against `"coop zzz"`, the inputs `"co\u00ADop coop"` and `"coop co\u00ADop"`
  reach the scorer as `[co\u00ADop, coop]` and `[coop, co\u00ADop]`. A scorer
  that compares tokens with `==` can score them differently (not executed). The
  four lemmas below therefore hold for the program only when no two distinct
  words of an input compare equal under the current culture. The exact culture
  rules (case, ignorable characters) are library behaviour and are not
  modelled.
- TokenDifference.TokenizeEqualIffSameWords: proved for the ordinal order;
  under the culture comparer, inputs with distinct but equal-comparing words
  can have the same word multiset and different token sequences.
- TokenDifference.ScoreDependsOnlyOnWordMultisets: proved for the ordinal
  order; under the culture comparer, the order of distinct but equal-comparing
  words in an input can change the score.
- TokenDifference.ScoreIgnoresWordOrder: proved for the ordinal order; under
  the culture comparer, swapping distinct but equal-comparing words can change
  the score.
- TokenDifference.PreprocessorKeepingWordsIsInvisible: proved for the ordinal
  order; under the culture comparer, a preprocessor that reorders distinct but
  equal-comparing words can change the score.
- .NET strings are UTF-16 and Dafny characters are Unicode scalar values. The
  two agree for every whitespace character. A .NET string can also hold
  unpaired surrogates, which a Dafny `string` cannot represent, so such inputs
  are not modelled. Only the order of characters above U+FFFF relative to
  U+E000–U+FFFF could differ under an ordinal comparison.
- `IsWhitespace` writes out `\s` as `[\f\n\r\t\v\x85\p{Z}]` for one fixed
  Unicode version. Later Unicode versions could change the `\p{Z}` members.
- Null inputs, and a preprocessor that returns null, make .NET throw. Dafny
  strings cannot be null, so these paths are not modelled.
- `Score(string[], string[])` is virtual. A further subclass could override it
  again. The model assumes that the string overload reaches the subclass's
  `Scorer`.
- The token arrays that `ToArray()` builds are fresh and not shared, so they
  are modelled as sequence values.
- `FuzzierSharp/Fuzz.cs` is not part of this model. It is a facade: each
  method forwards to a cached scorer instance. One of its overloads,
  `PartialTokenInitialismRatio(input1, input2, preprocessor)` at
  FuzzierSharp/Fuzz.cs:276-279, drops its preprocessor argument. The scorer
  cache is not part of this model either.
