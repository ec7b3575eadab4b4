/** The front end shared by the token-difference scorers
    (TokenDifferenceScorerBase): each raw input becomes the ascending
    sequence of its whole-word tokens, and the two token sequences go to
    the token-level scorer that a concrete subclass supplies.

    The subclass's `Scorer(string[], string[])` is a parameter of type
    `TokenScorer`, and the caller's `IPreprocessor` a parameter of type
    `Preprocessor`; nothing is assumed about either. */
module TokenDifference {
  import opened WhitespaceSplit
  import opened OrdinalSort

  /** The abstract `Scorer(string[], string[])` of a concrete subclass. */
  type TokenScorer = (seq<string>, seq<string>) -> int

  /** `IPreprocessor.Preprocess`. */
  type Preprocessor = string -> string

  /** `Regex.Split(input, @"\s+").Where(s => s.Any()).OrderBy(s => s).ToArray()` */
  function Tokenize(input: string): (tokens: seq<string>)
    ensures Sorted(tokens)
    ensures multiset(tokens) == multiset(Words(input))
    ensures forall i :: 0 <= i < |tokens| ==> IsWord(tokens[i])
  {
    var pieces := WhereNonEmpty(RegexSplit(input));
    SplitThenFilterIsWords(input);
    SortSortsAndPermutes(pieces);
    var tokens := Sort(pieces);
    PermutedWordsAreWords(tokens, input);
    tokens
  }

  lemma PermutedWordsAreWords(tokens: seq<string>, input: string)
    requires multiset(tokens) == multiset(Words(input))
    ensures forall i :: 0 <= i < |tokens| ==> IsWord(tokens[i])
  {
    forall i | 0 <= i < |tokens|
      ensures IsWord(tokens[i])
    {
      assert tokens[i] in multiset(Words(input));
    }
  }

  /** `Score(string[], string[])`: the token arrays go to the subclass's
      scorer as they are. */
  function ScoreTokens(scorer: TokenScorer, tokens1: seq<string>, tokens2: seq<string>): (r: int)
    ensures r == scorer(tokens1, tokens2)
  {
    scorer(tokens1, tokens2)
  }

  /** `Score(string, string)`: tokenize both inputs, then score the tokens. */
  function Score(scorer: TokenScorer, input1: string, input2: string): int {
    ScoreTokens(scorer, Tokenize(input1), Tokenize(input2))
  }

  /** `Score(string, string, IPreprocessor)`: preprocess each raw input,
      then score as `Score(string, string)` does. */
  function ScorePreprocessed(scorer: TokenScorer, input1: string, input2: string,
                             preprocessor: Preprocessor): int
  {
    Score(scorer, preprocessor(input1), preprocessor(input2))
  }

  /** What the scorer is handed for each input: the input's words, each
      non-empty and free of whitespace, all of them and nothing else, in
      ascending order. */
  lemma ScorerSeesSortedWords(scorer: TokenScorer, input1: string, input2: string)
    ensures exists tokens1, tokens2 ::
      && Score(scorer, input1, input2) == scorer(tokens1, tokens2)
      && Sorted(tokens1) && multiset(tokens1) == multiset(Words(input1))
      && Sorted(tokens2) && multiset(tokens2) == multiset(Words(input2))
      && (forall i :: 0 <= i < |tokens1| ==> IsWord(tokens1[i]))
      && (forall i :: 0 <= i < |tokens2| ==> IsWord(tokens2[i]))
  {
    var tokens1, tokens2 := Tokenize(input1), Tokenize(input2);
    assert Score(scorer, input1, input2) == scorer(tokens1, tokens2);
  }

  /** Two inputs produce the same tokens exactly when they have the same
      words with the same multiplicities, whatever their order and
      whatever whitespace surrounds them. */
  lemma TokenizeEqualIffSameWords(a: string, b: string)
    ensures Tokenize(a) == Tokenize(b) <==> multiset(Words(a)) == multiset(Words(b))
  {
    if multiset(Words(a)) == multiset(Words(b)) {
      SortedUnique(Tokenize(a), Tokenize(b));
    }
  }

  /** An input yields no tokens exactly when it is empty or all whitespace. */
  lemma NoTokensIffBlank(input: string)
    ensures Tokenize(input) == [] <==> AllWhitespace(input)
  {
    NoWordsIffBlank(input);
    var tokens := Tokenize(input);
    assert |tokens| == |multiset(tokens)| == |multiset(Words(input))| == |Words(input)|;
  }

  /** The tokens of words joined by any non-empty whitespace are those
      words in ascending order. */
  lemma TokenizeJoined(words: seq<string>, sep: string)
    requires forall i :: 0 <= i < |words| ==> IsWord(words[i])
    requires |sep| > 0 && AllWhitespace(sep)
    ensures Tokenize(JoinWith(words, sep)) == Sort(words)
  {
    WordsOfJoin(words, sep);
    SortSortsAndPermutes(words);
    SortedUnique(Tokenize(JoinWith(words, sep)), Sort(words));
  }

  /** The score depends on each input only through the multiset of its
      words. */
  lemma ScoreDependsOnlyOnWordMultisets(scorer: TokenScorer, a: string, a': string, b: string, b': string)
    requires multiset(Words(a)) == multiset(Words(a'))
    requires multiset(Words(b)) == multiset(Words(b'))
    ensures Score(scorer, a, b) == Score(scorer, a', b')
  {
    TokenizeEqualIffSameWords(a, a');
    TokenizeEqualIffSameWords(b, b');
  }

  /** Swapping the text on the two sides of a whitespace run, in either
      input, does not change the score. */
  lemma ScoreIgnoresWordOrder(scorer: TokenScorer, x: string, gap: string, y: string, other: string)
    requires |gap| > 0 && AllWhitespace(gap)
    ensures Score(scorer, x + gap + y, other) == Score(scorer, y + gap + x, other)
    ensures Score(scorer, other, x + gap + y) == Score(scorer, other, y + gap + x)
  {
    WordsAroundGap(x, gap, y);
    WordsAroundGap(y, gap, x);
    assert multiset(Words(x) + Words(y)) == multiset(Words(y) + Words(x));
    TokenizeEqualIffSameWords(x + gap + y, y + gap + x);
  }

  /** Replacing one non-empty whitespace run by another, in either input,
      does not change the score. */
  lemma ScoreIgnoresSpacing(scorer: TokenScorer, x: string, gap1: string, gap2: string, y: string, other: string)
    requires |gap1| > 0 && AllWhitespace(gap1)
    requires |gap2| > 0 && AllWhitespace(gap2)
    ensures Score(scorer, x + gap1 + y, other) == Score(scorer, x + gap2 + y, other)
    ensures Score(scorer, other, x + gap1 + y) == Score(scorer, other, x + gap2 + y)
  {
    WordsAroundGap(x, gap1, y);
    WordsAroundGap(x, gap2, y);
    TokenizeEqualIffSameWords(x + gap1 + y, x + gap2 + y);
  }

  /** Leading and trailing whitespace, in either input, does not change the
      score. */
  lemma ScoreIgnoresOuterWhitespace(scorer: TokenScorer, lead: string, x: string, trail: string, other: string)
    requires AllWhitespace(lead) && AllWhitespace(trail)
    ensures Score(scorer, lead + x + trail, other) == Score(scorer, x, other)
    ensures Score(scorer, other, lead + x + trail) == Score(scorer, other, x)
  {
    assert lead + x + trail == lead + (x + trail);
    WordsAfterWhitespace(lead, x + trail);
    WordsBeforeWhitespace(x, trail);
    TokenizeEqualIffSameWords(lead + x + trail, x);
  }

  /** An empty or all-whitespace input reaches the scorer as no tokens. */
  lemma BlankInputScoresAsNoTokens(scorer: TokenScorer, blank: string, other: string)
    requires AllWhitespace(blank)
    ensures Score(scorer, blank, other) == scorer([], Tokenize(other))
    ensures Score(scorer, other, blank) == scorer(Tokenize(other), [])
  {
    NoTokensIffBlank(blank);
  }

  /** The preprocessor runs once on each raw input, before tokenizing, and
      never on the tokens: the scorer sees the tokens of the preprocessed
      inputs. */
  lemma PreprocessedScoresPreprocessedInputs(scorer: TokenScorer, a: string, b: string, preprocessor: Preprocessor)
    ensures ScorePreprocessed(scorer, a, b, preprocessor)
            == scorer(Tokenize(preprocessor(a)), Tokenize(preprocessor(b)))
    ensures ScorePreprocessed(scorer, a, b, s => s) == Score(scorer, a, b)
  {
  }

  /** A preprocessor that keeps every input's words (up to order and
      multiplicity) leaves every score as it is; in general the score with
      preprocessing depends only on the words of the preprocessed inputs. */
  lemma PreprocessorKeepingWordsIsInvisible(scorer: TokenScorer, a: string, b: string, preprocessor: Preprocessor)
    requires multiset(Words(preprocessor(a))) == multiset(Words(a))
    requires multiset(Words(preprocessor(b))) == multiset(Words(b))
    ensures ScorePreprocessed(scorer, a, b, preprocessor) == Score(scorer, a, b)
  {
    ScoreDependsOnlyOnWordMultisets(scorer, preprocessor(a), a, preprocessor(b), b);
  }
}
