/** How TokenDifferenceScorerBase cuts a raw input into words:
    `Regex.Split(input, @"\s+")` followed by `Where(s => s.Any())`.
    `Words` is an independent, character-by-character definition of
    "the maximal runs of non-whitespace characters", and
    `SplitThenFilterIsWords` proves that the split-and-filter pipeline
    computes exactly it. */
module WhitespaceSplit {

  /** The .NET regular-expression class `\s`, which is
      `[\f\n\r\t\v\x85\p{Z}]`; `\p{Z}` is the space separators (Zs), the
      line separator (Zl) and the paragraph separator (Zp). */
  predicate IsWhitespace(c: char) {
    || c == '\t' || c == '\n' || c == '\U{000B}' || c == '\U{000C}' || c == '\r'
    || c == ' ' || c == '\U{0085}' || c == '\U{00A0}' || c == '\U{1680}'
    || ('\U{2000}' <= c <= '\U{200A}')
    || c == '\U{2028}' || c == '\U{2029}'
    || c == '\U{202F}' || c == '\U{205F}' || c == '\U{3000}'
  }

  predicate AllWhitespace(s: string) {
    forall i :: 0 <= i < |s| ==> IsWhitespace(s[i])
  }

  predicate NoWhitespace(s: string) {
    forall i :: 0 <= i < |s| ==> !IsWhitespace(s[i])
  }

  /** A token as the scorer sees it: non-empty and free of whitespace. */
  predicate IsWord(w: string) {
    |w| > 0 && NoWhitespace(w)
  }

  /** The length of the longest prefix of `s` that holds no whitespace. */
  function WordLength(s: string): (n: nat)
    ensures n <= |s|
    ensures forall i :: 0 <= i < n ==> !IsWhitespace(s[i])
    ensures n < |s| ==> IsWhitespace(s[n])
  {
    if |s| == 0 || IsWhitespace(s[0]) then 0 else 1 + WordLength(s[1..])
  }

  /** The length of the longest prefix of `s` that is all whitespace: one
      greedy match of `\s+`, or nothing when `s` does not start with
      whitespace. */
  function GapLength(s: string): (n: nat)
    ensures n <= |s|
    ensures forall i :: 0 <= i < n ==> IsWhitespace(s[i])
    ensures n < |s| ==> !IsWhitespace(s[n])
  {
    if |s| == 0 || !IsWhitespace(s[0]) then 0 else 1 + GapLength(s[1..])
  }

  /** Where the second piece of `s` starts: after the first word and the
      whole whitespace run that follows it. */
  function NextStart(s: string): (m: nat)
    requires WordLength(s) < |s|
    ensures WordLength(s) < m <= |s|
    ensures forall i :: WordLength(s) <= i < m ==> IsWhitespace(s[i])
    ensures m < |s| ==> !IsWhitespace(s[m])
  {
    var n := WordLength(s);
    GapAt(s, n);
    n + GapLength(s[n..])
  }

  /** The whitespace run that starts at position `n` of `s`, in terms of
      `s` itself. */
  lemma GapAt(s: string, n: nat)
    requires n < |s| && IsWhitespace(s[n])
    ensures var g := GapLength(s[n..]);
      && 0 < g
      && (forall i :: n <= i < n + g ==> IsWhitespace(s[i]))
      && (n + g < |s| ==> !IsWhitespace(s[n + g]))
  {
    var t := s[n..];
    var g := GapLength(t);
    assert t[0] == s[n];
    forall i | n <= i < n + g
      ensures IsWhitespace(s[i])
    {
      assert s[i] == t[i - n];
    }
    if n + g < |s| {
      assert s[n + g] == t[g];
    }
  }

  /** `Regex.Split(s, @"\s+")`: the pieces of `s` between the maximal runs
      of whitespace, left to right. A leading or trailing run leaves an
      empty piece at that end, and the empty string splits into one empty
      piece, as .NET does. */
  function RegexSplit(s: string): (pieces: seq<string>)
    ensures |pieces| >= 1
    ensures forall i :: 0 <= i < |pieces| ==> NoWhitespace(pieces[i])
    decreases |s|
  {
    var n := WordLength(s);
    if n == |s| then [s] else [s[..n]] + RegexSplit(s[NextStart(s)..])
  }

  /** The first piece of `Regex.Split(s, @"\s+")` is empty iff `s` is
      empty or starts with whitespace. */
  lemma FirstPieceEmptyIff(s: string)
    ensures RegexSplit(s)[0] == "" <==> |s| == 0 || IsWhitespace(s[0])
  {
    var n := WordLength(s);
    assert RegexSplit(s)[0] == s[..n];
  }

  /** The last piece is empty iff `s` is empty or ends with whitespace. */
  lemma {:induction false} LastPieceEmptyIff(s: string)
    ensures LastPiece(RegexSplit(s)) == "" <==> EndsBlank(s)
    decreases |s|
  {
    if WordLength(s) == |s| {
      assert RegexSplit(s) == [s];
    } else {
      LastPieceEmptyIff(s[NextStart(s)..]);
      LastPieceOfStep(s);
      EndsBlankOfSuffix(s, NextStart(s));
    }
  }

  function LastPiece(pieces: seq<string>): string
    requires |pieces| > 0
  {
    pieces[|pieces| - 1]
  }

  /** `s` is empty or ends in a whitespace character. */
  predicate EndsBlank(s: string) {
    |s| == 0 || IsWhitespace(s[|s| - 1])
  }

  lemma EndsBlankOfSuffix(s: string, m: nat)
    requires 0 < m <= |s| && IsWhitespace(s[m - 1])
    ensures EndsBlank(s[m..]) <==> EndsBlank(s)
  {
    if m < |s| {
      assert s[m..][|s| - m - 1] == s[|s| - 1];
    }
  }

  lemma LastPieceOfStep(s: string)
    requires WordLength(s) < |s|
    ensures LastPiece(RegexSplit(s)) == LastPiece(RegexSplit(s[NextStart(s)..]))
  {
    RegexSplitStep(s);
    LastOfCons(s[..WordLength(s)], RegexSplit(s[NextStart(s)..]));
  }

  /** One step of the split: the word in front, then the split of what
      follows the whitespace run after it. */
  lemma RegexSplitStep(s: string)
    requires WordLength(s) < |s|
    ensures RegexSplit(s) == [s[..WordLength(s)]] + RegexSplit(s[NextStart(s)..])
  {
  }

  lemma LastOfCons(first: string, pieces: seq<string>)
    requires |pieces| > 0
    ensures LastPiece([first] + pieces) == LastPiece(pieces)
  {
  }

  predicate InnerNonEmpty(pieces: seq<string>) {
    forall i :: 0 < i < |pieces| - 1 ==> pieces[i] != ""
  }

  /** No piece strictly between the first and the last is empty. */
  lemma {:induction false} InnerPiecesNonEmpty(s: string)
    ensures InnerNonEmpty(RegexSplit(s))
    decreases |s|
  {
    var n := WordLength(s);
    if n < |s| {
      var m := NextStart(s);
      InnerPiecesNonEmpty(s[m..]);
      if m == |s| {
        assert RegexSplit(s[m..]) == [""];
      } else {
        FirstPieceEmptyIff(s[m..]);
      }
      InnerNonEmptyCons(s[..n], RegexSplit(s[m..]));
    }
  }

  lemma InnerNonEmptyCons(first: string, pieces: seq<string>)
    requires InnerNonEmpty(pieces)
    requires |pieces| >= 2 ==> pieces[0] != ""
    ensures InnerNonEmpty([first] + pieces)
  {
    var all := [first] + pieces;
    forall i | 0 < i < |all| - 1 ensures all[i] != "" {
      assert all[i] == pieces[i - 1];
    }
  }

  /** `Where(s => s.Any())`: the non-empty pieces, in their order. */
  function WhereNonEmpty(pieces: seq<string>): (kept: seq<string>)
    ensures |kept| <= |pieces|
    ensures forall i :: 0 <= i < |kept| ==> kept[i] != ""
    ensures forall x :: x in kept <==> x in pieces && x != ""
    ensures multiset(kept) == multiset(pieces)["" := 0]
  {
    if |pieces| == 0 then []
    else
      assert pieces == [pieces[0]] + pieces[1..];
      if pieces[0] == "" then WhereNonEmpty(pieces[1..])
      else [pieces[0]] + WhereNonEmpty(pieces[1..])
  }

  /** The filter keeps the order of what it keeps: filtering a
      concatenation filters each part and concatenates the results. */
  lemma {:induction false} WhereNonEmptyAppend(p: seq<string>, q: seq<string>)
    ensures WhereNonEmpty(p + q) == WhereNonEmpty(p) + WhereNonEmpty(q)
    decreases |p|
  {
    if |p| == 0 {
      assert p + q == q;
    } else {
      var x, rest := p[0], p[1..];
      assert p == [x] + rest;
      assert p + q == [x] + (rest + q);
      var front := if x == "" then [] else [x];
      WhereNonEmptyCons(x, rest);
      WhereNonEmptyCons(x, rest + q);
      WhereNonEmptyAppend(rest, q);
      PiecesAssoc(front, WhereNonEmpty(rest), WhereNonEmpty(q));
    }
  }

  lemma PiecesAssoc(a: seq<string>, b: seq<string>, c: seq<string>)
    ensures a + (b + c) == a + b + c
  {
  }

  /** Reference definition: the maximal runs of non-whitespace characters
      of `s`, read left to right. */
  function Words(s: string): (words: seq<string>)
    ensures forall i :: 0 <= i < |words| ==> IsWord(words[i])
    decreases |s|
  {
    if |s| == 0 then []
    else if IsWhitespace(s[0]) then Words(s[1..])
    else [s[..WordLength(s)]] + Words(s[WordLength(s)..])
  }

  /** The characters of `s` that are not whitespace, in order. */
  function Letters(s: string): string {
    if |s| == 0 then ""
    else if IsWhitespace(s[0]) then Letters(s[1..])
    else [s[0]] + Letters(s[1..])
  }

  /** Concatenation of a sequence of strings. */
  function Concat(parts: seq<string>): string {
    if |parts| == 0 then "" else parts[0] + Concat(parts[1..])
  }

  /** The strings joined with `sep` between neighbours. */
  function JoinWith(parts: seq<string>, sep: string): string {
    if |parts| == 0 then ""
    else if |parts| == 1 then parts[0]
    else parts[0] + sep + JoinWith(parts[1..], sep)
  }

  /** Whitespace in front of a string contributes no word. */
  lemma {:induction false} WordsAfterWhitespace(gap: string, s: string)
    requires AllWhitespace(gap)
    ensures Words(gap + s) == Words(s)
    decreases |gap|
  {
    if |gap| > 0 {
      assert (gap + s)[1..] == gap[1..] + s;
      WordsAfterWhitespace(gap[1..], s);
    } else {
      assert gap + s == s;
    }
  }

  /** A string that is all whitespace, the empty string included, has no
      words, and it is the only kind of string that has none. */
  lemma {:induction false} NoWordsIffBlank(s: string)
    ensures Words(s) == [] <==> AllWhitespace(s)
    decreases |s|
  {
    if |s| > 0 {
      if IsWhitespace(s[0]) {
        NoWordsIffBlank(s[1..]);
        if AllWhitespace(s[1..]) {
          assert forall i :: 0 < i < |s| ==> s[i] == s[1..][i - 1];
        }
      } else {
        assert !AllWhitespace(s);
      }
    }
  }

  /** Splitting at maximal whitespace runs and dropping the empty pieces
      yields exactly the maximal non-whitespace runs. */
  lemma {:induction false} SplitThenFilterIsWords(s: string)
    ensures WhereNonEmpty(RegexSplit(s)) == Words(s)
    decreases |s|
  {
    var n := WordLength(s);
    if n == |s| {
      if |s| > 0 {
        assert s[..n] == s && s[n..] == "";
      }
    } else {
      FilteredSplitStep(s);
      WordsStep(s);
      SplitThenFilterIsWords(s[NextStart(s)..]);
    }
  }

  /** One step of the split: the word in front, then what follows the
      whitespace run that ends it. */
  lemma FilteredSplitStep(s: string)
    requires WordLength(s) < |s|
    ensures var n := WordLength(s);
      WhereNonEmpty(RegexSplit(s))
      == (if n == 0 then [] else [s[..n]]) + WhereNonEmpty(RegexSplit(s[NextStart(s)..]))
  {
    var n := WordLength(s);
    assert RegexSplit(s) == [s[..n]] + RegexSplit(s[NextStart(s)..]);
    WhereNonEmptyCons(s[..n], RegexSplit(s[NextStart(s)..]));
  }

  lemma WhereNonEmptyCons(x: string, rest: seq<string>)
    ensures WhereNonEmpty([x] + rest) == (if x == "" then [] else [x]) + WhereNonEmpty(rest)
  {
    assert ([x] + rest)[1..] == rest;
  }

  /** The same step, taken by the reference definition. */
  lemma WordsStep(s: string)
    requires WordLength(s) < |s|
    ensures var n := WordLength(s);
      Words(s) == (if n == 0 then [] else [s[..n]]) + Words(s[NextStart(s)..])
  {
    var n, m := WordLength(s), NextStart(s);
    SliceWhitespace(s, n, m);
    SplitSlice(s, n, m);
    if n == 0 {
      assert s[0..] == s && s[0..m] == s[..m];
      WordsAfterWhitespace(s[..m], s[m..]);
    } else {
      assert Words(s) == [s[..n]] + Words(s[n..]);
      WordsAfterWhitespace(s[n..m], s[m..]);
    }
  }

  lemma SplitSlice(s: string, i: nat, j: nat)
    requires i <= j <= |s|
    ensures s[i..] == s[i..j] + s[j..]
  {
  }

  lemma SliceWhitespace(s: string, i: nat, j: nat)
    requires i <= j <= |s|
    requires forall k :: i <= k < j ==> IsWhitespace(s[k])
    ensures AllWhitespace(s[i..j])
  {
    assert forall k :: 0 <= k < j - i ==> s[i..j][k] == s[i + k];
  }

  /** Whitespace after a string contributes no word. */
  lemma {:induction false} WordsBeforeWhitespace(s: string, gap: string)
    requires AllWhitespace(gap)
    ensures Words(s + gap) == Words(s)
    decreases |s|
  {
    if |s| == 0 {
      assert s + gap == gap + s;
      WordsAfterWhitespace(gap, s);
    } else if IsWhitespace(s[0]) {
      assert (s + gap)[1..] == s[1..] + gap;
      WordsBeforeWhitespace(s[1..], gap);
    } else {
      var n := WordLength(s);
      WordLengthOfExtension(s, gap);
      assert (s + gap)[..n] == s[..n];
      assert (s + gap)[n..] == s[n..] + gap;
      WordsBeforeWhitespace(s[n..], gap);
    }
  }

  /** Appending text that starts with whitespace does not lengthen the
      first word. */
  lemma {:induction false} WordLengthOfExtension(s: string, tail: string)
    requires |tail| == 0 || IsWhitespace(tail[0])
    ensures WordLength(s + tail) == WordLength(s)
    decreases |s|
  {
    if |s| == 0 {
      assert s + tail == tail;
    } else {
      assert (s + tail)[0] == s[0];
      if !IsWhitespace(s[0]) {
        assert (s + tail)[1..] == s[1..] + tail;
        WordLengthOfExtension(s[1..], tail);
      }
    }
  }

  /** Words are cut at whitespace: text on either side of a non-empty run
      of whitespace contributes its words independently. */
  lemma {:induction false} WordsAroundGap(a: string, gap: string, b: string)
    requires |gap| > 0 && AllWhitespace(gap)
    ensures Words(a + gap + b) == Words(a) + Words(b)
    decreases |a|
  {
    var rest := gap + b;
    AppendAssoc(a, gap, b);
    if |a| == 0 {
      assert a + rest == rest;
      WordsAfterWhitespace(gap, b);
    } else if IsWhitespace(a[0]) {
      DropAppend(a, rest, 1);
      AppendAssoc(a[1..], gap, b);
      WordsAroundGap(a[1..], gap, b);
    } else {
      var n := WordLength(a);
      WordLengthOfExtension(a, rest);
      DropAppend(a, rest, n);
      AppendAssoc(a[n..], gap, b);
      WordsAroundGap(a[n..], gap, b);
      assert Words(a + rest) == [a[..n]] + Words(a[n..] + rest);
      ConsAssoc(a[..n], Words(a[n..]), Words(b));
    }
  }

  lemma AppendAssoc(a: string, b: string, c: string)
    ensures a + b + c == a + (b + c)
  {
  }

  lemma DropAppend(a: string, b: string, n: nat)
    requires n <= |a|
    ensures (a + b)[..n] == a[..n] && (a + b)[n..] == a[n..] + b
  {
  }

  lemma ConsAssoc(x: string, xs: seq<string>, ys: seq<string>)
    ensures [x] + (xs + ys) == [x] + xs + ys
  {
  }

  /** A single word is its own only word. */
  lemma WordsOfWord(w: string)
    requires IsWord(w)
    ensures Words(w) == [w]
  {
    assert WordLength(w) == |w|;
    assert w[..|w|] == w && w[|w|..] == "";
  }

  /** Joining words with any non-empty whitespace separator and splitting
      them again gives the same words back. */
  lemma {:induction false} WordsOfJoin(words: seq<string>, sep: string)
    requires forall i :: 0 <= i < |words| ==> IsWord(words[i])
    requires |sep| > 0 && AllWhitespace(sep)
    ensures Words(JoinWith(words, sep)) == words
    decreases |words|
  {
    if |words| == 1 {
      WordsOfWord(words[0]);
    } else if |words| > 1 {
      WordsAroundGap(words[0], sep, JoinWith(words[1..], sep));
      WordsOfWord(words[0]);
      WordsOfJoin(words[1..], sep);
    }
  }

  /** Nothing but whitespace is lost: the words, put back together, are
      the input's non-whitespace characters in their original order. */
  lemma {:induction false} WordsKeepEveryLetter(s: string)
    ensures Concat(Words(s)) == Letters(s)
    decreases |s|
  {
    if |s| > 0 {
      if IsWhitespace(s[0]) {
        WordsKeepEveryLetter(s[1..]);
      } else {
        var n := WordLength(s);
        assert s == s[..n] + s[n..];
        WordsKeepEveryLetter(s[n..]);
        LettersOfAppend(s[..n], s[n..]);
        LettersOfWord(s[..n]);
        assert Words(s)[1..] == Words(s[n..]);
      }
    }
  }

  lemma {:induction false} LettersOfAppend(a: string, b: string)
    ensures Letters(a + b) == Letters(a) + Letters(b)
    decreases |a|
  {
    if |a| == 0 {
      assert a + b == b;
    } else {
      assert (a + b)[1..] == a[1..] + b;
      LettersOfAppend(a[1..], b);
    }
  }

  lemma {:induction false} LettersOfWord(w: string)
    requires NoWhitespace(w)
    ensures Letters(w) == w
    decreases |w|
  {
    if |w| > 0 {
      LettersOfWord(w[1..]);
    }
  }
}
