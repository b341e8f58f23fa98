/** The two normalizers of the pipeline: the flat tokenizer `preprocess`
    (archived_methods.py:49-52) and the parts of `lemmatize_text`
    (archived_methods.py:32-46) that do not call into NLTK: the two cleaning
    substitutions and the per-sentence filter-and-lemmatize comprehension.
    Sentence and word tokenization, the tagger and the lemmatizer are foreign;
    their outputs are parameters here. */
module Tokenize {
  import opened Chars
  import opened Seqs
  import opened Wrappers
  import opened PosTags

  // ---------------------------------------------------------------------
  // preprocess: re.findall(r'\b\w+\b', text.lower()) minus stop words

  /** The maximal runs of word characters, in order: what `\b\w+\b` finds. */
  function WordRuns(s: string): seq<string> {
    Filter(Split(s, IsNonWordChar), NonEmpty)
  }

  function Preprocess(text: string, stopWords: set<string>): seq<string> {
    Filter(WordRuns(Lower(text)), NotIn(stopWords))
  }

  predicate AllWordChars(t: string) {
    forall i :: 0 <= i < |t| ==> IsWordChar(t[i])
  }

  /** The runs are exactly the word characters of s, cut wherever a
      non-word character stands: put back the non-word characters between
      the (possibly empty) pieces and s is restored; dropping the empty
      pieces and concatenating leaves s's word characters.  Each run is
      non-empty and made of word characters only. */
  lemma WordRunsMaximal(s: string)
    ensures |Split(s, IsNonWordChar)| == |Filter(s, IsNonWordChar)| + 1
    ensures Interleave(Split(s, IsNonWordChar), Filter(s, IsNonWordChar)) == s
    ensures Flatten(WordRuns(s)) == Filter(s, IsWordChar)
    ensures forall k :: 0 <= k < |WordRuns(s)| ==> |WordRuns(s)[k]| > 0 && AllWordChars(WordRuns(s)[k])
  {
    var pieces := Split(s, IsNonWordChar);
    SplitInterleave(s, IsNonWordChar);
    assert Flatten(WordRuns(s)) == Filter(s, IsWordChar) by {
      FlattenNonEmpty(pieces);
      FlattenSplit(s, IsNonWordChar, IsWordChar);
    }
    var runs := WordRuns(s);
    forall k | 0 <= k < |runs| ensures |runs[k]| > 0 && AllWordChars(runs[k]) {
      FilterMember(pieces, NonEmpty, k);
      var j :| 0 <= j < |pieces| && pieces[j] == runs[k];
      SplitPiecesFree(s, IsNonWordChar);
      assert FreeOf(pieces[j], IsNonWordChar);
    }
  }

  /** The tokens of `preprocess`: each is a non-empty, lower-case run of word
      characters of the lowered text and not a stop word; every such run that
      is not a stop word is returned. */
  lemma PreprocessTokens(text: string, stopWords: set<string>)
    ensures forall k :: 0 <= k < |Preprocess(text, stopWords)| ==>
      var t := Preprocess(text, stopWords)[k];
      |t| > 0 && AllWordChars(t) && t !in stopWords && t in WordRuns(Lower(text)) &&
      forall i :: 0 <= i < |t| ==> !IsAsciiUpper(t[i])
    ensures forall k :: 0 <= k < |WordRuns(Lower(text))| && WordRuns(Lower(text))[k] !in stopWords ==>
      WordRuns(Lower(text))[k] in Preprocess(text, stopWords)
  {
    var low := Lower(text);
    var runs := WordRuns(low);
    var toks := Preprocess(text, stopWords);
    WordRunsMaximal(low);
    forall k | 0 <= k < |toks|
      ensures var t := toks[k];
        |t| > 0 && AllWordChars(t) && t !in stopWords && t in runs &&
        forall i :: 0 <= i < |t| ==> !IsAsciiUpper(t[i])
    {
      FilterMember(runs, NotIn(stopWords), k);
      var t := toks[k];
      var j :| 0 <= j < |runs| && runs[j] == t;
      FilterMember(Split(low, IsNonWordChar), NonEmpty, j);
      forall i | 0 <= i < |t| ensures !IsAsciiUpper(t[i]) {
        LoweredPieces(low, text, t, i);
      }
    }
    forall k | 0 <= k < |runs| && runs[k] !in stopWords ensures runs[k] in toks {
      FilterKeeps(runs, NotIn(stopWords), runs[k]);
    }
  }

  /** A piece of a lowered string has no upper-case letter. */
  lemma LoweredPieces(low: string, text: string, t: string, i: nat)
    requires low == Lower(text)
    requires t in Split(low, IsNonWordChar) && i < |t|
    ensures !IsAsciiUpper(t[i])
  {
    LoweredSplit(text, Split(low, IsNonWordChar));
  }

  lemma LoweredSplit(text: string, pieces: seq<string>)
    requires pieces == Split(Lower(text), IsNonWordChar)
    ensures forall p, i :: p in pieces && 0 <= i < |p| ==> !IsAsciiUpper(p[i])
  {
    var low := Lower(text);
    forall i | 0 <= i < |low| ensures !IsAsciiUpper(low[i]) {
      ToLowerKeepsClass(text[i]);
    }
    SplitPiecesOf(low, IsNonWordChar, IsAsciiUpper);
  }

  // ---------------------------------------------------------------------
  // lemmatize_text cleaning: re.sub(r'[^\s]*@[^\s]', '', text), then
  // re.sub(r'[^\w\s]', '', text)

  /** Length of the leading run of non-whitespace characters. */
  function RunLength(s: string): (q: nat)
    ensures q <= |s|
    ensures forall i :: 0 <= i < q ==> !IsSpace(s[i])
    ensures q < |s| ==> IsSpace(s[q])
  {
    if s == [] || IsSpace(s[0]) then 0 else 1 + RunLength(s[1..])
  }

  /** The largest index below k holding an '@', if any. */
  function LastAtBelow(s: string, k: nat): (r: Option<nat>)
    requires k <= |s|
    ensures r.Some? ==> r.value < k && s[r.value] == '@' &&
                        forall i :: r.value < i < k ==> s[i] != '@'
    ensures r.None? ==> forall i :: 0 <= i < k ==> s[i] != '@'
  {
    if k == 0 then None
    else if s[k - 1] == '@' then Some(k - 1)
    else LastAtBelow(s, k - 1)
  }

  /** The match of `[^\s]*@[^\s]` anchored at the start of s, as a length.
      The greedy `[^\s]*` first takes the whole leading run and then gives
      characters back until an '@' followed by a non-space is next: the match
      ends one past the LAST '@' of the run that is not the run's final
      character. */
  function HandleMatch(s: string): (r: Option<nat>)
    ensures r.Some? ==> 2 <= r.value <= RunLength(s) && s[r.value - 2] == '@'
    ensures r.Some? ==> forall i :: r.value - 2 < i < RunLength(s) - 1 ==> s[i] != '@'
    ensures r.None? <==> forall i :: 0 <= i < RunLength(s) - 1 ==> s[i] != '@'
  {
    var q := RunLength(s);
    if q == 0 then None
    else match LastAtBelow(s, q - 1)
      case None => None
      case Some(k) => Some(k + 2)
  }

  /** `re.sub(r'[^\s]*@[^\s]', '', s)`: scan left to right; where the pattern
      matches, drop the match and continue after it, otherwise keep one
      character.  The pattern cannot match the empty string. */
  function RemoveHandles(s: string): string
    decreases |s|
  {
    if s == [] then []
    else match HandleMatch(s)
      case Some(m) => RemoveHandles(s[m..])
      case None => [s[0]] + RemoveHandles(s[1..])
  }

  /** `re.sub(r'[^\w\s]', '', s)`: only word characters and whitespace
      remain. */
  function StripPunctuation(s: string): (r: string)
    ensures forall i :: 0 <= i < |r| ==> IsWordOrSpace(r[i])
  {
    Filter(s, IsWordOrSpace)
  }

  /** ... and all of them remain: the word characters in their order, and
      the whitespace characters in theirs. */
  lemma StripPunctuationKeeps(s: string)
    ensures Filter(StripPunctuation(s), IsWordChar) == Filter(s, IsWordChar)
    ensures Filter(StripPunctuation(s), IsSpace) == Filter(s, IsSpace)
  {
    FilterFilter(s, IsWordOrSpace, IsWordChar);
    FilterFilter(s, IsWordOrSpace, IsSpace);
  }

  /** The substitution works character by character: stripping a
      concatenation strips each part ... */
  lemma StripPunctuationConcat(a: string, b: string)
    ensures StripPunctuation(a + b) == StripPunctuation(a) + StripPunctuation(b)
  {
    FilterConcat(a, b, IsWordOrSpace);
  }

  /** ... and a single character is kept exactly when it is a word character
      or whitespace. */
  lemma StripPunctuationChar(c: char)
    ensures StripPunctuation([c]) == if IsWordOrSpace(c) then [c] else []
  {
    FilterSingleton(c, IsWordOrSpace);
  }

  /** The text `lemmatize_text` hands to the sentence tokenizer. */
  function CleanForLemmatizer(text: string): (r: string) {
    StripPunctuation(RemoveHandles(Lower(text)))
  }

  /** A whitespace character is never part of a match, so it is kept. */
  lemma RemoveHandlesAtSpace(s: string)
    requires |s| > 0 && IsSpace(s[0])
    ensures RemoveHandles(s) == [s[0]] + RemoveHandles(s[1..])
  {
  }

  /** Removing handles deletes only non-whitespace characters: the
      whitespace of the text survives, in order. */
  lemma {:induction false} RemoveHandlesKeepsSpace(s: string)
    ensures Filter(RemoveHandles(s), IsSpace) == Filter(s, IsSpace)
    decreases |s|
  {
    if s != [] {
      match HandleMatch(s)
      case Some(m) =>
        assert RemoveHandles(s) == RemoveHandles(s[m..]);
        RemoveHandlesKeepsSpace(s[m..]);
        FilterSplitAt(s, m, IsSpace);
        assert Filter(s[..m], IsSpace) == [] by {
          assert forall i :: 0 <= i < m ==> !IsSpace(s[..m][i]);
          FilterNone(s[..m], IsSpace);
        }
      case None =>
        assert RemoveHandles(s) == [s[0]] + RemoveHandles(s[1..]);
        RemoveHandlesKeepsSpace(s[1..]);
        FilterSplitAt(s, 1, IsSpace);
        assert s[..1] == [s[0]];
        FilterConcat([s[0]], RemoveHandles(s[1..]), IsSpace);
    }
  }

  /** After the substitution no handle is left: every remaining '@' is
      followed by whitespace or ends the text. */
  lemma {:induction false} RemoveHandlesComplete(s: string)
    ensures var r := RemoveHandles(s);
      forall i :: 0 <= i < |r| - 1 && r[i] == '@' ==> IsSpace(r[i + 1])
    decreases |s|
  {
    if s != [] {
      match HandleMatch(s)
      case Some(m) =>
        assert RemoveHandles(s) == RemoveHandles(s[m..]);
        RemoveHandlesComplete(s[m..]);
      case None =>
        var rest := RemoveHandles(s[1..]);
        var r := RemoveHandles(s);
        RemoveHandlesComplete(s[1..]);
        assert r == [s[0]] + rest;
        if s[0] == '@' && |rest| > 0 {
          var q := RunLength(s);
          assert q >= 1;
          assert q == 1;
          assert |s| > 1;
          RemoveHandlesAtSpace(s[1..]);
        }
        forall i | 0 <= i < |r| - 1 && r[i] == '@' ensures IsSpace(r[i + 1]) {
          if i > 0 {
            assert r[i] == rest[i - 1] && r[i + 1] == rest[i];
          }
        }
    }
  }

  /** A suffix of the leading run is the leading run of the suffix. */
  lemma {:induction false} RunLengthSuffix(s: string, m: nat)
    requires m <= RunLength(s)
    ensures RunLength(s[m..]) == RunLength(s) - m
    decreases m
  {
    if m == 0 {
      assert s[0..] == s;
    } else {
      RunLengthSuffix(s[1..], m - 1);
      assert s[1..][m - 1..] == s[m..];
    }
  }

  /** A leading run with no '@' before its final character is kept whole. */
  lemma {:induction false} RemoveHandlesPlainRun(t: string)
    requires forall i :: 0 <= i < RunLength(t) - 1 ==> t[i] != '@'
    ensures RemoveHandles(t) == t[..RunLength(t)] + RemoveHandles(t[RunLength(t)..])
    decreases |t|
  {
    var q := RunLength(t);
    if q == 0 {
      assert t[..0] == [] && t[0..] == t;
    } else {
      assert HandleMatch(t).None?;
      assert RemoveHandles(t) == [t[0]] + RemoveHandles(t[1..]);
      var u := t[1..];
      assert RunLength(u) == q - 1;
      assert forall i :: 0 <= i < RunLength(u) - 1 ==> u[i] == t[i + 1];
      RemoveHandlesPlainRun(u);
      assert u[q - 1..] == t[q..];
      assert [t[0]] + u[..q - 1] == t[..q];
    }
  }

  /** Run by run: a leading run of non-whitespace loses its handle match
      (from the start of the run to one past its last '@' that is not the
      run's final character) and keeps the rest; a run without such an '@'
      is kept whole.  With `RemoveHandlesAtSpace` this determines the
      substitution on every text. */
  lemma RemoveHandlesRun(s: string)
    requires RunLength(s) > 0
    ensures RemoveHandles(s) ==
      (match HandleMatch(s) case None => s[..RunLength(s)] case Some(m) => s[m..RunLength(s)]) +
      RemoveHandles(s[RunLength(s)..])
  {
    match HandleMatch(s)
    case None =>
      RemoveHandlesPlainRun(s);
    case Some(m) =>
      RemoveHandlesMatchedRun(s, m);
  }

  lemma RemoveHandlesMatchedRun(s: string, m: nat)
    requires HandleMatch(s) == Some(m)
    ensures m <= RunLength(s)
    ensures RemoveHandles(s) == s[m..RunLength(s)] + RemoveHandles(s[RunLength(s)..])
  {
    assert s != [] && RemoveHandles(s) == RemoveHandles(s[m..]);
    RemoveHandlesAfterMatch(s, m);
  }

  /** After the match, the rest of the run holds no '@' before its final
      character, so it is kept whole. */
  lemma RemoveHandlesAfterMatch(s: string, m: nat)
    requires 2 <= m <= RunLength(s)
    requires forall i :: m - 2 < i < RunLength(s) - 1 ==> s[i] != '@'
    ensures RemoveHandles(s[m..]) == s[m..RunLength(s)] + RemoveHandles(s[RunLength(s)..])
  {
    var q := RunLength(s);
    var t := s[m..];
    RunLengthSuffix(s, m);
    var r: int := RunLength(t);
    assert r == q - m;
    forall i | 0 <= i < r - 1 ensures t[i] != '@' {
      assert t[i] == s[m + i];
    }
    RemoveHandlesPlainRun(t);
    assert t[..r] == s[m..q] && t[r..] == s[q..];
  }

  lemma ExampleHandleRemoved()
    ensures RemoveHandles("a@b c") == " c"
  {
    var s := "a@b c";
    assert RunLength(s) == 3;
    assert HandleMatch(s) == Some(3);
    RemoveHandlesRun(s);
    assert s[3..3] == [] && s[3..] == " c";
    RemoveHandlesAtSpace(" c");
    RemoveHandlesNoAt("c");
  }

  /** Text free of '@' is left as it is. */
  lemma {:induction false} RemoveHandlesNoAt(s: string)
    requires forall i :: 0 <= i < |s| ==> s[i] != '@'
    ensures RemoveHandles(s) == s
    decreases |s|
  {
    if s != [] {
      var q := RunLength(s);
      if q > 0 {
        assert LastAtBelow(s, q - 1).None?;
      }
      RemoveHandlesNoAt(s[1..]);
      assert s == [s[0]] + s[1..];
    }
  }

  /** Stripping after handle removal leaves only word characters and
      whitespace, and the whitespace of the original text. */
  lemma CleanForLemmatizerShape(text: string)
    ensures forall i :: 0 <= i < |CleanForLemmatizer(text)| ==> IsWordOrSpace(CleanForLemmatizer(text)[i])
    ensures Filter(CleanForLemmatizer(text), IsSpace) == Filter(Lower(text), IsSpace)
  {
    var h := RemoveHandles(Lower(text));
    RemoveHandlesKeepsSpace(Lower(text));
    FilterFilter(h, IsWordOrSpace, IsSpace);
  }

  /** Lower-case text made only of word characters and whitespace passes
      the cleaning unchanged.  The underscore is such a character:
      `"a_b c"` stays `"a_b c"`. */
  lemma CleanKeepsPlainText(text: string)
    requires forall i :: 0 <= i < |text| ==> IsWordOrSpace(text[i]) && !IsAsciiUpper(text[i])
    ensures CleanForLemmatizer(text) == text
  {
    assert Lower(text) == text;
    RemoveHandlesNoAt(text);
    FilterAll(text, IsWordOrSpace);
  }

  lemma ExampleUnderscoreKept()
    ensures CleanForLemmatizer("a_b c") == "a_b c"
  {
    CleanKeepsPlainText("a_b c");
  }

  // ---------------------------------------------------------------------
  // lemmatize_text, line 43: drop stop words and two contraction fragments,
  // lemmatize the rest with the category of their tag

  /** A tagged word survives when it is neither a stop word nor one of the
      fragments "'s" and "'re". */
  function KeepTagged(stopWords: set<string>): ((string, string)) -> bool {
    (wt: (string, string)) => wt.0 !in stopWords && wt.0 != "'s" && wt.0 != "'re"
  }

  /** The lemmas of one sentence's surviving words, in order.  `lemmatize`
      stands for WordNetLemmatizer.lemmatize; the tagger guarantees
      non-empty tags. */
  function LemmatizeSentence(tagged: seq<(string, string)>, stopWords: set<string>,
                             lemmatize: (string, Pos) -> string): (r: seq<string>)
    requires forall k :: 0 <= k < |tagged| ==> |tagged[k].1| > 0
    ensures |r| == |Filter(tagged, KeepTagged(stopWords))|
    ensures forall k :: 0 <= k < |r| ==>
      var wt := Filter(tagged, KeepTagged(stopWords))[k];
      |wt.1| > 0 && r[k] == lemmatize(wt.0, WordnetPos(wt.1))
    decreases |tagged|
  {
    if tagged == [] then []
    else
      var wt := Last(tagged);
      LemmatizeSentence(DropLast(tagged), stopWords, lemmatize) +
      (if KeepTagged(stopWords)(wt) then [lemmatize(wt.0, WordnetPos(wt.1))] else [])
  }

  /** The lemma lists of the sentences, one per sentence. */
  function SentenceLemmas(sentences: seq<seq<(string, string)>>, stopWords: set<string>,
                          lemmatize: (string, Pos) -> string): (r: seq<seq<string>>)
    requires forall j, k :: 0 <= j < |sentences| && 0 <= k < |sentences[j]| ==> |sentences[j][k].1| > 0
    ensures |r| == |sentences|
    ensures forall j :: 0 <= j < |sentences| ==> r[j] == LemmatizeSentence(sentences[j], stopWords, lemmatize)
  {
    seq(|sentences|, j requires 0 <= j < |sentences| => LemmatizeSentence(sentences[j], stopWords, lemmatize))
  }

  /** The strings `lemmatize_text` returns: `' '.join(lemmatized_words)` for
      each sentence (archived_methods.py:44). */
  function LemmatizedSentences(sentences: seq<seq<(string, string)>>, stopWords: set<string>,
                               lemmatize: (string, Pos) -> string): (r: seq<string>)
    requires forall j, k :: 0 <= j < |sentences| && 0 <= k < |sentences[j]| ==> |sentences[j][k].1| > 0
    ensures |r| == |sentences|
  {
    var lemmas := SentenceLemmas(sentences, stopWords, lemmatize);
    seq(|lemmas|, j requires 0 <= j < |lemmas| => Join(lemmas[j], ' '))
  }

  /** `' '.join` of those strings (archived_methods.py:116). */
  function LemmatizedText(sentences: seq<seq<(string, string)>>, stopWords: set<string>,
                          lemmatize: (string, Pos) -> string): string
    requires forall j, k :: 0 <= j < |sentences| && 0 <= k < |sentences[j]| ==> |sentences[j][k].1| > 0
  {
    Join(LemmatizedSentences(sentences, stopWords, lemmatize), ' ')
  }

  /** When every sentence keeps a lemma, the lemmatized text is all the
      lemmas of the text, in sentence order, separated by single spaces; the
      sentence boundaries leave no trace. */
  lemma LemmatizedTextWords(sentences: seq<seq<(string, string)>>, stopWords: set<string>,
                            lemmatize: (string, Pos) -> string)
    requires forall j, k :: 0 <= j < |sentences| && 0 <= k < |sentences[j]| ==> |sentences[j][k].1| > 0
    requires forall j :: 0 <= j < |sentences| ==> LemmatizeSentence(sentences[j], stopWords, lemmatize) != []
    ensures LemmatizedText(sentences, stopWords, lemmatize) ==
            Join(Flatten(SentenceLemmas(sentences, stopWords, lemmatize)), ' ')
  {
    JoinJoin(SentenceLemmas(sentences, stopWords, lemmatize), LemmatizedSentences(sentences, stopWords, lemmatize), ' ');
  }
}
