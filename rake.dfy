/** RAKE keyword scoring (`rake_keywords`): the text is cut into sentences,
    each sentence into punctuation-free chunks, the chunks into phrases at
    stop words, and every chunk ("word") is scored by the total length of the
    phrases containing it divided by their number. */
module Rake {
  import opened Chars
  import opened Seqs
  import opened Ranking

  // ---------------------------------------------------------------------
  // Sentences: `re.split(r'(?<!\w\.\w.)(?<![A-Z][a-z]\.)(?<=\.|\?)\s', text)`

  /** Position i is a split point: a whitespace character right after `.` or
      `?`, unless the four characters before it look like `a.b.` (word
      character, dot, word character, any character but a newline) or the
      three before it look like `Mr.` (capital, small letter, dot). */
  predicate IsSentenceBreak(s: string, i: nat)
    requires i < |s|
  {
    && IsSpace(s[i])
    && i >= 1 && (s[i - 1] == '.' || s[i - 1] == '?')
    && !(i >= 4 && IsWordChar(s[i - 4]) && s[i - 3] == '.' && IsWordChar(s[i - 2]) && s[i - 1] != '\n')
    && !(i >= 3 && IsAsciiUpper(s[i - 3]) && IsAsciiLower(s[i - 2]) && s[i - 1] == '.')
  }

  /** The sentences of the first n characters.  The break test only looks
      backwards, so the sentences of a prefix are those the whole text gives
      up to that point. */
  function SentencesUpTo(s: string, n: nat): (r: seq<string>)
    requires n <= |s|
    ensures |r| > 0
  {
    if n == 0 then [[]]
    else
      var init := SentencesUpTo(s, n - 1);
      if IsSentenceBreak(s, n - 1) then init + [[]]
      else DropLast(init) + [Last(init) + [s[n - 1]]]
  }

  /** The whitespace characters the split removes, in order. */
  function BreaksUpTo(s: string, n: nat): (r: string)
    requires n <= |s|
  {
    if n == 0 then []
    else BreaksUpTo(s, n - 1) + (if IsSentenceBreak(s, n - 1) then [s[n - 1]] else [])
  }

  function Sentences(s: string): seq<string> {
    SentencesUpTo(s, |s|)
  }

  /** Every removed character is whitespace. */
  lemma {:induction false} BreaksAreSpaces(s: string, n: nat)
    requires n <= |s|
    ensures forall k :: 0 <= k < |BreaksUpTo(s, n)| ==> IsSpace(BreaksUpTo(s, n)[k])
  {
    if n > 0 {
      BreaksAreSpaces(s, n - 1);
    }
  }

  /** Putting the removed whitespace back between the sentences gives the
      text: the split loses nothing else and reorders nothing. */
  lemma {:induction false} SentencesRebuild(s: string, n: nat)
    requires n <= |s|
    ensures |SentencesUpTo(s, n)| == |BreaksUpTo(s, n)| + 1
    ensures Interleave(SentencesUpTo(s, n), BreaksUpTo(s, n)) == s[..n]
  {
    if n > 0 {
      SentencesRebuild(s, n - 1);
      var P, B := SentencesUpTo(s, n - 1), BreaksUpTo(s, n - 1);
      PrefixSnoc(s, n - 1);
      if IsSentenceBreak(s, n - 1) {
        assert DropLast(P + [[]]) == P && Last(P + [[]]) == [];
        assert DropLast(B + [s[n - 1]]) == B && Last(B + [s[n - 1]]) == s[n - 1];
      } else {
        assert BreaksUpTo(s, n) == B;
        InterleaveExtendLast(P, B, s[n - 1]);
      }
    }
  }

  /** The sentence being built ends with the last character read, unless
      that character was a split point. */
  lemma {:induction false} SentenceEndsWithLast(s: string, n: nat)
    requires 0 < n <= |s| && !IsSentenceBreak(s, n - 1)
    ensures |Last(SentencesUpTo(s, n))| > 0 && Last(Last(SentencesUpTo(s, n))) == s[n - 1]
  {
  }

  /** Every sentence but the last is non-empty and ends with `.` or `?`. */
  lemma {:induction false} SentencesTerminated(s: string, n: nat)
    requires n <= |s|
    ensures forall k :: 0 <= k < |SentencesUpTo(s, n)| - 1 ==>
      |SentencesUpTo(s, n)[k]| > 0 && Last(SentencesUpTo(s, n)[k]) in ".?"
  {
    if n > 0 {
      SentencesTerminated(s, n - 1);
      var P := SentencesUpTo(s, n - 1);
      if IsSentenceBreak(s, n - 1) {
        assert n - 1 >= 1 && !IsSentenceBreak(s, n - 2) by {
          assert !IsSpace(s[n - 2]);
        }
        SentenceEndsWithLast(s, n - 1);
      } else {
        assert forall k :: 0 <= k < |P| - 1 ==> SentencesUpTo(s, n)[k] == P[k];
      }
    }
  }

  /** The split points among the first n characters, in increasing order:
      exactly the positions below n that `IsSentenceBreak` accepts. */
  function BreakPositions(s: string, n: nat): (m: seq<nat>)
    requires n <= |s|
    ensures forall j :: 0 <= j < |m| ==> m[j] < n && IsSentenceBreak(s, m[j])
    ensures forall j, k :: 0 <= j < k < |m| ==> m[j] < m[k]
    ensures forall i :: 0 <= i < n && IsSentenceBreak(s, i) ==> i in m
  {
    if n == 0 then []
    else BreakPositions(s, n - 1) + (if IsSentenceBreak(s, n - 1) then [n - 1] else [])
  }

  /** Sentence k of a text with split points m starts after the (k-1)-th
      split point and ends before the k-th, or at the end n. */
  function SentenceStart(m: seq<nat>, k: nat): nat
    requires k <= |m|
  {
    if k == 0 then 0 else m[k - 1] + 1
  }

  function SentenceEnd(m: seq<nat>, k: nat, n: nat): nat
    requires k <= |m|
  {
    if k == |m| then n else m[k]
  }

  /** `P` is the text of the first n characters cut at the split points m:
      one piece more than split points, piece k being the text strictly
      between split points k-1 and k (or the start, or n). */
  ghost predicate CutAt(s: string, n: nat, m: seq<nat>, P: seq<string>)
    requires n <= |s|
  {
    && |P| == |m| + 1
    && (forall k :: 0 <= k <= |m| ==>
          && SentenceStart(m, k) <= SentenceEnd(m, k, n) <= n
          && P[k] == s[SentenceStart(m, k)..SentenceEnd(m, k, n)])
  }

  /** Split points below n, in increasing order. */
  ghost predicate PointsBelow(m: seq<nat>, n: nat) {
    && (forall j :: 0 <= j < |m| ==> m[j] < n)
    && (forall j, k :: 0 <= j < k < |m| ==> m[j] < m[k])
  }

  /** A split point at n-1 closes the last piece and opens an empty one. */
  lemma CutAtBreak(s: string, n: nat, m: seq<nat>, P: seq<string>)
    requires 0 < n <= |s| && PointsBelow(m, n - 1) && CutAt(s, n - 1, m, P)
    ensures CutAt(s, n, m + [n - 1], P + [[]])
  {
    var m', P' := m + [n - 1], P + [[]];
    forall k | 0 <= k <= |m'|
      ensures SentenceStart(m', k) <= SentenceEnd(m', k, n) <= n
      ensures P'[k] == s[SentenceStart(m', k)..SentenceEnd(m', k, n)]
    {
      if k <= |m| {
        assert SentenceStart(m', k) == SentenceStart(m, k);
        assert SentenceEnd(m', k, n) == SentenceEnd(m, k, n - 1);
      }
    }
  }

  /** Any other character extends the last piece. */
  lemma CutAtExtend(s: string, n: nat, m: seq<nat>, P: seq<string>)
    requires 0 < n <= |s| && PointsBelow(m, n - 1) && CutAt(s, n - 1, m, P)
    ensures CutAt(s, n, m, DropLast(P) + [Last(P) + [s[n - 1]]])
  {
    var P' := DropLast(P) + [Last(P) + [s[n - 1]]];
    forall k | 0 <= k <= |m|
      ensures SentenceStart(m, k) <= SentenceEnd(m, k, n) <= n
      ensures P'[k] == s[SentenceStart(m, k)..SentenceEnd(m, k, n)]
    {
      if k == |m| {
        var a := SentenceStart(m, k);
        assert P'[k] == P[k] + [s[n - 1]];
        assert s[a..n] == s[a..n - 1] + [s[n - 1]];
      }
    }
  }

  /** Where the split cuts: the sentences are the text cut exactly at the
      positions `IsSentenceBreak` accepts, abbreviation guards included. */
  lemma {:induction false} SentencesCut(s: string, n: nat)
    requires n <= |s|
    ensures CutAt(s, n, BreakPositions(s, n), SentencesUpTo(s, n))
  {
    if n > 0 {
      SentencesCut(s, n - 1);
      var m, P := BreakPositions(s, n - 1), SentencesUpTo(s, n - 1);
      assert PointsBelow(m, n - 1);
      if IsSentenceBreak(s, n - 1) {
        assert BreakPositions(s, n) == m + [n - 1];
        assert SentencesUpTo(s, n) == P + [[]];
        CutAtBreak(s, n, m, P);
      } else {
        assert BreakPositions(s, n) == m;
        assert SentencesUpTo(s, n) == DropLast(P) + [Last(P) + [s[n - 1]]];
        CutAtExtend(s, n, m, P);
      }
    }
  }

  /** The k-th removed character is the one at the k-th split point. */
  lemma {:induction false} BreaksAtPoints(s: string, n: nat)
    requires n <= |s|
    ensures |BreaksUpTo(s, n)| == |BreakPositions(s, n)|
    ensures forall j :: 0 <= j < |BreakPositions(s, n)| ==> BreaksUpTo(s, n)[j] == s[BreakPositions(s, n)[j]]
  {
    if n > 0 {
      BreaksAtPoints(s, n - 1);
    }
  }

  /** Without a split point the text is one sentence. */
  lemma {:induction false} Unbroken(s: string, n: nat)
    requires n <= |s|
    requires forall i :: 0 <= i < n ==> !IsSentenceBreak(s, i)
    ensures SentencesUpTo(s, n) == [s[..n]]
  {
    if n > 0 {
      Unbroken(s, n - 1);
      var init := SentencesUpTo(s, n - 1);
      assert DropLast(init) == [] && Last(init) == s[..n - 1];
      PrefixSnoc(s, n - 1);
    }
  }

  /** The capital-small-dot guard: "Mr. X" is one sentence. */
  lemma ExampleTitleNotSplit()
    ensures Sentences("Mr. X") == ["Mr. X"]
  {
    var s := "Mr. X";
    assert !IsSentenceBreak(s, 3);
    assert forall i :: 0 <= i < |s| ==> !IsSentenceBreak(s, i);
    Unbroken(s, |s|);
    assert s[..|s|] == s;
  }

  /** The word-dot-word-dot guard: "e.g. x" is one sentence. */
  lemma ExampleAbbreviationNotSplit()
    ensures Sentences("e.g. x") == ["e.g. x"]
  {
    var s := "e.g. x";
    assert !IsSentenceBreak(s, 4);
    assert forall i :: 0 <= i < |s| ==> !IsSentenceBreak(s, i);
    Unbroken(s, |s|);
    assert s[..|s|] == s;
  }

  /** A full stop and a space after a one-character word do split. */
  lemma SplitAfterStop(x: char, y: char)
    requires !IsSpace(x) && !IsSpace(y)
    ensures Sentences([x, '.', ' ', y]) == [[x, '.'], [y]]
  {
    var s := [x, '.', ' ', y];
    var e: seq<string> := [[]];
    assert SentencesUpTo(s, 0) == e;
    assert !IsSentenceBreak(s, 0);
    assert DropLast(e) == [] && Last(e) + [s[0]] == [x];
    assert SentencesUpTo(s, 1) == [[x]];
    var p1: seq<string> := [[x]];
    assert !IsSentenceBreak(s, 1);
    assert DropLast(p1) == [] && Last(p1) + [s[1]] == [x, '.'];
    assert SentencesUpTo(s, 2) == [[x, '.']];
    assert IsSentenceBreak(s, 2);
    assert SentencesUpTo(s, 3) == [[x, '.'], []];
    var p3: seq<string> := [[x, '.'], []];
    assert !IsSentenceBreak(s, 3);
    assert DropLast(p3) == [[x, '.']] && Last(p3) + [s[3]] == [y];
  }

  lemma ExampleSplitAfterStop()
    ensures Sentences("a. b") == ["a.", "b"]
  {
    assert "a. b" == ['a', '.', ' ', 'b'];
    SplitAfterStop('a', 'b');
  }

  /** A text without `.` and `?` is a single sentence. */
  lemma {:induction false} OneSentence(s: string, n: nat)
    requires n <= |s|
    requires forall i :: 0 <= i < |s| ==> s[i] != '.' && s[i] != '?'
    ensures SentencesUpTo(s, n) == [s[..n]]
  {
    if n > 0 {
      OneSentence(s, n - 1);
      var init := SentencesUpTo(s, n - 1);
      assert !IsSentenceBreak(s, n - 1) by {
        if n >= 2 {
          assert s[n - 2] != '.' && s[n - 2] != '?';
        }
      }
      assert SentencesUpTo(s, n) == DropLast(init) + [Last(init) + [s[n - 1]]];
      assert DropLast(init) == [] && Last(init) == s[..n - 1];
      PrefixSnoc(s, n - 1);
    }
  }

  // ---------------------------------------------------------------------
  // Chunks: `[word.lower() for word in re.split(punctuations, sentence) if word]`

  predicate NotRakePunct(c: char) { !IsRakePunct(c) }

  /** `str.lower()` on each piece. */
  function LowerEach(ps: seq<string>): (r: seq<string>)
    ensures |r| == |ps|
    ensures forall k :: 0 <= k < |ps| ==> r[k] == Lower(ps[k])
  {
    seq(|ps|, k requires 0 <= k < |ps| => Lower(ps[k]))
  }

  function Chunks(sentence: string): seq<string> {
    LowerEach(Filter(Split(sentence, IsRakePunct), NonEmpty))
  }

  lemma {:induction false} LowerFlatten(ps: seq<string>)
    ensures Flatten(LowerEach(ps)) == Lower(Flatten(ps))
    decreases |ps|
  {
    if ps != [] {
      LowerFlatten(DropLast(ps));
      assert DropLast(LowerEach(ps)) == LowerEach(DropLast(ps));
      assert Lower(Flatten(ps)) == Lower(Flatten(DropLast(ps))) + Lower(Last(ps));
    }
  }

  /** A chunk is a non-empty, lower-case stretch free of punctuation (it may
      contain spaces), and the chunks together are the sentence, lowered,
      with its punctuation removed. */
  lemma ChunksShape(sentence: string)
    ensures forall k :: 0 <= k < |Chunks(sentence)| ==>
      var c := Chunks(sentence)[k];
      |c| > 0 && forall i :: 0 <= i < |c| ==> !IsRakePunct(c[i]) && !IsAsciiUpper(c[i])
    ensures Flatten(Chunks(sentence)) == Lower(Filter(sentence, NotRakePunct))
  {
    var pieces := Split(sentence, IsRakePunct);
    var kept := Filter(pieces, NonEmpty);
    SplitPiecesFree(sentence, IsRakePunct);
    forall k | 0 <= k < |kept| ensures |kept[k]| > 0 && FreeOf(kept[k], IsRakePunct) {
      FilterMember(pieces, NonEmpty, k);
    }
    forall k, i | 0 <= k < |kept| && 0 <= i < |kept[k]|
      ensures !IsRakePunct(Lower(kept[k])[i]) && !IsAsciiUpper(Lower(kept[k])[i])
    {
      ToLowerKeepsClass(kept[k][i]);
    }
    LowerFlatten(kept);
    FlattenNonEmpty(pieces);
    FlattenSplit(sentence, IsRakePunct, NotRakePunct);
  }

  /** Where the chunks break: a punctuation-free stretch is one chunk, the
      stretch lowered, or none when it is empty ... */
  lemma ChunksFree(p: string)
    requires FreeOf(p, IsRakePunct)
    ensures Chunks(p) == if |p| > 0 then [Lower(p)] else []
  {
    SplitFree(p, IsRakePunct);
    FilterSingleton(p, NonEmpty);
  }

  /** ... and every punctuation character ends the chunks before it and
      starts the chunks after it. */
  lemma ChunksConcat(a: string, c: char, b: string)
    requires IsRakePunct(c)
    ensures Chunks(a + [c] + b) == Chunks(a) + Chunks(b)
  {
    var A, B := Split(a, IsRakePunct), Split(b, IsRakePunct);
    assert Split(a + [c] + b, IsRakePunct) == A + B by {
      SplitAt(a, c, b, IsRakePunct);
    }
    var fa, fb := Filter(A, NonEmpty), Filter(B, NonEmpty);
    assert Filter(A + B, NonEmpty) == fa + fb by {
      FilterConcat(A, B, NonEmpty);
    }
    LowerEachConcat(fa, fb);
  }

  lemma ExampleCommaChunks()
    ensures Chunks("ab,cd") == ["ab", "cd"]
  {
    var a, b := "ab", "cd";
    assert Lower(a) == a && Lower(b) == b;
    ChunksFree(a);
    ChunksFree(b);
    ChunksConcat(a, ',', b);
    assert "ab,cd" == a + [','] + b;
  }

  lemma LowerEachConcat(x: seq<string>, y: seq<string>)
    ensures LowerEach(x + y) == LowerEach(x) + LowerEach(y)
  {
    var l, r := LowerEach(x + y), LowerEach(x) + LowerEach(y);
    forall k | 0 <= k < |l| ensures l[k] == r[k] {
      if k < |x| {
        assert (x + y)[k] == x[k];
      } else {
        assert (x + y)[k] == y[k - |x|];
      }
    }
  }

  /** A sentence whose only punctuation is its final full stop is ONE
      chunk: the class has no whitespace, so the chunk is the whole clause,
      spaces included. */
  lemma OneChunk(clause: string)
    requires |clause| > 0 && FreeOf(clause, IsRakePunct)
    ensures Chunks(clause + ".") == [Lower(clause)]
  {
    SplitFree(clause, IsRakePunct);
    SplitSnoc(clause, '.', IsRakePunct);
    var pieces := [clause, []];
    assert clause + "." == clause + ['.'];
    assert Split(clause + ".", IsRakePunct) == pieces;
    assert Filter(pieces, NonEmpty) == [clause] by {
      assert DropLast(pieces) == [clause];
      FilterSingleton(clause, NonEmpty);
    }
    assert LowerEach([clause]) == [Lower(clause)];
  }

  /** So "The cat sat." is the single chunk "the cat sat": a stop word
      inside a chunk does not cut it. */
  lemma ExampleIsOneChunk()
    ensures Chunks("The cat sat.") == ["the cat sat"]
  {
    var clause := "The cat sat";
    assert "The cat sat." == clause + ".";
    OneChunk(clause);
    assert Lower(clause) == "the cat sat";
  }

  /** An underscore is RAKE punctuation: two punctuation-free clauses
      joined by `_` are two chunks. */
  lemma UnderscoreChunks(a: string, b: string)
    requires |a| > 0 && FreeOf(a, IsRakePunct)
    requires |b| > 0 && FreeOf(b, IsRakePunct)
    ensures Chunks(a + "_" + b) == [Lower(a), Lower(b)]
  {
    var pieces := [a, b];
    assert a + "_" + b == a + ['_'] + b;
    SplitAround(a, '_', b, IsRakePunct);
    assert Filter(pieces, NonEmpty) == pieces by {
      assert DropLast(pieces) == [a] && Last(pieces) == b;
      FilterSingleton(a, NonEmpty);
    }
    assert LowerEach(pieces) == [Lower(a), Lower(b)];
  }

  lemma ExampleUnderscoreChunks()
    ensures Chunks("a_b c") == ["a", "b c"]
  {
    assert "a_b c" == "a" + "_" + "b c";
    UnderscoreChunks("a", "b c");
    assert Lower("a") == "a" && Lower("b c") == "b c";
  }

  // ---------------------------------------------------------------------
  // Phrases: a stop-word chunk closes the current phrase

  /** The phrases of one sentence: the runs of non-stop chunks between stop
      words, empty runs dropped. */
  function SentencePhrases(words: seq<string>, stop: set<string>): seq<seq<string>> {
    Filter(Split(words, In(stop)), NonEmpty)
  }

  /** The phrases of consecutive sentences, in order. */
  function PhrasesOf(sentences: seq<string>, stop: set<string>): seq<seq<string>> {
    if sentences == [] then []
    else PhrasesOf(DropLast(sentences), stop) + SentencePhrases(Chunks(Last(sentences)), stop)
  }

  function RakePhrases(text: string, stop: set<string>): seq<seq<string>> {
    PhrasesOf(Sentences(text), stop)
  }

  /** Every phrase of a sentence is non-empty and free of stop words, and
      the phrases together are the sentence's non-stop chunks in order. */
  lemma SentencePhrasesShape(words: seq<string>, stop: set<string>)
    ensures forall k :: 0 <= k < |SentencePhrases(words, stop)| ==>
      var p := SentencePhrases(words, stop)[k];
      |p| > 0 && forall i :: 0 <= i < |p| ==> p[i] !in stop && p[i] in words
    ensures Flatten(SentencePhrases(words, stop)) == Filter(words, NotIn(stop))
  {
    var pieces := Split(words, In(stop));
    var kept := Filter(pieces, NonEmpty);
    SplitPiecesFree(words, In(stop));
    SplitPiecesOf(words, In(stop), NotIn(set w | w in words));
    forall k | 0 <= k < |kept|
      ensures |kept[k]| > 0 && forall i :: 0 <= i < |kept[k]| ==> kept[k][i] !in stop && kept[k][i] in words
    {
      FilterMember(pieces, NonEmpty, k);
    }
    FlattenNonEmpty(pieces);
    FlattenSplit(words, In(stop), NotIn(stop));
  }

  /** The phrases of a sequence of sentences are those of the sentences in
      turn: the phrase list of the last sentence follows the others, so no
      phrase spans two sentences. */
  lemma PhrasesOfSnoc(sentences: seq<string>, s: string, stop: set<string>)
    ensures PhrasesOf(sentences + [s], stop) == PhrasesOf(sentences, stop) + SentencePhrases(Chunks(s), stop)
  {
    assert DropLast(sentences + [s]) == sentences;
  }

  /** Concatenating all phrases gives the non-stop chunks of all sentences,
      in order. */
  function NonStopChunks(sentences: seq<string>, stop: set<string>): seq<string> {
    if sentences == [] then []
    else NonStopChunks(DropLast(sentences), stop) + Filter(Chunks(Last(sentences)), NotIn(stop))
  }

  lemma {:induction false} PhrasesCover(sentences: seq<string>, stop: set<string>)
    ensures Flatten(PhrasesOf(sentences, stop)) == NonStopChunks(sentences, stop)
    decreases |sentences|
  {
    if sentences != [] {
      PhrasesCover(DropLast(sentences), stop);
      var ps := SentencePhrases(Chunks(Last(sentences)), stop);
      FlattenConcat(PhrasesOf(DropLast(sentences), stop), ps);
      SentencePhrasesShape(Chunks(Last(sentences)), stop);
    }
  }

  /** No phrase spans two sentences: each is a phrase of one sentence's
      chunks. */
  lemma {:induction false} PhrasesWithinSentences(sentences: seq<string>, stop: set<string>)
    ensures forall k :: 0 <= k < |PhrasesOf(sentences, stop)| ==>
      exists j :: 0 <= j < |sentences| && PhrasesOf(sentences, stop)[k] in SentencePhrases(Chunks(sentences[j]), stop)
    decreases |sentences|
  {
    if sentences != [] {
      PhrasesWithinSentences(DropLast(sentences), stop);
      var before := PhrasesOf(DropLast(sentences), stop);
      var ps := SentencePhrases(Chunks(Last(sentences)), stop);
      var all := PhrasesOf(sentences, stop);
      assert all == before + ps;
      forall k | 0 <= k < |all|
        ensures exists j :: 0 <= j < |sentences| && all[k] in SentencePhrases(Chunks(sentences[j]), stop)
      {
        if k < |before| {
          var j :| 0 <= j < |DropLast(sentences)| && before[k] in SentencePhrases(Chunks(DropLast(sentences)[j]), stop);
          assert all[k] == before[k] && sentences[j] == DropLast(sentences)[j];
        } else {
          assert all[k] == ps[k - |before|];
          assert sentences[|sentences| - 1] == Last(sentences);
        }
      }
    } else {
      assert PhrasesOf(sentences, stop) == [];
    }
  }

  /** Every word of a phrase is lower case. */
  lemma PhrasesLower(sentences: seq<string>, stop: set<string>)
    ensures forall k, i, c ::
              0 <= k < |PhrasesOf(sentences, stop)| && 0 <= i < |PhrasesOf(sentences, stop)[k]| &&
              0 <= c < |PhrasesOf(sentences, stop)[k][i]| ==>
              !IsAsciiUpper(PhrasesOf(sentences, stop)[k][i][c])
  {
    var all := PhrasesOf(sentences, stop);
    PhrasesWithinSentences(sentences, stop);
    forall k, i, c | 0 <= k < |all| && 0 <= i < |all[k]| && 0 <= c < |all[k][i]|
      ensures !IsAsciiUpper(all[k][i][c])
    {
      var j :| 0 <= j < |sentences| && all[k] in SentencePhrases(Chunks(sentences[j]), stop);
      var chunks := Chunks(sentences[j]);
      SentencePhrasesShape(chunks, stop);
      ChunksShape(sentences[j]);
      var m :| 0 <= m < |SentencePhrases(chunks, stop)| && SentencePhrases(chunks, stop)[m] == all[k];
      var q :| 0 <= q < |chunks| && chunks[q] == all[k][i];
    }
  }

  /** Every phrase is non-empty, and every word of it is a non-stop chunk:
      non-empty and free of punctuation. */
  lemma {:induction false} PhrasesShape(sentences: seq<string>, stop: set<string>)
    ensures forall k :: 0 <= k < |PhrasesOf(sentences, stop)| ==>
      var p := PhrasesOf(sentences, stop)[k];
      |p| > 0 && forall i :: 0 <= i < |p| ==> p[i] !in stop && |p[i]| > 0 && FreeOf(p[i], IsRakePunct)
    decreases |sentences|
  {
    if sentences != [] {
      PhrasesShape(DropLast(sentences), stop);
      var chunks := Chunks(Last(sentences));
      SentencePhrasesShape(chunks, stop);
      ChunksShape(Last(sentences));
      var before := PhrasesOf(DropLast(sentences), stop);
      var ps := SentencePhrases(chunks, stop);
      forall k | |before| <= k < |before| + |ps|
        ensures var p := PhrasesOf(sentences, stop)[k];
          |p| > 0 && forall i :: 0 <= i < |p| ==> p[i] !in stop && |p[i]| > 0 && FreeOf(p[i], IsRakePunct)
      {
        var p := ps[k - |before|];
        forall i | 0 <= i < |p| ensures |p[i]| > 0 && FreeOf(p[i], IsRakePunct) {
          var j :| 0 <= j < |chunks| && chunks[j] == p[i];
        }
      }
    }
  }

  /** The phrase being built after the first i chunks of a sentence. */
  function Pending(words: seq<string>, i: nat, stop: set<string>): seq<string>
    requires i <= |words|
  {
    Last(Split(words[..i], In(stop)))
  }

  /** The phrases closed by the first i chunks of a sentence. */
  function Closed(words: seq<string>, i: nat, stop: set<string>): seq<seq<string>>
    requires i <= |words|
  {
    Filter(DropLast(Split(words[..i], In(stop))), NonEmpty)
  }

  /** Reading one more chunk: a stop word closes the phrase being built
      (which is kept if non-empty) and starts an empty one; any other chunk
      extends it. */
  lemma PhraseStep(words: seq<string>, i: nat, stop: set<string>)
    requires i < |words|
    ensures words[i] in stop ==>
      && Pending(words, i + 1, stop) == []
      && Closed(words, i + 1, stop) ==
         Closed(words, i, stop) + (if Pending(words, i, stop) != [] then [Pending(words, i, stop)] else [])
    ensures words[i] !in stop ==>
      && Pending(words, i + 1, stop) == Pending(words, i, stop) + [words[i]]
      && Closed(words, i + 1, stop) == Closed(words, i, stop)
  {
    var P := Split(words[..i], In(stop));
    assert words[..i + 1] == words[..i] + [words[i]];
    SplitSnoc(words[..i], words[i], In(stop));
    if words[i] in stop {
      assert DropLast(P + [[]]) == P;
      PhraseClose(P);
    }
  }

  /** Closing the last piece: it is kept if non-empty. */
  lemma PhraseClose(P: seq<seq<string>>)
    requires |P| > 0
    ensures Filter(P, NonEmpty) == Filter(DropLast(P), NonEmpty) + (if Last(P) != [] then [Last(P)] else [])
  {
  }

  /** After the last chunk the pending phrase is closed too. */
  lemma PhrasesEnd(words: seq<string>, stop: set<string>)
    ensures SentencePhrases(words, stop) ==
      Closed(words, |words|, stop) + (if Pending(words, |words|, stop) != [] then [Pending(words, |words|, stop)] else [])
  {
    assert words[..|words|] == words;
    PhraseClose(Split(words, In(stop)));
  }

  /** The body of the loop over sentences: the chunks of one sentence are
      read in turn, and each phrase they close is appended to `phrases`. */
  method AppendSentencePhrases(phrases0: seq<seq<string>>, words: seq<string>, stop: set<string>)
    returns (phrases: seq<seq<string>>)
    ensures phrases == phrases0 + SentencePhrases(words, stop)
  {
    phrases := phrases0;
    var phrase: seq<string> := [];
    for i := 0 to |words|
      invariant phrase == Pending(words, i, stop)
      invariant phrases == phrases0 + Closed(words, i, stop)
    {
      var word := words[i];
      PhraseStep(words, i, stop);
      if word in stop {
        if phrase != [] {
          phrases := phrases + [phrase];
        }
        phrase := [];
      } else {
        phrase := phrase + [word];
      }
    }
    PhrasesEnd(words, stop);
    if phrase != [] {
      phrases := phrases + [phrase];
    }
  }

  /** The loop over sentences that builds `phrases`. */
  method BuildPhrases(text: string, stop: set<string>) returns (phrases: seq<seq<string>>)
    ensures phrases == RakePhrases(text, stop)
  {
    var sentences := Sentences(text);
    phrases := [];
    for s := 0 to |sentences|
      invariant phrases == PhrasesOf(sentences[..s], stop)
    {
      phrases := AppendSentencePhrases(phrases, Chunks(sentences[s]), stop);
      PrefixSnoc(sentences, s);
      PhrasesOfSnoc(sentences[..s], sentences[s], stop);
    }
    assert sentences[..|sentences|] == sentences;
  }

  // ---------------------------------------------------------------------
  // Word statistics over the phrase list

  /** The distinct words of a phrase: `set(phrase)`. */
  function WordsOf(p: seq<string>): set<string> {
    set w | w in p
  }

  /** Every word occurring in some phrase. */
  function WordSet(ps: seq<seq<string>>): set<string> {
    if ps == [] then {} else WordSet(DropLast(ps)) + WordsOf(Last(ps))
  }

  /** RAKE frequency: the number of phrases containing w. */
  function PhraseFreq(ps: seq<seq<string>>, w: string): nat {
    if ps == [] then 0 else PhraseFreq(DropLast(ps), w) + (if w in Last(ps) then 1 else 0)
  }

  /** RAKE degree: the total length of the phrases containing w, repeated
      words counted in the length. */
  function PhraseDegree(ps: seq<seq<string>>, w: string): nat {
    if ps == [] then 0 else PhraseDegree(DropLast(ps), w) + (if w in Last(ps) then |Last(ps)| else 0)
  }

  /** The index of the first phrase containing w (|ps| if none does). */
  function FirstPhrase(ps: seq<seq<string>>, w: string): (k: nat)
    ensures k <= |ps|
    ensures k < |ps| <==> w in WordSet(ps)
    ensures k < |ps| ==> w in ps[k] && w !in WordSet(ps[..k])
  {
    if ps == [] then 0
    else if w in WordSet(DropLast(ps)) then
      var k := FirstPhrase(DropLast(ps), w);
      assert DropLast(ps)[..k] == ps[..k];
      k
    else if w in Last(ps) then
      assert ps[..|ps| - 1] == DropLast(ps);
      |ps| - 1
    else |ps|
  }

  /** A word is counted by some phrase exactly when it occurs in one. */
  lemma {:induction false} FreqPositive(ps: seq<seq<string>>, w: string)
    ensures PhraseFreq(ps, w) > 0 <==> w in WordSet(ps)
    decreases |ps|
  {
    if ps != [] {
      FreqPositive(DropLast(ps), w);
    }
  }

  /** Each phrase containing w is at least one word long, so the degree is
      at least the frequency. */
  lemma {:induction false} FreqAtMostDegree(ps: seq<seq<string>>, w: string)
    ensures PhraseFreq(ps, w) <= PhraseDegree(ps, w)
    decreases |ps|
  {
    if ps != [] {
      FreqAtMostDegree(DropLast(ps), w);
    }
  }

  lemma InWordSet(ps: seq<seq<string>>, j: nat, w: string)
    requires j < |ps| && w in ps[j]
    ensures w in WordSet(ps)
    decreases |ps|
  {
    if j < |ps| - 1 {
      InWordSet(DropLast(ps), j, w);
    }
  }

  /** The statistics of one more phrase. */
  lemma PhraseStatsSnoc(ps: seq<seq<string>>, k: nat, w: string)
    requires k < |ps|
    ensures WordSet(ps[..k + 1]) == WordSet(ps[..k]) + WordsOf(ps[k])
    ensures PhraseFreq(ps[..k + 1], w) == PhraseFreq(ps[..k], w) + (if w in ps[k] then 1 else 0)
    ensures PhraseDegree(ps[..k + 1], w) == PhraseDegree(ps[..k], w) + (if w in ps[k] then |ps[k]| else 0)
  {
    PrefixSnoc(ps, k);
    assert DropLast(ps[..k + 1]) == ps[..k];
  }

  /** A word first met in phrase k has its first phrase at k; a word met
      before has its first phrase before k. */
  lemma {:induction false} FirstPhraseAt(ps: seq<seq<string>>, k: nat, w: string)
    requires k < |ps|
    ensures w in WordSet(ps[..k]) ==> FirstPhrase(ps, w) < k
    ensures w !in WordSet(ps[..k]) && w in ps[k] ==> FirstPhrase(ps, w) == k
    decreases |ps|
  {
    if k == |ps| - 1 {
      assert ps[..k] == DropLast(ps);
    } else {
      var init := DropLast(ps);
      FirstPhraseAt(init, k, w);
      assert init[..k] == ps[..k] && init[k] == ps[k];
      if w in WordSet(ps[..k]) || w in ps[k] {
        assert w in WordSet(init) by {
          if w in ps[k] {
            InWordSet(init, k, w);
          } else {
            FirstPhraseAt(init, k, w);
          }
        }
      }
    }
  }

  /** `counter[w] += d` on a Counter: a missing entry reads as 0. */
  function Bump(m: map<string, nat>, w: string, d: nat): (r: map<string, nat>)
    ensures w in r && r[w] == (if w in m then m[w] else 0) + d
    ensures forall v :: v != w ==> (v in r <==> v in m) && (v in m ==> r[v] == m[v])
  {
    m[w := (if w in m then m[w] else 0) + d]
  }

  /** The counters after the phrases `ps` and, of the next phrase (of
      length `len` and distinct words `unique`), the words already visited:
      those of `unique` no longer in `rest`. */
  ghost predicate CountsInv(ps: seq<seq<string>>, len: nat, unique: set<string>, rest: set<string>,
                            freq: map<string, nat>, degree: map<string, nat>) {
    && (forall w :: w in freq <==> w in WordSet(ps) || (w in unique && w !in rest))
    && (forall w :: w in degree <==> w in freq)
    && (forall w :: w in freq ==> freq[w] == PhraseFreq(ps, w) + (if w in unique && w !in rest then 1 else 0))
    && (forall w :: w in degree ==> degree[w] == PhraseDegree(ps, w) + (if w in unique && w !in rest then len else 0))
  }

  /** `order`, the key order of the counters (which gain their keys
      together), lists each key once, by first phrase. */
  ghost predicate OrderInv(phrases: seq<seq<string>>, k: nat, freq: map<string, nat>, order: seq<string>) {
    && NoDuplicates(order)
    && (forall w :: w in order <==> w in freq)
    && (forall i :: 0 <= i < |order| ==> FirstPhrase(phrases, order[i]) <= k)
    && (forall i, j :: 0 <= i < j < |order| ==> FirstPhrase(phrases, order[i]) <= FirstPhrase(phrases, order[j]))
  }

  /** Counting one more distinct word w of the next phrase. */
  lemma CountsStep(ps: seq<seq<string>>, len: nat, unique: set<string>, rest: set<string>, w: string,
                   freq: map<string, nat>, degree: map<string, nat>)
    requires w in unique && w in rest
    requires CountsInv(ps, len, unique, rest, freq, degree)
    ensures CountsInv(ps, len, unique, rest - {w}, Bump(freq, w, 1), Bump(degree, w, len))
  {
    FreqPositive(ps, w);
    var freq', degree' := Bump(freq, w, 1), Bump(degree, w, len);
    assert freq'[w] == PhraseFreq(ps, w) + 1;
    assert degree'[w] == PhraseDegree(ps, w) + len by {
      PhraseDegreeZero(ps, w);
    }
  }

  lemma {:induction false} PhraseDegreeZero(ps: seq<seq<string>>, w: string)
    ensures w !in WordSet(ps) ==> PhraseDegree(ps, w) == 0
    decreases |ps|
  {
    if ps != [] {
      PhraseDegreeZero(DropLast(ps), w);
    }
  }

  lemma OrderStep(phrases: seq<seq<string>>, k: nat, w: string,
                  freq: map<string, nat>, order: seq<string>)
    requires k < |phrases| && w in phrases[k]
    requires w !in freq ==> w !in WordSet(phrases[..k])
    requires OrderInv(phrases, k, freq, order)
    ensures OrderInv(phrases, k, Bump(freq, w, 1), if w in freq then order else order + [w])
  {
    if w !in freq {
      FirstPhraseAt(phrases, k, w);
      assert FirstPhrase(phrases, w) == k;
      var order' := order + [w];
      assert forall i :: 0 <= i < |order| ==> order'[i] == order[i];
      assert order'[|order|] == w;
    }
  }

  /** Phrase k is opened: nothing of it is counted yet. */
  lemma CountsOpen(ps: seq<seq<string>>, len: nat, unique: set<string>, freq: map<string, nat>, degree: map<string, nat>)
    requires CountsInv(ps, 0, {}, {}, freq, degree)
    ensures CountsInv(ps, len, unique, unique, freq, degree)
  {
  }

  /** Phrase k is finished: it moves from `done` into the prefix. */
  lemma CountsNext(phrases: seq<seq<string>>, k: nat, freq: map<string, nat>, degree: map<string, nat>)
    requires k < |phrases|
    requires CountsInv(phrases[..k], |phrases[k]|, WordsOf(phrases[k]), {}, freq, degree)
    ensures CountsInv(phrases[..k + 1], 0, {}, {}, freq, degree)
  {
    forall w ensures
      && WordSet(phrases[..k + 1]) == WordSet(phrases[..k]) + WordsOf(phrases[k])
      && PhraseFreq(phrases[..k + 1], w) == PhraseFreq(phrases[..k], w) + (if w in phrases[k] then 1 else 0)
      && PhraseDegree(phrases[..k + 1], w) == PhraseDegree(phrases[..k], w) + (if w in phrases[k] then |phrases[k]| else 0)
    {
      PhraseStatsSnoc(phrases, k, w);
    }
  }

  /** The counters after the last phrase are the statistics of the list. */
  lemma ScoreDone(phrases: seq<seq<string>>, freq: map<string, nat>, degree: map<string, nat>, order: seq<string>)
    requires CountsInv(phrases[..|phrases|], 0, {}, {}, freq, degree)
    requires OrderInv(phrases, |phrases|, freq, order)
    ensures Scored(phrases, freq, degree, order)
  {
    assert phrases[..|phrases|] == phrases;
    forall w | w in freq ensures freq[w] > 0 {
      FreqPositive(phrases, w);
    }
  }

  /** The counters before the first phrase. */
  lemma ScoreStart(phrases: seq<seq<string>>)
    ensures CountsInv(phrases[..0], 0, {}, {}, map[], map[])
    ensures OrderInv(phrases, 0, map[], [])
  {
    assert phrases[..0] == [];
  }

  /** One step of `for word in unique_words`: some word w not yet visited
      (the model leaves open which) gets `word_freq[word] += 1` and
      `word_degree[word] += len(phrase)`, and joins `order` when new. */
  method CountWord(phrases: seq<seq<string>>, k: nat, unique: set<string>, rest0: set<string>,
                   freq0: map<string, nat>, degree0: map<string, nat>, order0: seq<string>)
    returns (rest: set<string>, freq: map<string, nat>, degree: map<string, nat>, order: seq<string>)
    requires k < |phrases| && unique == WordsOf(phrases[k]) && rest0 != {} && rest0 <= unique
    requires CountsInv(phrases[..k], |phrases[k]|, unique, rest0, freq0, degree0)
    requires OrderInv(phrases, k, freq0, order0)
    ensures rest < rest0
    ensures CountsInv(phrases[..k], |phrases[k]|, unique, rest, freq, degree)
    ensures OrderInv(phrases, k, freq, order)
  {
    var w :| w in rest0;
    CountsStep(phrases[..k], |phrases[k]|, unique, rest0, w, freq0, degree0);
    OrderStep(phrases, k, w, freq0, order0);
    order := if w in freq0 then order0 else order0 + [w];
    freq := Bump(freq0, w, 1);
    degree := Bump(degree0, w, |phrases[k]|);
    rest := rest0 - {w};
  }

  /** The body of the loop over phrases: each distinct word of phrase k, in
      an order the model leaves open (Python's set order), is counted. */
  method CountPhrase(phrases: seq<seq<string>>, k: nat,
                     freq0: map<string, nat>, degree0: map<string, nat>, order0: seq<string>)
    returns (freq: map<string, nat>, degree: map<string, nat>, order: seq<string>)
    requires k < |phrases|
    requires CountsInv(phrases[..k], |phrases[k]|, WordsOf(phrases[k]), WordsOf(phrases[k]), freq0, degree0)
    requires OrderInv(phrases, k, freq0, order0)
    ensures CountsInv(phrases[..k], |phrases[k]|, WordsOf(phrases[k]), {}, freq, degree)
    ensures OrderInv(phrases, k, freq, order)
  {
    freq, degree, order := freq0, degree0, order0;
    var unique := WordsOf(phrases[k]);
    var rest := unique;
    while rest != {}
      invariant rest <= unique
      invariant CountsInv(phrases[..k], |phrases[k]|, unique, rest, freq, degree)
      invariant OrderInv(phrases, k, freq, order)
      decreases rest
    {
      rest, freq, degree, order := CountWord(phrases, k, unique, rest, freq, degree, order);
    }
  }

  /** The Counter loops over all phrases.  `order` is the counters' key
      order: words by the phrase they first occur in. */
  method ScoreWords(phrases: seq<seq<string>>)
    returns (freq: map<string, nat>, degree: map<string, nat>, order: seq<string>)
    ensures Scored(phrases, freq, degree, order)
  {
    freq, degree, order := map[], map[], [];
    ScoreStart(phrases);
    for k := 0 to |phrases|
      invariant CountsInv(phrases[..k], 0, {}, {}, freq, degree)
      invariant OrderInv(phrases, k, freq, order)
    {
      CountsOpen(phrases[..k], |phrases[k]|, WordsOf(phrases[k]), freq, degree);
      freq, degree, order := CountPhrase(phrases, k, freq, degree, order);
      CountsNext(phrases, k, freq, degree);
    }
    ScoreDone(phrases, freq, degree, order);
  }

  // ---------------------------------------------------------------------
  // Scores and ranking

  /** RAKE score: degree over frequency. */
  function Score(ps: seq<seq<string>>, w: string): real
    requires w in WordSet(ps)
  {
    FreqPositive(ps, w);
    PhraseDegree(ps, w) as real / PhraseFreq(ps, w) as real
  }

  /** Every score lies between 1 and the word's degree. */
  lemma ScoreBounds(ps: seq<seq<string>>, w: string)
    requires w in WordSet(ps)
    ensures 1.0 <= Score(ps, w) <= PhraseDegree(ps, w) as real
  {
    FreqPositive(ps, w);
    FreqAtMostDegree(ps, w);
    var d, f := PhraseDegree(ps, w), PhraseFreq(ps, w);
    RealRatioSelf(d as real, f as real);
  }

  /** A score never exceeds the length of the longest phrase. */
  lemma ScoreAtMostLongest(ps: seq<seq<string>>, w: string, longest: nat)
    requires w in WordSet(ps)
    requires forall k :: 0 <= k < |ps| ==> |ps[k]| <= longest
    ensures Score(ps, w) <= longest as real
  {
    FreqPositive(ps, w);
    FreqAtMostDegree(ps, w);
    DegreeAtMostLongest(ps, w, longest);
    var d, f := PhraseDegree(ps, w), PhraseFreq(ps, w);
    RatioBounds(d, f, longest);
  }

  /** For 1 <= f <= d, the ratio d / f lies in [1, d]. */
  lemma RealRatioSelf(d: real, f: real)
    requires 1.0 <= f <= d
    ensures 1.0 <= d / f <= d
  {
  }

  /** For 0 < f <= d <= m * f, the ratio d / f lies in [1, m]. */
  lemma RatioBounds(d: nat, f: nat, m: nat)
    requires 0 < f <= d && d <= m * f
    ensures 1.0 <= d as real / f as real <= m as real
  {
    assert (m * f) as real == m as real * f as real;
    RealRatio(d as real, f as real, m as real);
  }

  lemma RealRatio(d: real, f: real, m: real)
    requires 0.0 < f <= d <= m * f
    ensures 1.0 <= d / f <= m
  {
  }

  lemma {:induction false} DegreeAtMostLongest(ps: seq<seq<string>>, w: string, longest: nat)
    requires forall k :: 0 <= k < |ps| ==> |ps[k]| <= longest
    ensures PhraseDegree(ps, w) <= longest * PhraseFreq(ps, w)
    decreases |ps|
  {
    if ps != [] {
      DegreeAtMostLongest(DropLast(ps), w, longest);
    }
  }

  /** A text with a single phrase scores every one of its words by the
      phrase length. */
  lemma SinglePhraseScore(p: seq<string>, w: string)
    requires w in p
    ensures w in WordSet([p]) && Score([p], w) == |p| as real
  {
    assert DropLast([p]) == [] && Last([p]) == p;
    assert w in WordsOf(p);
    assert PhraseFreq([p], w) == 1;
    assert PhraseDegree([p], w) == |p|;
  }

  function ScoreOf(entry: (string, real)): real { entry.1 }

  /** `scores.items()`: each counted word with degree / frequency, in the
      counters' key order. */
  function ScoreItems(order: seq<string>, freq: map<string, nat>, degree: map<string, nat>): (items: seq<(string, real)>)
    requires forall i :: 0 <= i < |order| ==> order[i] in freq && order[i] in degree && freq[order[i]] > 0
    ensures |items| == |order|
    ensures forall i :: 0 <= i < |order| ==>
      items[i] == (order[i], degree[order[i]] as real / freq[order[i]] as real)
  {
    seq(|order|, i requires 0 <= i < |order| => (order[i], degree[order[i]] as real / freq[order[i]] as real))
  }

  /** What `ScoreWords` promises: the Counters hold every word of the
      phrases and nothing else, with its phrase frequency (positive) and
      degree, and their key order lists each word once, by first phrase. */
  ghost predicate Scored(phrases: seq<seq<string>>, freq: map<string, nat>, degree: map<string, nat>, order: seq<string>) {
    && (forall w :: w in freq <==> w in WordSet(phrases))
    && (forall w :: w in degree <==> w in WordSet(phrases))
    && (forall w :: w in freq ==> freq[w] == PhraseFreq(phrases, w) && freq[w] > 0)
    && (forall w :: w in degree ==> degree[w] == PhraseDegree(phrases, w))
    && NoDuplicates(order)
    && (forall w :: w in order <==> w in WordSet(phrases))
    && (forall i, j :: 0 <= i < j < |order| ==> FirstPhrase(phrases, order[i]) <= FirstPhrase(phrases, order[j]))
  }

  /** `sorted(scores.items(), key=lambda x: x[1], reverse=True)`. */
  function RankScores(order: seq<string>, freq: map<string, nat>, degree: map<string, nat>): seq<(string, real)>
    requires forall i :: 0 <= i < |order| ==> order[i] in freq && order[i] in degree && freq[order[i]] > 0
  {
    SortDesc(ScoreItems(order, freq, degree), ScoreOf)
  }

  /** Each ranked entry is a word of the phrases with its score. */
  lemma RankedScore(phrases: seq<seq<string>>, freq: map<string, nat>, degree: map<string, nat>, order: seq<string>, k: nat)
    requires Scored(phrases, freq, degree, order)
    requires k < |order|
    ensures RankScores(order, freq, degree)[k].0 in WordSet(phrases)
    ensures RankScores(order, freq, degree)[k].1 == Score(phrases, RankScores(order, freq, degree)[k].0)
  {
    var items := ScoreItems(order, freq, degree);
    FromInput(items, ScoreOf, k);
  }

  /** Each word is ranked once. */
  lemma RankedDistinct(phrases: seq<seq<string>>, freq: map<string, nat>, degree: map<string, nat>, order: seq<string>, a: nat, b: nat)
    requires Scored(phrases, freq, degree, order)
    requires a < b < |order|
    ensures RankScores(order, freq, degree)[a].0 != RankScores(order, freq, degree)[b].0
  {
    var items := ScoreItems(order, freq, degree);
    var rank := (e: (string, real)) => IndexOf(order, e.0);
    forall i, j | 0 <= i < j < |items| ensures rank(items[i]) < rank(items[j]) {
      assert items[i].0 == order[i] && items[j].0 == order[j];
      IndexOfAt(order, i);
      IndexOfAt(order, j);
    }
    SortDescRanks(items, ScoreOf, rank, a, b);
  }

  /** Equal scores keep the counters' key order, i.e. first-phrase order. */
  lemma RankedTies(phrases: seq<seq<string>>, freq: map<string, nat>, degree: map<string, nat>, order: seq<string>, a: nat, b: nat)
    requires Scored(phrases, freq, degree, order)
    requires a < b < |order|
    ensures RankScores(order, freq, degree)[a].1 == RankScores(order, freq, degree)[b].1 ==>
      FirstPhrase(phrases, RankScores(order, freq, degree)[a].0) <= FirstPhrase(phrases, RankScores(order, freq, degree)[b].0)
  {
    var items := ScoreItems(order, freq, degree);
    var before := (x: (string, real), y: (string, real)) => FirstPhrase(phrases, x.0) <= FirstPhrase(phrases, y.0);
    forall i, j | 0 <= i < j < |items| ensures before(items[i], items[j]) {
      assert items[i].0 == order[i] && items[j].0 == order[j];
    }
    SortDescTies(items, ScoreOf, before, a, b);
  }

  /** Every word of the phrases is ranked. */
  lemma RankedComplete(phrases: seq<seq<string>>, freq: map<string, nat>, degree: map<string, nat>, order: seq<string>, w: string)
    requires Scored(phrases, freq, degree, order)
    requires w in WordSet(phrases)
    ensures exists k :: 0 <= k < |order| && RankScores(order, freq, degree)[k].0 == w
  {
    var items := ScoreItems(order, freq, degree);
    assert w in order;
    var j :| 0 <= j < |order| && order[j] == w;
    ToOutput(items, ScoreOf, j);
    var k :| 0 <= k < |items| && SortDesc(items, ScoreOf)[k] == items[j];
    assert RankScores(order, freq, degree)[k].0 == w;
  }

  /** The ranking RAKE returns for `phrases`: every word of the phrases once,
      with its score, by descending score, equal scores in first-phrase
      order. */
  ghost predicate WordRanking(phrases: seq<seq<string>>, ranked: seq<(string, real)>) {
    && (forall k :: 0 <= k < |ranked| ==>
          ranked[k].0 in WordSet(phrases) && ranked[k].1 == Score(phrases, ranked[k].0))
    && (forall w :: w in WordSet(phrases) ==> exists k :: 0 <= k < |ranked| && ranked[k].0 == w)
    && (forall a, b :: 0 <= a < b < |ranked| ==> ranked[a].0 != ranked[b].0)
    && SortedDesc(ranked, ScoreOf)
    && (forall a, b :: 0 <= a < b < |ranked| && ranked[a].1 == ranked[b].1 ==>
          FirstPhrase(phrases, ranked[a].0) <= FirstPhrase(phrases, ranked[b].0))
  }

  /** Scores every word of the phrases and ranks the words by descending
      score, equal scores in first-phrase order. */
  method RankWords(phrases: seq<seq<string>>) returns (ranked: seq<(string, real)>)
    ensures WordRanking(phrases, ranked)
  {
    var freq, degree, order := ScoreWords(phrases);
    ranked := SortDesc(ScoreItems(order, freq, degree), ScoreOf);
    RankedProperties(phrases, freq, degree, order, ranked);
  }

  /** The ranking of the scored words, entry by entry and pair by pair. */
  lemma RankedProperties(phrases: seq<seq<string>>, freq: map<string, nat>, degree: map<string, nat>, order: seq<string>,
                         ranked: seq<(string, real)>)
    requires Scored(phrases, freq, degree, order)
    requires ranked == RankScores(order, freq, degree)
    ensures WordRanking(phrases, ranked)
  {
    forall k | 0 <= k < |ranked|
      ensures ranked[k].0 in WordSet(phrases) && ranked[k].1 == Score(phrases, ranked[k].0)
    {
      RankedScore(phrases, freq, degree, order, k);
    }
    forall w | w in WordSet(phrases) ensures exists k :: 0 <= k < |ranked| && ranked[k].0 == w {
      RankedComplete(phrases, freq, degree, order, w);
    }
    forall a, b | 0 <= a < b < |ranked|
      ensures ranked[a].0 != ranked[b].0
      ensures ranked[a].1 == ranked[b].1 ==> FirstPhrase(phrases, ranked[a].0) <= FirstPhrase(phrases, ranked[b].0)
    {
      RankedDistinct(phrases, freq, degree, order, a, b);
      RankedTies(phrases, freq, degree, order, a, b);
    }
  }

  /** `rake_keywords(text, stopwords)`. */
  method RakeKeywords(text: string, stop: set<string>) returns (ranked: seq<(string, real)>)
    ensures WordRanking(RakePhrases(text, stop), ranked)
  {
    var phrases := BuildPhrases(text, stop);
    ranked := RankWords(phrases);
  }
}
