# Text-analytics helpers of the article pipeline, in Dafny

This project models the deterministic core of `archived_methods.py`. That file
is a batch analysis of scraped news articles. For each article it does the
following:

- builds a `full_text` from the title, the subtitle(s) and the body segments;
- normalizes the text two ways: `preprocess` gives a flat token list, and
  `lemmatize_text` cleans the text and lemmatizes it sentence by sentence;
- picks the top five TF-IDF keywords, once from the raw text and once from the
  lemmatized text;
- counts bigrams and trigrams and reports the five most frequent of each;
- ranks words with RAKE, scoring each by degree over frequency.

The modules follow that structure:

- `Chars`: the ASCII character classes behind `\w`, `\s`, the RAKE
  punctuation class and `str.lower`.
- `Seqs`: the generic sequence operations the code relies on. These are
  filter, split at a separator class, join, interleave, take, distinct and
  count.
- `Ranking`: `sorted(..., reverse=True)` as a stable descending sort, with
  its stability theorems.
- `PosTags`: `get_wordnet_pos`.
- `Tokenize`: `preprocess`, and the two cleaning substitutions and the
  filter-and-lemmatize comprehension of `lemmatize_text`.
- `Ngrams`: `extract_ngrams`, the `defaultdict` tally loop as a method, and
  the top-five report.
- `Rake`: `rake_keywords`. The sentence split is a function. The phrase loop
  and the Counter loops are methods proved against specification functions
  (`RakePhrases`, `PhraseFreq`, `PhraseDegree`). The final sort is
  `Ranking.SortDesc`.
- `Article`: the `full_text` assembly.
- `Keywords`: the per-article top-N scan over ranked TF-IDF terms, and the
  lemmatized top-N slice.

Where the code iterates over a Python `set` (`for word in set(phrase)`), the
model picks each next element nondeterministically (`:|`). Every property is
therefore proved for every iteration order. A `dict`'s insertion order is kept
as an explicit sequence of keys next to the map.

The model follows the code as written, including three behaviours a reader
might not expect:

- A body segment made only of whitespace survives the punctuation test of
  `full_text`, because the substitution leaves the whitespace in place.
  `Article.ExampleFullText` shows a body `["D.", "  ", "!!"]` giving a full
  text that ends in three spaces.
- The RAKE punctuation class contains no whitespace. A RAKE "word" is
  therefore a whole punctuation-free chunk, spaces included:
  `"The cat sat."` is the single word `"the cat sat"`
  (`Rake.ExampleIsOneChunk`). Words are separated from each other only by
  punctuation, and phrases break only at chunks that are stop words.
- `'\\]'` in the Python string literal becomes `\]` in the pattern, an
  escaped bracket. The backslash itself is therefore not in the RAKE
  punctuation class.

The program calls RAKE on `lemmatized_text` (line 199). Line 35 keeps only
word characters and whitespace, so no `.` or `?` reaches the tokenizers.
The lemmatizer only maps words to their base forms, so RAKE's sentence
split sees a single sentence (`Rake.OneSentence`). The
underscore survives line 35, because `\w` matches it
(`Tokenize.ExampleUnderscoreKept`), and it is also in the RAKE punctuation
class. So the chunks of that sentence break exactly at its underscores:
`"a_b c"` gives the chunks `"a"` and `"b c"` (`Rake.UnderscoreChunks`,
`Rake.ExampleUnderscoreChunks`). An empty text gives no chunk at all. The
model covers `rake_keywords` for any input text.

## Model

| member | source | states |
|---|---|---|
| PosTags.WordnetPos | archived_methods.py:19-29 | The category is adjective, verb or adverb exactly when the tag's first character is `J`, `V` or `R`. It is noun for `N` and for every other first character. |
| PosTags.WordnetPosOnto | archived_methods.py:23-29 | Every one of the four categories is produced by some non-empty tag. |
| Chars.LowerIdempotent | archived_methods.py:33 | Lowering is idempotent: lowering a lowered text changes nothing, and a lowered text holds no upper-case letter. |
| Chars.ToLowerKeepsClass | archived_methods.py:33 | Lowering a character keeps its word-character, whitespace and RAKE-punctuation status and leaves no upper-case letter. |
| Tokenize.WordRunsMaximal | archived_methods.py:50 | The `\b\w+\b` matches are maximal runs. Splitting at non-word characters, with the separators interleaved back, rebuilds the text. The matches together are exactly the word characters of the text, and each match is a non-empty run of word characters. |
| Tokenize.PreprocessTokens | archived_methods.py:49-52 | Every token is a non-empty lower-case run of word characters that is not a stop word. Every non-stop-word run of the lowered text shows up as a token. |
| Tokenize.RunLength | archived_methods.py:34 | The leading run of non-whitespace characters stops at the first whitespace character or at the end. |
| Tokenize.HandleMatch | archived_methods.py:34 | The handle pattern matches at the start exactly when the leading non-whitespace run has an `@` that is not its last character. The greedy match then ends one character after the LAST such `@`, inside the run. |
| Tokenize.RemoveHandlesKeepsSpace | archived_methods.py:34 | Removing handles keeps every whitespace character of the text, in order. |
| Tokenize.RemoveHandlesComplete | archived_methods.py:34 | After the substitution, every remaining `@` is followed by whitespace or ends the text. |
| Tokenize.RemoveHandlesNoAt | archived_methods.py:34 | Text without an `@` is left unchanged. |
| Tokenize.RemoveHandlesRun | archived_methods.py:34 | Run by run, for a text starting with non-whitespace: the leading run loses its match, from the run's start to one past its last `@` that is not the run's final character. The rest of the run is kept. A run without such an `@` is kept whole, and the rest of the text is processed on its own. |
| Tokenize.RemoveHandlesAtSpace | archived_methods.py:34 | A leading whitespace character is kept, and the rest of the text is processed on its own. |
| Tokenize.ExampleHandleRemoved | archived_methods.py:34 | `"a@b c"` becomes `" c"`. |
| Tokenize.StripPunctuation | archived_methods.py:35 | Only word characters and whitespace remain. |
| Tokenize.StripPunctuationKeeps | archived_methods.py:35 | All the word characters of the input remain, in order, and so do all its whitespace characters. |
| Tokenize.StripPunctuationConcat | archived_methods.py:35 | The substitution works character by character: stripping a concatenation is the concatenation of the stripped parts. |
| Tokenize.StripPunctuationChar | archived_methods.py:35 | A single character is kept exactly when it is a word character or whitespace, and is otherwise removed. |
| Tokenize.CleanForLemmatizerShape | archived_methods.py:33-35 | The cleaned text holds only word characters and whitespace, and keeps all the whitespace of the lowered text in order. |
| Tokenize.CleanKeepsPlainText | archived_methods.py:33-35 | Lower-case text made only of word characters and whitespace is left unchanged by the cleaning. |
| Tokenize.ExampleUnderscoreKept | archived_methods.py:33-35 | `"a_b c"` is left unchanged: the underscore is a word character. |
| Tokenize.LemmatizeSentence | archived_methods.py:43 | There is one lemma per tagged word that is neither a stop word nor `'s` or `'re`. The k-th lemma is the lemmatizer applied to the k-th surviving word with its WordNet category. |
| Tokenize.LemmatizedTextWords | archived_methods.py:44 | Suppose every sentence keeps at least one lemma. Then joining the per-sentence strings (line 44) with single spaces (line 116) gives all the lemmas of the text, in sentence order, separated by single spaces. |
| Ngrams.Unigrams | archived_methods.py:55-61 | With n = 1 the n-grams are exactly the kept tokens, those holding a word character. |
| Ngrams.NgramsSplitBack | archived_methods.py:57-61 | For tokens without whitespace, splitting an n-gram at whitespace gives back exactly the n tokens it was built from. |
| Ngrams.NgramsOverlap | archived_methods.py:59-61 | Consecutive n-grams overlap: the last n-1 tokens of one are the first n-1 tokens of the next. |
| Ngrams.TallyStep | archived_methods.py:167-171 | One loop step keeps the tally invariant. Keys are the distinct n-grams in first-seen order, each count is the number of occurrences, and the counts sum to the number of n-grams seen. |
| Ngrams.Tally | archived_methods.py:165-171 | The dict's keys are the distinct n-grams in first-occurrence order. Each count is that n-gram's number of occurrences, and the counts sum to the number of n-grams. |
| Ngrams.RankedEntry | archived_methods.py:173 | Every sorted entry is an n-gram of the input paired with its true count. |
| Ngrams.RankedOrder | archived_methods.py:173 | Sorted entries are distinct. Entries with equal counts keep the order of first occurrence. |
| Ngrams.RankedComplete | archived_methods.py:173 | Every n-gram of the input appears in the sorted list. |
| Ngrams.ReportEntries | archived_methods.py:173-174 | The report has min(5, number of distinct n-grams) entries, in non-increasing count order, each with its true count. |
| Ngrams.ReportOrder | archived_methods.py:173-174 | Report entries are distinct, and ties appear in order of first occurrence. |
| Ngrams.ReportComplete | archived_methods.py:173-174 | An n-gram left out of the report means the report is full and the n-gram occurs no more often than the fifth entry. If it ties with the fifth entry, it was first seen after that entry. |
| Ngrams.TopNgrams | archived_methods.py:165-174 | The tally followed by the top five has the right size, true counts, descending order, distinct entries and first-occurrence ties. Every n-gram left out occurs at most as often as the last entry. One that ties with the last entry was first seen after it. |
| Rake.BreaksAreSpaces | archived_methods.py:67 | Every character the sentence split removes is whitespace. |
| Rake.SentencesRebuild | archived_methods.py:67 | There is one more sentence than there are split points. Interleaving the sentences with the removed separators rebuilds the text. |
| Rake.BreakPositions | archived_methods.py:67 | The split points, in increasing order, are exactly the positions the split pattern accepts: a whitespace after `.` or `?` that neither abbreviation guard rules out. |
| Rake.SentencesCut | archived_methods.py:67 | The sentences are the text cut exactly at the split points. There is one more sentence than split points, and sentence k is the text strictly between split points k-1 and k. |
| Rake.BreaksAtPoints | archived_methods.py:67 | The k-th removed character is the character at the k-th split point. |
| Rake.Unbroken | archived_methods.py:67 | A text without a split point is one sentence. |
| Rake.ExampleTitleNotSplit | archived_methods.py:67 | `"Mr. X"` is one sentence: the capital-small-dot guard holds. |
| Rake.ExampleAbbreviationNotSplit | archived_methods.py:67 | `"e.g. x"` is one sentence: the word-dot-word-dot guard holds. |
| Rake.SplitAfterStop | archived_methods.py:67 | A one-character word, a full stop, a space and another character split into two sentences, the space removed. |
| Rake.ExampleSplitAfterStop | archived_methods.py:67 | `"a. b"` is the two sentences `"a."` and `"b"`. |
| Rake.SentencesTerminated | archived_methods.py:67 | Every sentence but the last is non-empty and ends in `.` or `?`. |
| Rake.OneSentence | archived_methods.py:67 | A text without `.` and `?` is a single sentence, the text itself. |
| Rake.LowerFlatten | archived_methods.py:72 | Lowering each chunk and concatenating gives the same text as lowering the concatenation. |
| Rake.ChunksShape | archived_methods.py:66-72 | Chunks are non-empty, lower case and free of punctuation. Together they are the sentence, lowered, with its punctuation removed. |
| Rake.ChunksFree | archived_methods.py:66-72 | A punctuation-free stretch is one chunk, itself lowered, or no chunk when it is empty. |
| Rake.ChunksConcat | archived_methods.py:66-72 | A punctuation character splits the chunks: the chunks of `a + [c] + b` are the chunks of `a` followed by those of `b`. |
| Rake.ExampleCommaChunks | archived_methods.py:66-72 | `"ab,cd"` has the two chunks `"ab"` and `"cd"`. |
| Rake.OneChunk | archived_methods.py:66-72 | A clause without punctuation, followed by a full stop, is a single chunk: the lowered clause, spaces included. |
| Rake.ExampleIsOneChunk | archived_methods.py:66-72 | `"The cat sat."` has the one chunk `"the cat sat"`. |
| Rake.UnderscoreChunks | archived_methods.py:66-72 | Two non-empty punctuation-free clauses joined by `_` give two chunks, each lowered. |
| Rake.ExampleUnderscoreChunks | archived_methods.py:66-72 | `"a_b c"` has the two chunks `"a"` and `"b c"`. |
| Rake.SentencePhrasesShape | archived_methods.py:73-82 | A sentence's phrases are non-empty runs of non-stop-word chunks of that sentence. Together they are its non-stop-word chunks in order. |
| Rake.PhrasesCover | archived_methods.py:70-82 | All phrases together are the non-stop-word chunks of all sentences, in order. |
| Rake.PhrasesShape | archived_methods.py:70-82 | Every phrase is non-empty and holds no stop word. Each of its words is a non-empty chunk free of punctuation. |
| Rake.PhrasesWithinSentences | archived_methods.py:71-82 | No phrase spans two sentences: every phrase is a phrase of one sentence's chunks. |
| Rake.PhrasesLower | archived_methods.py:72 | Every word of every phrase is lower case. |
| Rake.PhraseStep | archived_methods.py:74-80 | A stop-word chunk closes the pending phrase. Any other chunk extends it. |
| Rake.PhrasesEnd | archived_methods.py:81-82 | After the last chunk, a non-empty pending phrase is appended to the closed ones. |
| Rake.AppendSentencePhrases | archived_methods.py:73-82 | The inner loop appends exactly the sentence's phrases to the list. |
| Rake.BuildPhrases | archived_methods.py:67-82 | The phrase loop builds exactly `RakePhrases(text, stop)`. |
| Rake.FirstPhrase | archived_methods.py:85-91 | The index is in range exactly when the word occurs in some phrase. In that case it is the first phrase holding the word: that phrase contains it and no earlier phrase does. |
| Rake.FreqPositive | archived_methods.py:85-91 | A word's phrase frequency is positive exactly when the word occurs in a phrase. |
| Rake.FreqAtMostDegree | archived_methods.py:85-91 | Frequency never exceeds degree. |
| Rake.CountsStep | archived_methods.py:89-91 | Counting one more word of the current phrase keeps the counting invariant. |
| Rake.OrderStep | archived_methods.py:89-90 | Counting a word keeps the Counter's key order free of duplicates and ordered by first phrase. |
| Rake.CountsNext | archived_methods.py:87-91 | Finishing a phrase's unique words accounts for that phrase completely. |
| Rake.ScoreDone | archived_methods.py:85-91 | At the end, the two Counters hold exactly the phrase frequency and degree of every word. Their key order lists each word once, by first phrase. |
| Rake.CountWord | archived_methods.py:89-91 | One pass of the inner loop picks a not-yet-counted word of the phrase, removes it from the remaining words and keeps the invariant. |
| Rake.CountPhrase | archived_methods.py:88-91 | The inner loop over `set(phrase)`, in any iteration order, adds 1 to the frequency and `len(phrase)` to the degree of every word of the phrase. |
| Rake.ScoreWords | archived_methods.py:85-91 | The Counters hold, for every word of the phrases and nothing else, its phrase frequency, which is positive, and its degree. Their key order lists each word once, by first phrase. |
| Rake.ScoreBounds | archived_methods.py:93 | Every score lies between 1 and the word's degree. |
| Rake.ScoreAtMostLongest | archived_methods.py:93 | No score exceeds the length of the longest phrase. |
| Rake.DegreeAtMostLongest | archived_methods.py:85-91 | A word's degree is at most the longest phrase length times its frequency. |
| Rake.SinglePhraseScore | archived_methods.py:93 | With one phrase, every word of it scores the phrase length. |
| Rake.RankedScore | archived_methods.py:93-96 | Every sorted entry is a word of the phrases with its score. |
| Rake.RankedDistinct | archived_methods.py:93-96 | Sorted entries name distinct words. |
| Rake.RankedTies | archived_methods.py:93-96 | Entries with equal scores appear in order of the words' first phrase. |
| Rake.RankedComplete | archived_methods.py:93-96 | Every word of the phrases appears in the sorted list. |
| Rake.RankedProperties | archived_methods.py:93-98 | The sorted score list is complete, distinct, correctly scored and non-increasing, with ties in first-phrase order. |
| Rake.RankWords | archived_methods.py:85-98 | Counting, scoring and sorting the phrases gives that list. |
| Rake.RakeKeywords | archived_methods.py:64-98 | For the phrases of the text, `rake_keywords` returns every word exactly once with its score, in non-increasing score order, ties by first phrase. |
| Ranking.InsertPos | archived_methods.py:96 | An element is inserted after every entry whose key is at least its own and before the first one with a smaller key. |
| Ranking.SortDesc | archived_methods.py:96 | The sorted list is a permutation of the input in non-increasing key order. |
| Ranking.SortDescStable | archived_methods.py:96 | Stability: two output elements out of input order have strictly decreasing keys. |
| Ranking.SortDescRanks | archived_methods.py:173 | With a strictly increasing rank on the input, output elements have distinct ranks, and equal keys keep rank order. |
| Article.TitlePart | archived_methods.py:113 | A null or empty title contributes nothing. Otherwise it contributes just the title. |
| Article.SubtitleShapes | archived_methods.py:112-114 | A non-empty string subtitle gives the same full text as a one-item list holding it. An empty string gives the same full text as a null subtitle. A null subtitle gives the same as an empty list. |
| Article.KeepSegmentIff | archived_methods.py:114 | A body segment is kept exactly when it holds a word character or a whitespace character. |
| Article.BodySegments | archived_methods.py:113-114 | After title and subtitles, the pieces are the kept body segments, all of them and only them. |
| Article.FullTextLength | archived_methods.py:113-114 | The full text is as long as its pieces together plus one separating space between each two. |
| Article.FullTextSplitsBack | archived_methods.py:113-114 | When no piece contains a space, splitting the full text at spaces gives the pieces back. |
| Article.FullTextStartsWithTitle | archived_methods.py:113 | A present, non-empty title is a prefix of the full text. |
| Article.WordSegmentKept | archived_methods.py:114 | A segment with a word character, `"D."`, is kept. |
| Article.BlankSegmentKept | archived_methods.py:114 | A whitespace-only segment, `"  "`, is kept. |
| Article.PunctuationSegmentDropped | archived_methods.py:114 | A punctuation-only segment, `"!!"`, is dropped. |
| Article.ExampleParts | archived_methods.py:112-114 | Title `"A B"`, subtitle list `["C"]` and body `["D.", "  ", "!!"]` give the pieces `["A B", "C", "D.", "  "]`. |
| Article.ExampleFullText | archived_methods.py:113-114 | That article's full text is `"A B C D.   "`. |
| Keywords.TopRawKeywords | archived_methods.py:132-139 | For N ≥ 1 the scan returns the first N non-stop-word terms in rank order, or all of them when there are fewer. For N = 0 it returns just the first term when that term is not a stop word, because the break test follows the append. |
| Keywords.ScanEnds | archived_methods.py:134-139 | Where the loop stops, the terms kept so far are exactly that result. |
| Keywords.RawKeywordsShape | archived_methods.py:128-139 | With N = 5 the list has at most five entries, all ranked terms and none a stop word. It has five whenever five non-stop terms exist. |
| Keywords.TopLemKeywords | archived_methods.py:140-142 | The lemmatized list is the first min(N, number of terms) ranked terms, stop words included. |

## Left out

- SentencesRebuild: states only that the sentences and the removed whitespace rebuild the text. Where the cuts fall, guards included, is stated by `Rake.SentencesCut` and `Rake.BreaksAtPoints`.
- ChunksShape: states only what a chunk looks like and what all chunks amount to. Where the chunks break is stated by `Rake.ChunksFree` and `Rake.ChunksConcat`.
- RemoveHandlesKeepsSpace: states only that whitespace survives. What happens to the other characters is stated run by run by `Tokenize.RemoveHandlesRun` and `Tokenize.RemoveHandlesAtSpace`.
- NLTK's `sent_tokenize`, `word_tokenize`, `pos_tag` and `WordNetLemmatizer` are foreign code. Their outputs are parameters: tagged sentences for `LemmatizeSentence`, a token list for `ExtractNgrams`, and a function argument for the lemmatizer.
- The TF-IDF vectorizer and `np.argsort` are foreign numeric code. The keyword scans take the ranked term list as their input.
- LDA topic modelling, spaCy, JSON loading and file I/O, `print`, and `nltk.download` are I/O or foreign libraries with no logic of the pipeline's own.
- `\w`, `\s` and `str.lower` are modelled on ASCII only. Python's Unicode classes and case mapping are not modelled.
- RAKE scores are exact rationals (`real`), not IEEE doubles. Float rounding, which could merge or split ties, is not modelled.
- `sorted` is modelled as a stable insertion sort. Every stable sort returns the same list, so Timsort's algorithm itself is left out.
- The iteration order of `set(phrase)` is left open (nondeterministic choice) rather than fixed to CPython's hash order.
- `Rake.CountWord`, `Rake.CountPhrase` and `Rake.AppendSentencePhrases` are the inner loops of `rake_keywords` extracted into methods of their own. The code runs them inline.
- The RAKE sentence-split regular expression is modelled as a predicate on positions. Python's regex engine is not modelled.
- `lemmatize_text` returns a list of sentence strings, which line 116 joins. The model joins both levels in `Tokenize.LemmatizedText`.
- PosTags.WordnetPos: requires a non-empty tag. On an empty tag, `treebank_tag[0]` raises `IndexError`, and the exception is not modelled. The tagger never yields an empty tag, and `Tokenize.LemmatizeSentence` carries the same precondition for the same reason.
- The three fields are read with `article['title']`, `article['subtitle']` and `article['article_text']`. An absent key raises `KeyError`, and the exception is not modelled: every record is assumed to have the three keys. `None`/`SubNone` stand for a JSON null value.
- The per-article loop over all articles (lines 109-116 and 129-200) and the repetition of the n-gram tally for the lemmatized text (lines 181-192) are not modelled separately. Each repetition is the same modelled operation applied to other input.
