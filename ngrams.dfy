/** N-gram extraction (`extract_ngrams`, archived_methods.py:55-61) and the
    per-article frequency tally with its top five (archived_methods.py:163-174,
    repeated at 181-192 for the lemmatized text).  `word_tokenize` is foreign:
    its token list is the input. */
module Ngrams {
  import opened Chars
  import opened Seqs
  import opened Ranking

  /** `re.search(r'\w', word)` succeeds. */
  predicate HasWordChar(w: string) {
    exists i :: 0 <= i < |w| && IsWordChar(w[i])
  }

  /** The tokens `extract_ngrams` keeps. */
  function KeptWords(words: seq<string>): seq<string> {
    Filter(words, HasWordChar)
  }

  /** `len(range(L - n + 1))`, i.e. max(0, L - n + 1). */
  function WindowCount(len: nat, n: nat): nat {
    if len + 1 >= n then len + 1 - n else 0
  }

  /** `[' '.join(words[i:i + n]) for i in range(len(words) - n + 1)]` over the
      kept tokens. */
  function ExtractNgrams(words: seq<string>, n: nat): seq<string> {
    var kept := KeptWords(words);
    seq(WindowCount(|kept|, n), i requires 0 <= i < WindowCount(|kept|, n) => Join(kept[i..i + n], ' '))
  }

  /** Tokens never hold whitespace; then splitting the i-th n-gram at
      whitespace gives back exactly the n tokens it was made from, so
      consecutive n-grams overlap in n-1 tokens. */
  lemma NgramsSplitBack(words: seq<string>, n: nat, i: nat)
    requires n >= 1
    requires forall k :: 0 <= k < |words| ==> FreeOf(words[k], IsSpace)
    requires i < |ExtractNgrams(words, n)|
    ensures Split(ExtractNgrams(words, n)[i], IsSpace) == KeptWords(words)[i..i + n]
  {
    var kept := KeptWords(words);
    var window := kept[i..i + n];
    forall k | 0 <= k < |window| ensures FreeOf(window[k], IsSpace) {
      FilterMember(words, HasWordChar, i + k);
    }
    SplitJoin(window, ' ', IsSpace);
  }

  /** With n == 1 the n-grams are the kept tokens themselves. */
  lemma Unigrams(words: seq<string>)
    ensures ExtractNgrams(words, 1) == KeptWords(words)
  {
    var kept := KeptWords(words);
    assert |ExtractNgrams(words, 1)| == |kept|;
    forall i | 0 <= i < |kept| ensures ExtractNgrams(words, 1)[i] == kept[i] {
      assert kept[i..i + 1] == [kept[i]];
      assert Join(kept[i..i + 1], ' ') == kept[i];
    }
  }

  /** Consecutive n-grams overlap: the last n-1 tokens of one are the first
      n-1 tokens of the next. */
  lemma NgramsOverlap(words: seq<string>, n: nat, i: nat)
    requires n >= 1
    requires forall k :: 0 <= k < |words| ==> FreeOf(words[k], IsSpace)
    requires i + 1 < |ExtractNgrams(words, n)|
    ensures |Split(ExtractNgrams(words, n)[i + 1], IsSpace)| == n &&
            Split(ExtractNgrams(words, n)[i], IsSpace)[1..] ==
            Split(ExtractNgrams(words, n)[i + 1], IsSpace)[..n - 1]
  {
    NgramsSplitBack(words, n, i);
    NgramsSplitBack(words, n, i + 1);
    var kept := KeptWords(words);
    assert kept[i..i + n][1..] == kept[i + 1..i + n];
    assert kept[i + 1..i + 1 + n][..n - 1] == kept[i + 1..i + n];
  }

  // ---------------------------------------------------------------------
  // The tally: a defaultdict(int) filled in n-gram order

  /** What the tally holds after the n-grams `seen`: a key per distinct
      n-gram in first-seen order, its number of occurrences, and hence a
      total equal to the number of n-grams seen. */
  ghost predicate TallyInv(seen: seq<string>, keys: seq<string>, counts: map<string, nat>) {
    && keys == Distinct(seen)
    && (forall g :: g in counts <==> g in seen)
    && (forall g :: g in counts ==> counts[g] == Count(seen, g))
    && (forall k :: k in keys ==> k in counts)
    && SumOver(keys, counts) == |seen|
  }

  /** The tally after one more n-gram, as the defaultdict update computes it. */
  function NextKeys(keys: seq<string>, counts: map<string, nat>, g: string): seq<string> {
    if g in counts then keys else keys + [g]
  }

  function NextCounts(counts: map<string, nat>, g: string): map<string, nat> {
    counts[g := (if g in counts then counts[g] else 0) + 1]
  }

  lemma TallyStepCounts(seen: seq<string>, g: string, counts: map<string, nat>)
    requires forall h :: h in counts <==> h in seen
    requires forall h :: h in counts ==> counts[h] == Count(seen, h)
    ensures forall h :: h in NextCounts(counts, g) <==> h in seen + [g]
    ensures forall h :: h in NextCounts(counts, g) ==> NextCounts(counts, g)[h] == Count(seen + [g], h)
  {
    var seen', counts' := seen + [g], NextCounts(counts, g);
    assert DropLast(seen') == seen && Last(seen') == g;
    forall h ensures h in counts' <==> h in seen' {
      assert h in seen' <==> h in seen || h == g;
    }
    forall h | h in counts' ensures counts'[h] == Count(seen', h) {
      if h == g {
        CountPositive(seen, g);
      }
    }
  }

  lemma TallyStepKeys(seen: seq<string>, g: string, keys: seq<string>, counts: map<string, nat>)
    requires keys == Distinct(seen)
    requires g in counts <==> g in seen
    ensures NextKeys(keys, counts, g) == Distinct(seen + [g])
  {
    var seen' := seen + [g];
    assert DropLast(seen') == seen && Last(seen') == g;
  }

  lemma TallyStepSum(keys: seq<string>, counts: map<string, nat>, g: string, total: nat)
    requires NoDuplicates(keys)
    requires forall k :: k in keys ==> k in counts
    requires g in counts <==> g in keys
    requires SumOver(keys, counts) == total
    ensures forall k :: k in NextKeys(keys, counts, g) ==> k in NextCounts(counts, g)
    ensures SumOver(NextKeys(keys, counts, g), NextCounts(counts, g)) == total + 1
  {
    var counts' := NextCounts(counts, g);
    if g in counts {
      assert NextKeys(keys, counts, g) == keys;
      assert counts' == counts[g := counts[g] + 1];
      SumOverIncrement(keys, counts, g);
    } else {
      assert NextKeys(keys, counts, g) == keys + [g];
      SumOverUnchanged(keys, counts, counts');
      SumOverAppend(keys, counts', g);
    }
  }

  /** One step of the tally loop keeps the invariant. */
  lemma TallyStep(seen: seq<string>, g: string, keys: seq<string>, counts: map<string, nat>)
    requires TallyInv(seen, keys, counts)
    ensures TallyInv(seen + [g], NextKeys(keys, counts, g), NextCounts(counts, g))
  {
    TallyStepCounts(seen, g, counts);
    TallyStepKeys(seen, g, keys, counts);
    DistinctOrdered(seen);
    TallyStepSum(keys, counts, g, |seen|);
  }

  /** `for g in grams: freq[g] += 1` on a defaultdict.  The dict's key order
      (`keys`) is the order in which each n-gram was first seen. */
  method Tally(grams: seq<string>) returns (keys: seq<string>, counts: map<string, nat>)
    ensures Tallied(grams, keys, counts)
    ensures SumOver(keys, counts) == |grams|
  {
    keys, counts := [], map[];
    for i := 0 to |grams|
      invariant TallyInv(grams[..i], keys, counts)
    {
      var g := grams[i];
      assert grams[..i + 1] == grams[..i] + [g];
      TallyStep(grams[..i], g, keys, counts);
      // a defaultdict reads a missing entry as 0 and creates it
      var current := if g in counts then counts[g] else 0;
      if g !in counts {
        keys := keys + [g];
      }
      counts := counts[g := current + 1];
    }
    assert grams[..|grams|] == grams;
  }

  // ---------------------------------------------------------------------
  // sorted(freq.items(), key=lambda x: x[1], reverse=True)[:5]

  /** How many entries the report keeps. */
  const ReportSize: nat := 5

  function CountKey(entry: (string, nat)): real {
    entry.1 as real
  }

  /** `freq.items()`: the tallied pairs in key order. */
  function Entries(keys: seq<string>, counts: map<string, nat>): (items: seq<(string, nat)>)
    requires forall k :: k in keys ==> k in counts
    ensures |items| == |keys|
    ensures forall j :: 0 <= j < |keys| ==> items[j] == (keys[j], counts[keys[j]])
  {
    seq(|keys|, j requires 0 <= j < |keys| => (keys[j], counts[keys[j]]))
  }

  /** What `Tally` promises: the keys are the distinct n-grams in
      first-occurrence order, and each of them is counted by its number of
      occurrences. */
  ghost predicate Tallied(grams: seq<string>, keys: seq<string>, counts: map<string, nat>) {
    && keys == Distinct(grams)
    && (forall g :: g in counts <==> g in grams)
    && (forall g :: g in counts ==> counts[g] == Count(grams, g))
    && (forall k :: k in keys ==> k in counts)
  }

  /** `sorted(freq.items(), key=lambda x: x[1], reverse=True)`. */
  function Ranked(keys: seq<string>, counts: map<string, nat>): seq<(string, nat)>
    requires forall k :: k in keys ==> k in counts
  {
    SortDesc(Entries(keys, counts), CountKey)
  }

  /** Every ranked entry is an n-gram of the input with its true count. */
  lemma RankedEntry(grams: seq<string>, keys: seq<string>, counts: map<string, nat>, k: nat)
    requires Tallied(grams, keys, counts)
    requires k < |keys|
    ensures Ranked(keys, counts)[k].0 in grams
    ensures Ranked(keys, counts)[k].1 == Count(grams, Ranked(keys, counts)[k].0)
  {
    var items := Entries(keys, counts);
    FromInput(items, CountKey, k);
    var i :| 0 <= i < |items| && items[i] == SortDesc(items, CountKey)[k];
    assert keys[i] in grams;
  }

  /** The ranking lists each n-gram once and orders equal counts by first
      occurrence. */
  lemma RankedOrder(grams: seq<string>, keys: seq<string>, counts: map<string, nat>, a: nat, b: nat)
    requires Tallied(grams, keys, counts)
    requires a < b < |keys|
    ensures Ranked(keys, counts)[a].0 != Ranked(keys, counts)[b].0
    ensures Ranked(keys, counts)[a].1 == Ranked(keys, counts)[b].1 ==>
              IndexOf(grams, Ranked(keys, counts)[a].0) < IndexOf(grams, Ranked(keys, counts)[b].0)
  {
    var items := Entries(keys, counts);
    DistinctOrdered(grams);
    var rank := (p: (string, nat)) => IndexOf(grams, p.0);
    forall i, j | 0 <= i < j < |items| ensures rank(items[i]) < rank(items[j]) {
      assert items[i].0 == keys[i] && items[j].0 == keys[j];
    }
    SortDescRanks(items, CountKey, rank, a, b);
  }

  /** Every n-gram of the input is ranked somewhere. */
  lemma RankedComplete(grams: seq<string>, keys: seq<string>, counts: map<string, nat>, g: string)
    requires Tallied(grams, keys, counts)
    requires g in grams
    ensures exists q :: 0 <= q < |keys| && Ranked(keys, counts)[q].0 == g
  {
    var items := Entries(keys, counts);
    var j :| 0 <= j < |keys| && keys[j] == g;
    ToOutput(items, CountKey, j);
    var q :| 0 <= q < |items| && SortDesc(items, CountKey)[q] == items[j];
    assert Ranked(keys, counts)[q].0 == g;
  }

  /** The report: the first `ReportSize` entries of the ranking. */
  function Report(keys: seq<string>, counts: map<string, nat>): seq<(string, nat)>
    requires forall k :: k in keys ==> k in counts
  {
    Take(Ranked(keys, counts), ReportSize)
  }

  lemma ReportEntries(grams: seq<string>, keys: seq<string>, counts: map<string, nat>)
    requires Tallied(grams, keys, counts)
    ensures var top := Report(keys, counts);
      && |top| == (if |keys| < ReportSize then |keys| else ReportSize)
      && SortedDesc(top, CountKey)
      && forall k :: 0 <= k < |top| ==> top[k].0 in grams && top[k].1 == Count(grams, top[k].0)
  {
    var ranked := Ranked(keys, counts);
    var top := Report(keys, counts);
    assert forall k :: 0 <= k < |top| ==> top[k] == ranked[k];
    forall k | 0 <= k < |top| ensures top[k].0 in grams && top[k].1 == Count(grams, top[k].0) {
      RankedEntry(grams, keys, counts, k);
    }
  }

  lemma ReportOrder(grams: seq<string>, keys: seq<string>, counts: map<string, nat>)
    requires Tallied(grams, keys, counts)
    ensures var top := Report(keys, counts);
      forall a, b :: 0 <= a < b < |top| ==>
        top[a].0 != top[b].0 &&
        (top[a].1 == top[b].1 ==> IndexOf(grams, top[a].0) < IndexOf(grams, top[b].0))
  {
    var ranked := Ranked(keys, counts);
    var top := Report(keys, counts);
    forall a, b | 0 <= a < b < |top|
      ensures top[a].0 != top[b].0
      ensures top[a].1 == top[b].1 ==> IndexOf(grams, top[a].0) < IndexOf(grams, top[b].0)
    {
      assert top[a] == ranked[a] && top[b] == ranked[b];
      RankedOrder(grams, keys, counts, a, b);
    }
  }

  lemma ReportComplete(grams: seq<string>, keys: seq<string>, counts: map<string, nat>, g: string)
    requires Tallied(grams, keys, counts)
    requires g in grams
    requires forall k :: 0 <= k < |Report(keys, counts)| ==> Report(keys, counts)[k].0 != g
    ensures |Report(keys, counts)| == ReportSize
    ensures Count(grams, g) <= Report(keys, counts)[ReportSize - 1].1
    ensures Count(grams, g) == Report(keys, counts)[ReportSize - 1].1 ==>
              IndexOf(grams, Report(keys, counts)[ReportSize - 1].0) < IndexOf(grams, g)
  {
    var ranked := Ranked(keys, counts);
    var top := Report(keys, counts);
    RankedComplete(grams, keys, counts, g);
    var q :| 0 <= q < |keys| && ranked[q].0 == g;
    assert q >= |top|;
    RankedEntry(grams, keys, counts, q);
    assert CountKey(ranked[q]) <= CountKey(ranked[ReportSize - 1]);
    assert top[ReportSize - 1] == ranked[ReportSize - 1];
    RankedOrder(grams, keys, counts, ReportSize - 1, q);
  }

  /** The five most frequent n-grams with their counts, most frequent first;
      among equal counts the n-gram seen first comes first.  Every entry is
      an n-gram of the input with its true count, no n-gram is listed twice,
      and an n-gram left out does not outnumber the fifth entry; one that
      ties with it was seen after it. */
  method TopNgrams(grams: seq<string>) returns (top: seq<(string, nat)>)
    ensures |top| == if |Distinct(grams)| < ReportSize then |Distinct(grams)| else ReportSize
    ensures forall k :: 0 <= k < |top| ==> top[k].0 in grams && top[k].1 == Count(grams, top[k].0)
    ensures SortedDesc(top, CountKey)
    ensures forall a, b :: 0 <= a < b < |top| ==> top[a].0 != top[b].0
    ensures forall a, b :: 0 <= a < b < |top| && top[a].1 == top[b].1 ==>
              IndexOf(grams, top[a].0) < IndexOf(grams, top[b].0)
    ensures forall g :: g in grams && (forall k :: 0 <= k < |top| ==> top[k].0 != g) ==>
              |top| == ReportSize && Count(grams, g) <= top[ReportSize - 1].1
    ensures forall g :: g in grams && (forall k :: 0 <= k < |top| ==> top[k].0 != g) &&
                        |top| == ReportSize && Count(grams, g) == top[ReportSize - 1].1 ==>
              IndexOf(grams, top[ReportSize - 1].0) < IndexOf(grams, g)
  {
    var keys, counts := Tally(grams);
    top := Take(SortDesc(Entries(keys, counts), CountKey), ReportSize);
    assert top == Report(keys, counts);
    ReportEntries(grams, keys, counts);
    ReportOrder(grams, keys, counts);
    forall g | g in grams && (forall k :: 0 <= k < |top| ==> top[k].0 != g)
      ensures |top| == ReportSize && Count(grams, g) <= top[ReportSize - 1].1
      ensures Count(grams, g) == top[ReportSize - 1].1 ==> IndexOf(grams, top[ReportSize - 1].0) < IndexOf(grams, g)
    {
      ReportComplete(grams, keys, counts, g);
    }
  }
}
