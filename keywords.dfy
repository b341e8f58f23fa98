/** The top-N keyword lists of each article.  The terms arrive already
    ranked by descending TF-IDF weight; the raw list skips stop words, the
    lemmatized list does not. */
module Keywords {
  import opened Seqs

  /** `N` in the article loop. */
  const TopN: nat := 5

  /** The raw scan: walk the ranked terms, keep each one that is not a stop
      word, and stop once `n` have been kept.  The test `j >= n` follows
      every term, so for `n == 0` the scan keeps at most the first term. */
  method TopRawKeywords(ranked: seq<string>, stop: set<string>, n: nat) returns (top: seq<string>)
    ensures n >= 1 ==> top == Take(Filter(ranked, NotIn(stop)), n)
    ensures n == 0 ==> top == (if |ranked| > 0 && ranked[0] !in stop then [ranked[0]] else [])
  {
    top := [];
    var j := 0;
    var i := 0;
    while i < |ranked|
      invariant i <= |ranked|
      invariant top == Filter(ranked[..i], NotIn(stop))
      invariant j == |top|
      invariant i == 0 || j < n
    {
      var keyword := ranked[i];
      FilterPrefixSnoc(ranked, NotIn(stop), i);
      if keyword !in stop {
        top := top + [keyword];
        j := j + 1;
      }
      i := i + 1;
      if j >= n {
        break;
      }
    }
    ScanEnds(ranked, stop, n, i);
  }

  /** Where the scan stops: at the end of the terms with fewer than `n`
      kept, or as soon as `n` are kept (after the first term when n == 0). */
  lemma ScanEnds(ranked: seq<string>, stop: set<string>, n: nat, i: nat)
    requires i <= |ranked|
    requires (i == |ranked| && (i == 0 || |Filter(ranked[..i], NotIn(stop))| < n))
          || (0 < i && |Filter(ranked[..i], NotIn(stop))| >= n && (i == 1 || |Filter(ranked[..i - 1], NotIn(stop))| < n))
    ensures n >= 1 ==> Filter(ranked[..i], NotIn(stop)) == Take(Filter(ranked, NotIn(stop)), n)
    ensures n == 0 ==> Filter(ranked[..i], NotIn(stop)) == (if |ranked| > 0 && ranked[0] !in stop then [ranked[0]] else [])
  {
    FilterPrefix(ranked, NotIn(stop), i);
    if i == |ranked| {
      assert ranked[..i] == ranked;
    }
    if i > 0 {
      FilterPrefixSnoc(ranked, NotIn(stop), i - 1);
    }
    if n == 0 && i > 0 {
      assert ranked[..0] == [];
      assert i == 1;
    }
  }

  /** For the `N` of the article loop the raw list is the first `N` non-stop
      terms in rank order: at most `N` entries, none of them a stop word,
      and `N` of them whenever there are that many. */
  lemma RawKeywordsShape(ranked: seq<string>, stop: set<string>)
    ensures |Take(Filter(ranked, NotIn(stop)), TopN)| <= TopN
    ensures |Filter(ranked, NotIn(stop))| >= TopN ==> |Take(Filter(ranked, NotIn(stop)), TopN)| == TopN
    ensures forall k :: 0 <= k < |Take(Filter(ranked, NotIn(stop)), TopN)| ==>
      Take(Filter(ranked, NotIn(stop)), TopN)[k] !in stop &&
      Take(Filter(ranked, NotIn(stop)), TopN)[k] in ranked
  {
    var kept := Filter(ranked, NotIn(stop));
    var top := Take(kept, TopN);
    forall k | 0 <= k < |top| ensures top[k] !in stop && top[k] in ranked {
      assert top[k] == kept[k];
      FilterMember(ranked, NotIn(stop), k);
    }
  }

  /** The lemmatized list: the first `n` ranked terms, stop words included. */
  function TopLemKeywords(ranked: seq<string>, n: nat): (top: seq<string>)
    ensures |top| == if |ranked| < n then |ranked| else n
    ensures forall k :: 0 <= k < |top| ==> top[k] == ranked[k]
  {
    Take(ranked, n)
  }
}
