/** Python's `sorted(items, key=k, reverse=True)`: a stable sort into
    non-increasing key order.  Python uses a merge sort; any stable sort
    returns the same list, and insertion sort is the one modelled here.  Keys
    are reals so that both integer counts and RAKE's degree/frequency ratios
    can be ranked. */
module Ranking {
  import opened Seqs

  predicate SortedDesc<T>(s: seq<T>, key: T -> real) {
    forall i, j :: 0 <= i < j < |s| ==> key(s[i]) >= key(s[j])
  }

  /** Where a stable descending sort puts an element x that comes after all
      of t in the input: behind every element whose key is at least key(x). */
  function InsertPos<T>(t: seq<T>, x: T, key: T -> real): (p: nat)
    ensures p <= |t|
    ensures forall q :: 0 <= q < p ==> key(t[q]) >= key(x)
    ensures p < |t| ==> key(t[p]) < key(x)
  {
    if t == [] || key(t[0]) < key(x) then 0 else 1 + InsertPos(t[1..], x, key)
  }

  function Insert<T(==)>(t: seq<T>, x: T, key: T -> real): (r: seq<T>)
    ensures |r| == |t| + 1
    ensures multiset(r) == multiset(t) + multiset{x}
  {
    var p := InsertPos(t, x, key);
    assert t == t[..p] + t[p..];
    t[..p] + [x] + t[p..]
  }

  /** The insertion, position by position. */
  lemma InsertAt<T>(t: seq<T>, x: T, key: T -> real, k: nat)
    requires k <= |t|
    ensures var p := InsertPos(t, x, key);
      Insert(t, x, key)[k] == if k < p then t[k] else if k == p then x else t[k - 1]
  {
  }

  lemma InsertSorted<T>(t: seq<T>, x: T, key: T -> real)
    requires SortedDesc(t, key)
    ensures SortedDesc(Insert(t, x, key), key)
  {
    var p, r := InsertPos(t, x, key), Insert(t, x, key);
    forall i, j | 0 <= i < j < |r| ensures key(r[i]) >= key(r[j]) {
      InsertAt(t, x, key, i);
      InsertAt(t, x, key, j);
      if i == p && j > p {
        assert key(t[j - 1]) <= key(t[p]);
      }
    }
  }

  function SortDesc<T(==)>(s: seq<T>, key: T -> real): (r: seq<T>)
    ensures |r| == |s|
    ensures multiset(r) == multiset(s)
    ensures SortedDesc(r, key)
    decreases |s|
  {
    if s == [] then []
    else
      assert s == DropLast(s) + [Last(s)];
      var t := SortDesc(DropLast(s), key);
      InsertSorted(t, Last(s), key);
      Insert(t, Last(s), key)
  }

  /** Every element of the sorted list comes from some position of the input. */
  lemma FromInput<T>(s: seq<T>, key: T -> real, k: nat)
    requires k < |s|
    ensures exists i :: 0 <= i < |s| && s[i] == SortDesc(s, key)[k]
  {
    var r := SortDesc(s, key);
    assert r[k] in multiset(s);
  }

  /** Every element of the input has a place in the sorted list. */
  lemma ToOutput<T>(s: seq<T>, key: T -> real, i: nat)
    requires i < |s|
    ensures exists k :: 0 <= k < |s| && SortDesc(s, key)[k] == s[i]
  {
    var r := SortDesc(s, key);
    assert s[i] in multiset(r);
  }

  /** Stability.  If `before` holds of every pair of input elements in input
      order, then every pair of output elements is either in that order too,
      or in the reverse order with a strictly larger key first.  In
      particular elements with equal keys keep their input order. */
  lemma {:induction false} SortDescStable<T>(s: seq<T>, key: T -> real, before: (T, T) -> bool)
    requires forall i, j :: 0 <= i < j < |s| ==> before(s[i], s[j])
    ensures forall a, b :: 0 <= a < b < |s| ==>
              before(SortDesc(s, key)[a], SortDesc(s, key)[b]) ||
              (key(SortDesc(s, key)[a]) > key(SortDesc(s, key)[b]) && before(SortDesc(s, key)[b], SortDesc(s, key)[a]))
    decreases |s|
  {
    if s != [] {
      var init, x := DropLast(s), Last(s);
      var t := SortDesc(init, key);
      SortDescStable(init, key, before);
      var p := InsertPos(t, x, key);
      var r := SortDesc(s, key);
      assert r == Insert(t, x, key);
      forall k | 0 <= k < |t| ensures before(t[k], x) {
        FromInput(init, key, k);
        var i :| 0 <= i < |init| && init[i] == t[k];
        assert s[i] == t[k] && s[|s| - 1] == x;
      }
      forall a, b | 0 <= a < b < |r|
        ensures before(r[a], r[b]) || (key(r[a]) > key(r[b]) && before(r[b], r[a]))
      {
        InsertAt(t, x, key, a);
        InsertAt(t, x, key, b);
        if a == p && b > p {
          assert key(t[b - 1]) <= key(t[p]);
        }
      }
    }
  }

  /** Stability for an input whose elements carry strictly increasing ranks:
      the output never repeats a rank, and equal keys keep increasing rank. */
  lemma SortDescRanks<T>(s: seq<T>, key: T -> real, rank: T -> int, a: nat, b: nat)
    requires forall i, j :: 0 <= i < j < |s| ==> rank(s[i]) < rank(s[j])
    requires a < b < |s|
    ensures rank(SortDesc(s, key)[a]) != rank(SortDesc(s, key)[b])
    ensures key(SortDesc(s, key)[a]) == key(SortDesc(s, key)[b]) ==>
              rank(SortDesc(s, key)[a]) < rank(SortDesc(s, key)[b])
  {
    var before := (x: T, y: T) => rank(x) < rank(y);
    SortDescStable(s, key, before);
    var r := SortDesc(s, key);
    assert before(r[a], r[b]) || (key(r[a]) > key(r[b]) && before(r[b], r[a]));
  }

  /** Stability, pointwise: two output elements with equal keys are in an
      order that `before` gave every pair of input elements. */
  lemma SortDescTies<T>(s: seq<T>, key: T -> real, before: (T, T) -> bool, a: nat, b: nat)
    requires forall i, j :: 0 <= i < j < |s| ==> before(s[i], s[j])
    requires a < b < |s|
    ensures key(SortDesc(s, key)[a]) == key(SortDesc(s, key)[b]) ==>
              before(SortDesc(s, key)[a], SortDesc(s, key)[b])
  {
    SortDescStable(s, key, before);
  }
}
