/** Generic sequence operations shared by the tokenizers: filtering, splitting
    at separator elements (Python's `re.split` on a one-character class and
    `str.split` on one character), joining (`sep.join`), counting and
    first-occurrence bookkeeping.  Every recursive definition peels the LAST
    element, so that it matches the left-to-right loops of the source. */
module Seqs {

  function Last<T>(s: seq<T>): T
    requires |s| > 0
  {
    s[|s| - 1]
  }

  function DropLast<T>(s: seq<T>): seq<T>
    requires |s| > 0
  {
    s[..|s| - 1]
  }

  /** Taking one more element of a prefix. */
  lemma PrefixSnoc<T>(s: seq<T>, i: nat)
    requires i < |s|
    ensures s[..i + 1] == s[..i] + [s[i]]
  {
  }

  predicate NonEmpty<T>(s: seq<T>) { |s| > 0 }

  /** The predicate "not a member of `xs`", e.g. "not a stop word". */
  function NotIn<T>(xs: set<T>): T -> bool {
    x => x !in xs
  }

  /** The predicate "a member of `xs`", e.g. "is a stop word". */
  function In<T>(xs: set<T>): T -> bool {
    x => x in xs
  }

  // ---------------------------------------------------------------------
  // Filter: a list comprehension `[x for x in s if keep(x)]`

  function Filter<T>(s: seq<T>, keep: T -> bool): (r: seq<T>)
    ensures |r| <= |s|
    ensures forall i :: 0 <= i < |r| ==> keep(r[i])
  {
    if s == [] then []
    else Filter(DropLast(s), keep) + (if keep(Last(s)) then [Last(s)] else [])
  }

  lemma {:induction false} FilterConcat<T>(a: seq<T>, b: seq<T>, keep: T -> bool)
    ensures Filter(a + b, keep) == Filter(a, keep) + Filter(b, keep)
    decreases |b|
  {
    if b == [] {
      assert a + b == a;
    } else {
      assert DropLast(a + b) == a + DropLast(b);
      assert Last(a + b) == Last(b);
      FilterConcat(a, DropLast(b), keep);
    }
  }
  /** Filtering commutes with cutting a list in two. */
  lemma FilterSplitAt<T>(s: seq<T>, m: nat, keep: T -> bool)
    requires m <= |s|
    ensures Filter(s, keep) == Filter(s[..m], keep) + Filter(s[m..], keep)
  {
    assert s == s[..m] + s[m..];
    FilterConcat(s[..m], s[m..], keep);
  }


  lemma FilterSingleton<T>(x: T, keep: T -> bool)
    ensures Filter([x], keep) == if keep(x) then [x] else []
  {
    assert DropLast([x]) == [];
  }

  /** Filtering one more element of a prefix. */
  lemma FilterPrefixSnoc<T>(s: seq<T>, keep: T -> bool, i: nat)
    requires i < |s|
    ensures Filter(s[..i + 1], keep) == Filter(s[..i], keep) + (if keep(s[i]) then [s[i]] else [])
  {
    assert DropLast(s[..i + 1]) == s[..i];
  }

  /** The elements a prefix keeps are the first ones the whole input keeps. */
  lemma FilterPrefix<T>(s: seq<T>, keep: T -> bool, i: nat)
    requires i <= |s|
    ensures Filter(s[..i], keep) <= Filter(s, keep)
  {
    assert s == s[..i] + s[i..];
    FilterConcat(s[..i], s[i..], keep);
  }

  /** Filtering keeps exactly the elements that pass, and keeps all of them. */
  lemma {:induction false} FilterAll<T>(s: seq<T>, keep: T -> bool)
    requires forall i :: 0 <= i < |s| ==> keep(s[i])
    ensures Filter(s, keep) == s
    decreases |s|
  {
    if s != [] {
      FilterAll(DropLast(s), keep);
    }
  }

  lemma {:induction false} FilterNone<T>(s: seq<T>, keep: T -> bool)
    requires forall i :: 0 <= i < |s| ==> !keep(s[i])
    ensures Filter(s, keep) == []
    decreases |s|
  {
    if s != [] {
      FilterNone(DropLast(s), keep);
    }
  }

  /** An element that passes is kept. */
  lemma {:induction false} FilterKeeps<T>(s: seq<T>, keep: T -> bool, x: T)
    requires x in s && keep(x)
    ensures x in Filter(s, keep)
    decreases |s|
  {
    if Last(s) != x {
      assert s == DropLast(s) + [Last(s)];
      FilterKeeps(DropLast(s), keep, x);
    }
  }

  /** The k-th element kept is an element of the input that passes. */
  lemma {:induction false} FilterMember<T>(s: seq<T>, keep: T -> bool, k: nat)
    requires k < |Filter(s, keep)|
    ensures Filter(s, keep)[k] in s && keep(Filter(s, keep)[k])
    decreases |s|
  {
    if k < |Filter(DropLast(s), keep)| {
      FilterMember(DropLast(s), keep, k);
      assert DropLast(s) <= s;
    } else {
      assert Filter(s, keep)[k] == Last(s);
    }
  }

  /** Filtering by a stronger predicate after a weaker one is filtering by
      the stronger one. */
  lemma {:induction false} FilterFilter<T>(s: seq<T>, weak: T -> bool, strong: T -> bool)
    requires forall x :: strong(x) ==> weak(x)
    ensures Filter(Filter(s, weak), strong) == Filter(s, strong)
    decreases |s|
  {
    if s != [] {
      FilterFilter(DropLast(s), weak, strong);
      var w := if weak(Last(s)) then [Last(s)] else [];
      FilterConcat(Filter(DropLast(s), weak), w, strong);
      FilterSingleton(Last(s), strong);
    }
  }

  // ---------------------------------------------------------------------
  // Flatten: `"".join(...)` / concatenation of a list of lists

  function Flatten<T>(ps: seq<seq<T>>): seq<T> {
    if ps == [] then [] else Flatten(DropLast(ps)) + Last(ps)
  }

  lemma {:induction false} FlattenConcat<T>(a: seq<seq<T>>, b: seq<seq<T>>)
    ensures Flatten(a + b) == Flatten(a) + Flatten(b)
    decreases |b|
  {
    if b == [] {
      assert a + b == a;
    } else {
      assert DropLast(a + b) == a + DropLast(b);
      assert Last(a + b) == Last(b);
      FlattenConcat(a, DropLast(b));
    }
  }

  /** Dropping empty pieces does not change the concatenation. */
  lemma {:induction false} FlattenNonEmpty<T>(ps: seq<seq<T>>)
    ensures Flatten(Filter(ps, NonEmpty)) == Flatten(ps)
    decreases |ps|
  {
    if ps != [] {
      FlattenNonEmpty(DropLast(ps));
      FlattenConcat(Filter(DropLast(ps), NonEmpty), if NonEmpty(Last(ps)) then [Last(ps)] else []);
      assert Flatten([Last(ps)]) == Last(ps) by {
        assert DropLast([Last(ps)]) == [];
      }
    }
  }

  // ---------------------------------------------------------------------
  // Split: the pieces between separator elements, empty pieces included,
  // as `re.split` on a one-character class returns them

  function Split<T>(s: seq<T>, sep: T -> bool): (r: seq<seq<T>>)
    ensures |r| > 0
    decreases |s|
  {
    if s == [] then [[]]
    else
      var init := Split(DropLast(s), sep);
      if sep(Last(s)) then init + [[]]
      else DropLast(init) + [Last(init) + [Last(s)]]
  }

  /** One step of the split: appending an element either starts a new
      piece (a separator) or extends the last one. */
  lemma SplitSnoc<T>(s: seq<T>, x: T, sep: T -> bool)
    ensures Split(s + [x], sep) ==
      if sep(x) then Split(s, sep) + [[]]
      else DropLast(Split(s, sep)) + [Last(Split(s, sep)) + [x]]
  {
    assert DropLast(s + [x]) == s;
  }

  /** Each piece is free of separators. */
  predicate FreeOf<T>(p: seq<T>, sep: T -> bool) {
    forall i :: 0 <= i < |p| ==> !sep(p[i])
  }

  lemma {:induction false} SplitPiecesFree<T>(s: seq<T>, sep: T -> bool)
    ensures forall k :: 0 <= k < |Split(s, sep)| ==> FreeOf(Split(s, sep)[k], sep)
    decreases |s|
  {
    if s != [] {
      SplitPiecesFree(DropLast(s), sep);
    }
  }

  /** There is one more piece than there are separators. */
  lemma {:induction false} SplitCount<T>(s: seq<T>, sep: T -> bool)
    ensures |Split(s, sep)| == |Filter(s, sep)| + 1
    decreases |s|
  {
    if s != [] {
      SplitCount(DropLast(s), sep);
    }
  }

  /** Pieces are made of the input's elements: a property of every element
      of the input holds of every element of every piece. */
  lemma {:induction false} SplitPiecesOf<T>(s: seq<T>, sep: T -> bool, bad: T -> bool)
    requires forall i :: 0 <= i < |s| ==> !bad(s[i])
    ensures forall p, i :: p in Split(s, sep) && 0 <= i < |p| ==> !bad(p[i])
    decreases |s|
  {
    if s != [] {
      SplitPiecesOf(DropLast(s), sep, bad);
      var init := Split(DropLast(s), sep);
      assert Last(init) in init;
      forall p | p in DropLast(init) ensures p in init {
        assert DropLast(init) <= init;
      }
    }
  }

  /** Concatenating the pieces gives the input without its separators. */
  lemma {:induction false} FlattenSplit<T>(s: seq<T>, sep: T -> bool, keep: T -> bool)
    requires forall x :: keep(x) == !sep(x)
    ensures Flatten(Split(s, sep)) == Filter(s, keep)
    decreases |s|
  {
    if s != [] {
      var init := Split(DropLast(s), sep);
      FlattenSplit(DropLast(s), sep, keep);
      assert Flatten(init) == Flatten(DropLast(init)) + Last(init);
      if sep(Last(s)) {
        assert DropLast(init + [[]]) == init;
      } else {
        var s' := DropLast(init) + [Last(init) + [Last(s)]];
        assert DropLast(s') == DropLast(init);
      }
    }
  }

  /** `ps[0] + [xs[0]] + ps[1] + ... + [xs[n-1]] + ps[n]`: the pieces with the
      separators put back between them. */
  function Interleave<T>(ps: seq<seq<T>>, xs: seq<T>): seq<T>
    requires |ps| == |xs| + 1
    decreases |xs|
  {
    if xs == [] then ps[0]
    else Interleave(DropLast(ps), DropLast(xs)) + [Last(xs)] + Last(ps)
  }

  lemma InterleaveExtendLast<T>(ps: seq<seq<T>>, xs: seq<T>, x: T)
    requires |ps| == |xs| + 1
    ensures Interleave(DropLast(ps) + [Last(ps) + [x]], xs) == Interleave(ps, xs) + [x]
  {
    var ps' := DropLast(ps) + [Last(ps) + [x]];
    if xs != [] {
      assert DropLast(ps') == DropLast(ps);
    }
  }

  /** The pieces, re-joined with the separators that were removed, give back
      the input: nothing is lost or reordered by splitting. */
  lemma {:induction false} SplitInterleave<T>(s: seq<T>, sep: T -> bool)
    ensures |Split(s, sep)| == |Filter(s, sep)| + 1
    ensures Interleave(Split(s, sep), Filter(s, sep)) == s
    decreases |s|
  {
    SplitCount(s, sep);
    if s != [] {
      var s0, x := DropLast(s), Last(s);
      var P, F := Split(s0, sep), Filter(s0, sep);
      SplitInterleave(s0, sep);
      assert s == s0 + [x];
      SplitSnoc(s0, x, sep);
      if sep(x) {
        assert Filter(s, sep) == F + [x];
        assert DropLast(P + [[]]) == P && Last(P + [[]]) == [];
        assert DropLast(F + [x]) == F && Last(F + [x]) == x;
      } else {
        assert Filter(s, sep) == F;
        InterleaveExtendLast(P, F, x);
      }
    }
  }

  /** Splitting after a separator-free tail extends the last piece. */
  lemma {:induction false} SplitExtend<T>(a: seq<T>, p: seq<T>, sep: T -> bool)
    requires FreeOf(p, sep)
    ensures Split(a + p, sep) == DropLast(Split(a, sep)) + [Last(Split(a, sep)) + p]
    decreases |p|
  {
    var sa := Split(a, sep);
    if p == [] {
      assert a + p == a;
      assert Last(sa) + p == Last(sa);
      assert sa == DropLast(sa) + [Last(sa)];
    } else {
      var p0, x := DropLast(p), Last(p);
      var s0 := Split(a + p0, sep);
      assert s0 == DropLast(sa) + [Last(sa) + p0] by {
        SplitExtend(a, p0, sep);
      }
      assert Split(a + p, sep) == DropLast(s0) + [Last(s0) + [x]] by {
        assert a + p == (a + p0) + [x];
        SplitSnoc(a + p0, x, sep);
      }
      assert DropLast(s0) == DropLast(sa) && Last(s0) == Last(sa) + p0;
      assert Last(sa) + p0 + [x] == Last(sa) + p;
    }
  }

  lemma SplitFree<T>(p: seq<T>, sep: T -> bool)
    requires FreeOf(p, sep)
    ensures Split(p, sep) == [p]
  {
    SplitExtend([], p, sep);
    assert [] + p == p;
  }

  /** Splitting at a separator: the pieces of `a + [x] + b` are the pieces
      of a followed by the pieces of b. */
  lemma {:induction false} SplitAt<T>(a: seq<T>, x: T, b: seq<T>, sep: T -> bool)
    requires sep(x)
    ensures Split(a + [x] + b, sep) == Split(a, sep) + Split(b, sep)
    decreases |b|
  {
    if b == [] {
      assert a + [x] + b == a + [x];
      SplitSnoc(a, x, sep);
    } else {
      var b0, y := DropLast(b), Last(b);
      SplitAt(a, x, b0, sep);
      SplitSnocAfter(a + [x] + b0, Split(a, sep), b0, y, sep);
      assert a + [x] + b == (a + [x] + b0) + [y] && b == b0 + [y];
    }
  }

  /** Appending one element to two sequences whose splits agree after a
      common prefix of pieces keeps them agreeing. */
  lemma SplitSnocAfter<T>(c: seq<T>, A: seq<seq<T>>, b: seq<T>, y: T, sep: T -> bool)
    requires Split(c, sep) == A + Split(b, sep)
    ensures Split(c + [y], sep) == A + Split(b + [y], sep)
  {
    SplitSnoc(c, y, sep);
    SplitSnoc(b, y, sep);
    var B := Split(b, sep);
    if !sep(y) {
      assert DropLast(A + B) == A + DropLast(B) && Last(A + B) == Last(B);
    }
  }

  /** One separator between two separator-free runs gives the two runs. */
  lemma SplitAround<T>(a: seq<T>, x: T, b: seq<T>, sep: T -> bool)
    requires FreeOf(a, sep) && sep(x) && FreeOf(b, sep)
    ensures Split(a + [x] + b, sep) == [a, b]
  {
    SplitFree(a, sep);
    SplitSnoc(a, x, sep);
    var s2 := Split(a + [x], sep);
    assert s2 == [a, []];
    SplitExtend(a + [x], b, sep);
    assert DropLast(s2) == [a] && Last(s2) + b == b;
  }

  // ---------------------------------------------------------------------
  // Join: `x.join(ps)` for a one-element separator x

  function Join<T>(ps: seq<seq<T>>, x: T): (r: seq<T>)
    decreases |ps|
  {
    if ps == [] then []
    else if |ps| == 1 then ps[0]
    else Join(DropLast(ps), x) + [x] + Last(ps)
  }

  /** The join is determined by the pieces and their number: its length is
      the total length of the pieces plus one separator between each two. */
  lemma {:induction false} JoinLength<T>(ps: seq<seq<T>>, x: T)
    ensures |Join(ps, x)| == |Flatten(ps)| + (if ps == [] then 0 else |ps| - 1)
    decreases |ps|
  {
    if |ps| == 1 {
      assert DropLast(ps) == [];
    } else if |ps| > 1 {
      JoinLength(DropLast(ps), x);
    }
  }

  /** Joining two non-empty lists of pieces is joining each and putting one
      separator between the two. */
  lemma {:induction false} JoinConcat<T>(a: seq<seq<T>>, b: seq<seq<T>>, x: T)
    requires a != [] && b != []
    ensures Join(a + b, x) == Join(a, x) + [x] + Join(b, x)
    decreases |b|
  {
    if |b| == 1 {
      assert DropLast(a + b) == a;
    } else {
      JoinConcat(a, DropLast(b), x);
      assert DropLast(a + b) == a + DropLast(b);
    }
  }

  /** Joining the joins of non-empty groups with the same separator is joining
      all their pieces at once: `x.join(x.join(g) for g in groups)`. */
  lemma {:induction false} JoinJoin<T>(groups: seq<seq<seq<T>>>, joined: seq<seq<T>>, x: T)
    requires |joined| == |groups|
    requires forall j :: 0 <= j < |groups| ==> groups[j] != [] && joined[j] == Join(groups[j], x)
    ensures Join(joined, x) == Join(Flatten(groups), x)
    decreases |groups|
  {
    if |groups| == 1 {
      assert DropLast(groups) == [];
      assert Flatten(groups) == groups[0];
    } else if |groups| > 1 {
      JoinJoin(DropLast(groups), DropLast(joined), x);
      assert Flatten(DropLast(groups)) != [] by {
        assert DropLast(groups) != [] && Last(DropLast(groups)) != [];
      }
      JoinConcat(Flatten(DropLast(groups)), Last(groups), x);
    }
  }

  /** Splitting a join at its separator gives back the pieces, provided no
      piece contains a separator (pieces may be empty). */
  lemma {:induction false} SplitJoin<T>(ps: seq<seq<T>>, x: T, sep: T -> bool)
    requires |ps| > 0 && sep(x)
    requires forall k :: 0 <= k < |ps| ==> FreeOf(ps[k], sep)
    ensures Split(Join(ps, x), sep) == ps
    decreases |ps|
  {
    if |ps| == 1 {
      SplitFree(ps[0], sep);
    } else {
      var init, last := DropLast(ps), Last(ps);
      var a := Join(init, x);
      var sx := Split(a + [x], sep);
      assert sx == init + [[]] by {
        SplitJoin(init, x, sep);
        SplitSnoc(a, x, sep);
      }
      assert Split(Join(ps, x), sep) == DropLast(sx) + [Last(sx) + last] by {
        assert FreeOf(last, sep);
        SplitExtend(a + [x], last, sep);
      }
      assert DropLast(sx) == init && Last(sx) + last == last;
      assert init + [last] == ps;
    }
  }

  // ---------------------------------------------------------------------
  // Counting and first occurrences

  /** Number of occurrences of x in s. */
  function Count<T(==)>(s: seq<T>, x: T): nat {
    if s == [] then 0 else Count(DropLast(s), x) + (if Last(s) == x then 1 else 0)
  }

  lemma {:induction false} CountPositive<T>(s: seq<T>, x: T)
    ensures Count(s, x) > 0 <==> x in s
    decreases |s|
  {
    if s != [] {
      CountPositive(DropLast(s), x);
      assert s == DropLast(s) + [Last(s)];
    }
  }

  /** The distinct elements of s in order of first occurrence: the key order
      of a Python dict filled by iterating over s. */
  function Distinct<T(==)>(s: seq<T>): (r: seq<T>)
    ensures forall i :: 0 <= i < |r| ==> r[i] in s
    ensures forall i :: 0 <= i < |s| ==> s[i] in r
  {
    if s == [] then []
    else if Last(s) in DropLast(s) then Distinct(DropLast(s))
    else Distinct(DropLast(s)) + [Last(s)]
  }

  predicate NoDuplicates<T(==)>(s: seq<T>) {
    forall i, j :: 0 <= i < j < |s| ==> s[i] != s[j]
  }

  /** The index of the first occurrence of x in s, or |s| when x is absent. */
  function IndexOf<T(==)>(s: seq<T>, x: T): (k: nat)
    ensures k <= |s|
    ensures k < |s| <==> x in s
    ensures k < |s| ==> s[k] == x && x !in s[..k]
  {
    if s == [] then 0
    else if x in DropLast(s) then IndexOf(DropLast(s), x)
    else if Last(s) == x then |s| - 1
    else |s|
  }

  /** In a list without duplicates an element's first occurrence is its
      position. */
  lemma IndexOfAt<T>(s: seq<T>, i: nat)
    requires NoDuplicates(s) && i < |s|
    ensures IndexOf(s, s[i]) == i
  {
    var k := IndexOf(s, s[i]);
    assert k <= i by {
      if k > i {
        assert false;
      }
    }
  }

  /** Distinct lists each element once, ordered by first occurrence. */
  lemma {:induction false} DistinctOrdered<T>(s: seq<T>)
    ensures NoDuplicates(Distinct(s))
    ensures forall i, j :: 0 <= i < j < |Distinct(s)| ==>
              IndexOf(s, Distinct(s)[i]) < IndexOf(s, Distinct(s)[j])
    decreases |s|
  {
    if s != [] {
      var d := Distinct(DropLast(s));
      DistinctOrdered(DropLast(s));
      forall x | x in DropLast(s) ensures IndexOf(s, x) == IndexOf(DropLast(s), x) { }
    }
  }

  /** Sum of positive-or-zero values of m over the listed keys. */
  function SumOver<K(==)>(keys: seq<K>, m: map<K, nat>): nat
    requires forall k :: k in keys ==> k in m
  {
    if keys == [] then 0 else SumOver(DropLast(keys), m) + m[Last(keys)]
  }

  lemma {:induction false} SumOverUnchanged<K>(keys: seq<K>, m: map<K, nat>, m': map<K, nat>)
    requires forall k :: k in keys ==> k in m && k in m' && m'[k] == m[k]
    ensures SumOver(keys, m') == SumOver(keys, m)
    decreases |keys|
  {
    if keys != [] {
      SumOverUnchanged(DropLast(keys), m, m');
    }
  }

  lemma SumOverAppend<K>(keys: seq<K>, m: map<K, nat>, x: K)
    requires forall k :: k in keys ==> k in m
    requires x in m
    ensures SumOver(keys + [x], m) == SumOver(keys, m) + m[x]
  {
    assert DropLast(keys + [x]) == keys;
  }

  /** Incrementing the value of one listed key raises the sum by one. */
  lemma {:induction false} SumOverIncrement<K>(keys: seq<K>, m: map<K, nat>, x: K)
    requires NoDuplicates(keys) && x in keys
    requires forall k :: k in keys ==> k in m
    ensures SumOver(keys, m[x := m[x] + 1]) == SumOver(keys, m) + 1
    decreases |keys|
  {
    var m' := m[x := m[x] + 1];
    if Last(keys) == x {
      assert x !in DropLast(keys);
      SumOverUnchanged(DropLast(keys), m, m');
    } else {
      assert x in DropLast(keys);
      SumOverIncrement(DropLast(keys), m, x);
    }
  }

  // ---------------------------------------------------------------------
  // Prefixes: Python slicing `s[:n]`

  function Take<T>(s: seq<T>, n: nat): (r: seq<T>)
    ensures |r| == if n <= |s| then n else |s|
    ensures r <= s
  {
    if n <= |s| then s[..n] else s
  }
}
