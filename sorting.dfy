/**
 * The list operations the rankers use on `(score, item)` pairs:
 * `xs.sort(reverse=True, key=lambda x: x[0])`, the slice `xs[:k]` and the
 * projection `[m for _, m in xs]`.
 */
module Sorting {

  datatype Scored<T> = Scored(score: real, item: T)

  /** Non-increasing in score. */
  predicate SortedDesc<T>(s: seq<Scored<T>>) {
    forall i, j :: 0 <= i < j < |s| ==> s[i].score >= s[j].score
  }

  predicate Distinct<T(==)>(s: seq<T>) {
    forall i, j :: 0 <= i < j < |s| ==> s[i] != s[j]
  }

  /** Inserts `x` after every element whose score is at least `x.score`, so
      that `x` stays behind the equal elements that came before it. */
  function InsertDesc<T>(s: seq<Scored<T>>, x: Scored<T>): (r: seq<Scored<T>>)
    ensures |r| == |s| + 1
    ensures multiset(r) == multiset(s) + multiset{x}
  {
    if s == [] then [x]
    else if s[0].score >= x.score then
      assert s == [s[0]] + s[1..];
      [s[0]] + InsertDesc(s[1..], x)
    else
      [x] + s
  }

  /** Inserting into a sorted sequence keeps it sorted. */
  lemma {:induction false} InsertDescSorted<T>(s: seq<Scored<T>>, x: Scored<T>)
    requires SortedDesc(s)
    ensures SortedDesc(InsertDesc(s, x))
  {
    if s != [] && s[0].score >= x.score {
      var tail := InsertDesc(s[1..], x);
      assert SortedDesc(tail) by {
        InsertDescSorted(s[1..], x);
      }
      assert forall k :: 0 <= k < |tail| ==> s[0].score >= tail[k].score by {
        forall k | 0 <= k < |tail|
          ensures s[0].score >= tail[k].score
        {
          HeadBounds(s, x, tail[k], multiset(tail));
        }
      }
      ConsSorted(s[0], tail);
    }
  }

  /** A head that scores at least every element of a sorted tail. */
  lemma ConsSorted<T>(h: Scored<T>, tail: seq<Scored<T>>)
    requires SortedDesc(tail)
    requires forall k :: 0 <= k < |tail| ==> h.score >= tail[k].score
    ensures SortedDesc([h] + tail)
  {
    var r := [h] + tail;
    forall i, j | 0 <= i < j < |r|
      ensures r[i].score >= r[j].score
    {
      assert r[j] == tail[j - 1];
      if i > 0 {
        assert r[i] == tail[i - 1];
      }
    }
  }

  /** An element of a permutation of `s[1..]` plus `x` scores at most the
      head of `s` when `x` does. */
  lemma HeadBounds<T>(s: seq<Scored<T>>, x: Scored<T>, y: Scored<T>, m: multiset<Scored<T>>)
    requires SortedDesc(s) && s != [] && s[0].score >= x.score
    requires m == multiset(s[1..]) + multiset{x} && y in m
    ensures s[0].score >= y.score
  {
    if y != x {
      assert y in s[1..];
      var j :| 0 <= j < |s[1..]| && s[1..][j] == y;
      assert s[j + 1] == y;
    }
  }

  /** A stable sort into non-increasing score order (Python's sort with
      `reverse=True` keeps equal keys in their original order). */
  function SortDesc<T>(s: seq<Scored<T>>): (r: seq<Scored<T>>)
    ensures SortedDesc(r)
    ensures multiset(r) == multiset(s)
    ensures |r| == |s|
  {
    if s == [] then []
    else
      var init := s[..|s| - 1];
      assert s == init + [s[|s| - 1]];
      InsertDescSorted(SortDesc(init), s[|s| - 1]);
      InsertDesc(SortDesc(init), s[|s| - 1])
  }

  /** The entries of `s` with score `v`, in their order in `s`. */
  function WithScore<T>(s: seq<Scored<T>>, v: real): seq<Scored<T>> {
    if s == [] then []
    else (if s[0].score == v then [s[0]] else []) + WithScore(s[1..], v)
  }

  lemma {:induction false} WithScoreConcat<T>(a: seq<Scored<T>>, b: seq<Scored<T>>, v: real)
    ensures WithScore(a + b, v) == WithScore(a, v) + WithScore(b, v)
    decreases |a|
  {
    if a == [] {
      assert a + b == b;
    } else {
      assert (a + b)[0] == a[0] && (a + b)[1..] == a[1..] + b;
      WithScoreConcat(a[1..], b, v);
    }
  }

  /** A sequence whose scores all lie below `v` has no entry with score `v`. */
  lemma {:induction false} WithScoreBelow<T>(s: seq<Scored<T>>, v: real)
    requires forall i :: 0 <= i < |s| ==> s[i].score < v
    ensures WithScore(s, v) == []
    decreases |s|
  {
    if s != [] {
      WithScoreBelow(s[1..], v);
    }
  }

  /** The entries with score `v` of a sequence with a given head. */
  lemma WithScoreCons<T>(h: Scored<T>, t: seq<Scored<T>>, v: real)
    ensures WithScore([h] + t, v) == WithScore([h], v) + WithScore(t, v)
  {
    assert ([h] + t)[1..] == t && [h][1..] == [];
  }

  /** Inserting `x` puts it behind every entry of equal score. */
  lemma {:induction false} InsertDescStable<T>(s: seq<Scored<T>>, x: Scored<T>, v: real)
    requires SortedDesc(s)
    ensures WithScore(InsertDesc(s, x), v) == WithScore(s, v) + WithScore([x], v)
    decreases |s|
  {
    if s == [] {
      assert [x] + [] == [x];
      WithScoreCons(x, [], v);
    } else if s[0].score >= x.score {
      var t := s[1..];
      assert s == [s[0]] + t;
      assert SortedDesc(t);
      assert InsertDesc(s, x) == [s[0]] + InsertDesc(t, x);
      InsertDescStable(t, x, v);
      WithScoreCons(s[0], InsertDesc(t, x), v);
      WithScoreCons(s[0], t, v);
    } else {
      assert InsertDesc(s, x) == [x] + s;
      WithScoreCons(x, s, v);
      if x.score == v {
        WithScoreBelow(s, v);
      }
    }
  }

  /** The sort is stable: for every score, the entries with that score come
      out in the order they went in. */
  lemma {:induction false} SortDescStable<T>(s: seq<Scored<T>>, v: real)
    ensures WithScore(SortDesc(s), v) == WithScore(s, v)
    decreases |s|
  {
    if s != [] {
      var init, last := s[..|s| - 1], s[|s| - 1];
      assert s == init + [last];
      SortDescStable(init, v);
      InsertDescStable(SortDesc(init), last, v);
      WithScoreConcat(init, [last], v);
    }
  }

  /** The length of the Python slice `xs[:k]` of a list of length `n`. */
  function SliceLen(n: nat, k: int): nat {
    if k >= 0 then (if k <= n then k else n)
    else if -k <= n then n + k else 0
  }

  /** The Python slice `s[:k]`, negative `k` included. */
  function SliceTo<T>(s: seq<T>, k: int): (r: seq<T>)
    ensures |r| == SliceLen(|s|, k)
    ensures r == s[..|r|]
  {
    s[..SliceLen(|s|, k)]
  }

  /** `[m for _, m in s]`. */
  function Items<T>(s: seq<Scored<T>>): (r: seq<T>)
    ensures |r| == |s|
    ensures forall i :: 0 <= i < |s| ==> r[i] == s[i].item
  {
    seq(|s|, i requires 0 <= i < |s| => s[i].item)
  }

  lemma ItemsConcat<T>(u: seq<Scored<T>>, v: seq<Scored<T>>)
    ensures Items(u + v) == Items(u) + Items(v)
  {
  }

  /** Reordering the pairs reorders the items the same way. */
  lemma {:induction false} ItemsPermutation<T>(a: seq<Scored<T>>, b: seq<Scored<T>>)
    requires multiset(a) == multiset(b)
    ensures multiset(Items(a)) == multiset(Items(b))
    decreases |a|
  {
    if a == [] {
      assert |b| == |multiset(b)| == 0;
    } else {
      var x := a[0];
      assert x in multiset(b);
      var p :| 0 <= p < |b| && b[p] == x;
      var b' := b[..p] + b[p + 1..];
      assert b == b[..p] + [x] + b[p + 1..];
      assert a == [x] + a[1..];
      assert multiset(b) == multiset(b[..p]) + multiset{x} + multiset(b[p + 1..]);
      assert multiset(a) == multiset{x} + multiset(a[1..]);
      assert multiset(b') == multiset(b[..p]) + multiset(b[p + 1..]);
      assert multiset(a[1..]) == multiset(a) - multiset{x};
      assert multiset(b') == multiset(b) - multiset{x};
      ItemsPermutation(a[1..], b');
      ItemsConcat([x], a[1..]);
      ItemsConcat(b[..p], b[p + 1..]);
      ItemsConcat(b[..p] + [x], b[p + 1..]);
      ItemsConcat(b[..p], [x]);
    }
  }

  lemma {:induction false} DistinctCount<T>(a: seq<T>, x: T)
    requires Distinct(a)
    ensures multiset(a)[x] <= 1
  {
    if a != [] {
      assert a == [a[0]] + a[1..];
      DistinctCount(a[1..], x);
      if a[0] == x {
        assert x !in a[1..];
      }
    }
  }

  /** A permutation of a sequence without repeated elements has none either. */
  lemma DistinctPermutation<T>(a: seq<T>, b: seq<T>)
    requires multiset(a) == multiset(b) && Distinct(a)
    ensures Distinct(b)
  {
    forall i, j | 0 <= i < j < |b|
      ensures b[i] != b[j]
    {
      if b[i] == b[j] {
        var x := b[i];
        assert b == b[..j] + [x] + b[j + 1..];
        assert x in b[..j];
        assert multiset(b)[x] >= 2;
        DistinctCount(a, x);
        assert false;
      }
    }
  }

  /** `scored` pairs each element of `xs`, in order, with its key. */
  ghost predicate PairsWith<T>(scored: seq<Scored<T>>, xs: seq<T>, key: T -> real) {
    |scored| == |xs| && forall j :: 0 <= j < |xs| ==> scored[j] == Scored(key(xs[j]), xs[j])
  }

  lemma SortedPairsKeepKeys<T>(xs: seq<T>, key: T -> real, scored: seq<Scored<T>>, sorted: seq<Scored<T>>)
    requires PairsWith(scored, xs, key) && multiset(sorted) == multiset(scored)
    ensures forall k :: 0 <= k < |sorted| ==> sorted[k].score == key(sorted[k].item)
  {
    forall k | 0 <= k < |sorted|
      ensures sorted[k].score == key(sorted[k].item)
    {
      assert sorted[k] in multiset(scored);
    }
  }

  /** Cutting a permutation of the pairs at `n` splits the items of `xs`. */
  lemma SplitItems<T>(xs: seq<T>, key: T -> real, scored: seq<Scored<T>>, sorted: seq<Scored<T>>, n: nat)
    requires PairsWith(scored, xs, key) && multiset(sorted) == multiset(scored)
    requires n <= |sorted|
    ensures multiset(xs) == multiset(Items(sorted[..n])) + multiset(Items(sorted[n..]))
  {
    assert Items(scored) == xs;
    ItemsPermutation(sorted, scored);
    assert sorted == sorted[..n] + sorted[n..];
    ItemsConcat(sorted[..n], sorted[n..]);
  }

  /** In a sorted sequence whose scores are the keys of its items, no item
      after position `n` has a larger key than one before it. */
  lemma CutRanksBelow<T>(key: T -> real, sorted: seq<Scored<T>>, n: nat)
    requires SortedDesc(sorted) && n <= |sorted|
    requires forall k :: 0 <= k < |sorted| ==> sorted[k].score == key(sorted[k].item)
    ensures forall m, i :: m in Items(sorted[n..]) && 0 <= i < n ==> key(m) <= key(sorted[i].item)
  {
    forall m, i | m in Items(sorted[n..]) && 0 <= i < n
      ensures key(m) <= key(sorted[i].item)
    {
      var rest := Items(sorted[n..]);
      var p :| 0 <= p < |rest| && rest[p] == m;
      assert sorted[n + p].item == m;
    }
  }

  /** Sorting `(key, x)` pairs and keeping the first `n` items yields items
      of `xs` (no new ones, none more often than in `xs`), in non-increasing
      key order, none of them ranked below an item that was cut. */
  lemma TopOfSorted<T>(xs: seq<T>, key: T -> real, scored: seq<Scored<T>>, sorted: seq<Scored<T>>, n: nat)
    requires PairsWith(scored, xs, key)
    requires SortedDesc(sorted) && multiset(sorted) == multiset(scored)
    requires n <= |sorted|
    ensures var top := Items(sorted[..n]);
      && multiset(top) <= multiset(xs)
      && (forall i, j :: 0 <= i < j < |top| ==> key(top[i]) >= key(top[j]))
      && (forall m, i :: m in multiset(xs) - multiset(top) && 0 <= i < |top| ==> key(m) <= key(top[i]))
  {
    var top := Items(sorted[..n]);
    var rest := Items(sorted[n..]);
    assert multiset(top) <= multiset(xs) && multiset(xs) - multiset(top) == multiset(rest) by {
      SplitItems(xs, key, scored, sorted, n);
    }
    assert forall k :: 0 <= k < |sorted| ==> sorted[k].score == key(sorted[k].item) by {
      SortedPairsKeepKeys(xs, key, scored, sorted);
    }
    assert forall i, j :: 0 <= i < j < |top| ==> key(top[i]) >= key(top[j]);
    assert forall m, i :: m in rest && 0 <= i < |top| ==> key(m) <= key(top[i]) by {
      CutRanksBelow(key, sorted, n);
    }
  }
}
