/**
 * `retrieval_hybrid.py`: max-normalisation of a score map and the weighted
 * fusion of the vector-store and keyword-store hit lists, which are given
 * as inputs (they are what `retrieve(query)` and `search_es(query)` return).
 */
module Hybrid {
  import opened Sorting
  import opened Retrieval

  /** The defaults of `hybrid_retrieve(query, k=5, alpha=0.6)`. */
  const DefaultK: int := 5
  const DefaultAlpha: real := 0.6

  /** The ids occurring in a hit list. */
  function Ids(hits: seq<Hit>): set<string> {
    set h | h in hits :: h.id
  }

  lemma IdsSnoc(hits: seq<Hit>, h: Hit)
    ensures Ids(hits + [h]) == Ids(hits) + {h.id}
  {
    assert forall x :: x in hits + [h] <==> x in hits || x == h;
  }

  // ---------------------------------------------------------------------
  // The two dict comprehensions over a hit list

  /** `{h["id"]: h for h in hits}`: a later hit with the same id replaces an
      earlier one. */
  function HitMap(hits: seq<Hit>): (m: map<string, Hit>)
    ensures m.Keys == Ids(hits)
    ensures forall id :: id in m ==> m[id].id == id && m[id] in hits
  {
    if hits == [] then map[]
    else
      var init, last := hits[..|hits| - 1], hits[|hits| - 1];
      assert hits == init + [last];
      IdsSnoc(init, last);
      HitMap(init)[last.id := last]
  }

  /** `{h["id"]: h["score"] for h in hits}`. */
  function ScoreMap(hits: seq<Hit>): (m: map<string, real>)
    ensures m.Keys == Ids(hits)
  {
    if hits == [] then map[]
    else
      var init, last := hits[..|hits| - 1], hits[|hits| - 1];
      assert hits == init + [last];
      IdsSnoc(init, last);
      ScoreMap(init)[last.id := last.score]
  }

  /** The last hit with a given id is the one both maps keep. */
  lemma {:induction false} LastHitWins(hits: seq<Hit>, i: nat)
    requires i < |hits|
    requires forall j :: i < j < |hits| ==> hits[j].id != hits[i].id
    ensures HitMap(hits)[hits[i].id] == hits[i]
    ensures ScoreMap(hits)[hits[i].id] == hits[i].score
  {
    if i < |hits| - 1 {
      LastHitWins(hits[..|hits| - 1], i);
    }
  }

  /** The score map holds the score of the hit the hit map keeps. */
  lemma {:induction false} ScoreMapAgrees(hits: seq<Hit>, id: string)
    requires id in Ids(hits)
    ensures ScoreMap(hits)[id] == HitMap(hits)[id].score
  {
    var init, last := hits[..|hits| - 1], hits[|hits| - 1];
    if id != last.id {
      assert hits == init + [last];
      IdsSnoc(init, last);
      ScoreMapAgrees(init, id);
    }
  }

  // ---------------------------------------------------------------------
  // normalize

  /** A non-empty set has an element. */
  lemma HasElem<T>(s: set<T>)
    requires s != {}
    ensures exists x :: x in s
  {
    if forall x :: x !in s {
      assert false;
    }
  }

  /** Some element of a non-empty set. */
  lemma ElementOf<T>(s: set<T>) returns (x: T)
    requires s != {}
    ensures x in s
  {
    HasElem(s);
    x :| x in s;
  }

  /** A non-empty finite set of reals has a largest element. */
  lemma {:induction false} MaxExists(s: set<real>)
    requires s != {}
    ensures exists x :: x in s && forall y :: y in s ==> y <= x
  {
    var x := ElementOf(s);
    if s != {x} {
      var rest := s - {x};
      assert |rest| < |s|;
      MaxExists(rest);
      var m :| m in rest && forall y :: y in rest ==> y <= m;
      var top := if x <= m then m else x;
      forall y | y in s
        ensures y <= top
      {
        if y != x {
          assert y in rest;
        }
      }
      assert top in s;
    } else {
      assert forall y :: y in s ==> y == x;
    }
  }

  /** `max(s)`. */
  function MaxOf(s: set<real>): (r: real)
    requires s != {}
    ensures r in s && forall y :: y in s ==> y <= r
  {
    MaxExists(s);
    var x :| x in s && forall y :: y in s ==> y <= x;
    x
  }

  /** `max(scores.values())`. */
  function Top(m: map<string, real>): (r: real)
    requires m != map[]
    ensures forall k :: k in m ==> m[k] <= r
  {
    var r := MaxOf(m.Values);
    assert forall k :: k in m ==> m[k] in m.Values;
    r
  }

  /** Some entry holds the largest score. */
  lemma TopAttained(m: map<string, real>)
    requires m != map[]
    ensures exists k :: k in m && m[k] == Top(m)
  {
    assert Top(m) in m.Values;
  }

  /** `normalize(scores)`: every score divided by the largest one, the map
      unchanged when that is 0, and `{}` for `{}`. */
  function Normalize(m: map<string, real>): (r: map<string, real>)
    ensures r.Keys == m.Keys
  {
    if m == map[] then map[]
    else
      var mx := Top(m);
      if mx == 0.0 then m else map k | k in m :: m[k] / mx
  }

  lemma NormalizeAt(m: map<string, real>, k: string)
    requires k in m && Top(m) != 0.0
    ensures Normalize(m)[k] == m[k] / Top(m)
  {
  }

  lemma DivPositive(a: real, b: real, d: real)
    requires d > 0.0
    ensures a <= b <==> a / d <= b / d
    ensures a / d == 1.0 <==> a == d
    ensures a <= d ==> a / d <= 1.0
    ensures a >= 0.0 ==> a / d >= 0.0
  {
    var x, y := a / d, b / d;
    assert a == x * d && b == y * d;
    assert b - a == (y - x) * d;
    assert d - a == (1.0 - x) * d;
  }

  lemma DivNegative(a: real, b: real, d: real)
    requires d < 0.0
    ensures a <= b <==> a / d >= b / d
    ensures a / d == 1.0 <==> a == d
    ensures a <= d ==> a / d >= 1.0
  {
    var x, y := a / d, b / d;
    assert a == x * d && b == y * d;
    assert b - a == (y - x) * d;
    assert d - a == (1.0 - x) * d;
  }

  /** With no positive score and some score equal to 0, the maximum is 0
      and the scores come back unchanged. */
  lemma NormalizeZeroMax(m: map<string, real>, z: string)
    requires z in m && m[z] == 0.0
    requires forall k :: k in m ==> m[k] <= 0.0
    ensures Normalize(m) == m
  {
    assert Top(m) >= m[z];
    TopAttained(m);
  }

  /** With a positive maximum, every normalized score is at most 1, exactly
      the maximal entries become 1, the order of the scores is kept, and
      non-negative scores stay non-negative. */
  lemma NormalizePositiveMax(m: map<string, real>)
    requires m != map[] && Top(m) > 0.0
    ensures forall k :: k in m ==> Normalize(m)[k] <= 1.0
    ensures forall k :: k in m ==> (Normalize(m)[k] == 1.0 <==> m[k] == Top(m))
    ensures forall a, b :: a in m && b in m ==> (m[a] <= m[b] <==> Normalize(m)[a] <= Normalize(m)[b])
    ensures forall k :: k in m && m[k] >= 0.0 ==> Normalize(m)[k] >= 0.0
  {
    var mx := Top(m);
    forall a, b | a in m && b in m
      ensures Normalize(m)[a] <= 1.0 && (Normalize(m)[a] == 1.0 <==> m[a] == mx)
      ensures m[a] <= m[b] <==> Normalize(m)[a] <= Normalize(m)[b]
      ensures m[a] >= 0.0 ==> Normalize(m)[a] >= 0.0
    {
      NormalizeAt(m, a);
      NormalizeAt(m, b);
      DivPositive(m[a], m[b], mx);
    }
  }

  /** With a negative maximum (every score negative), every normalized
      score is at least 1 and the order of the scores is reversed: the
      best hit ends up with the smallest value, which is 1. */
  lemma NormalizeNegativeMax(m: map<string, real>)
    requires m != map[] && Top(m) < 0.0
    ensures forall k :: k in m ==> Normalize(m)[k] >= 1.0
    ensures forall k :: k in m ==> (Normalize(m)[k] == 1.0 <==> m[k] == Top(m))
    ensures forall a, b :: a in m && b in m ==> (m[a] <= m[b] <==> Normalize(m)[a] >= Normalize(m)[b])
  {
    var mx := Top(m);
    forall a, b | a in m && b in m
      ensures Normalize(m)[a] >= 1.0 && (Normalize(m)[a] == 1.0 <==> m[a] == mx)
      ensures m[a] <= m[b] <==> Normalize(m)[a] >= Normalize(m)[b]
    {
      NormalizeAt(m, a);
      NormalizeAt(m, b);
      DivNegative(m[a], m[b], mx);
    }
  }

  // ---------------------------------------------------------------------
  // Fusion, over the two normalized score maps `ps`, `ks` and the two hit
  // maps `pm`, `em`

  /** `scores.get(vid, 0)`. */
  function Get(m: map<string, real>, id: string): real {
    if id in m then m[id] else 0.0
  }

  /** `alpha * ps + (1 - alpha) * ks`, with 0 for an id a map lacks. */
  function Fused(ps: map<string, real>, ks: map<string, real>, alpha: real, id: string): real {
    alpha * Get(ps, id) + (1.0 - alpha) * Get(ks, id)
  }

  /** `pine_map.get(vid) or es_map.get(vid)`: a hit is a non-empty dict, so
      the vector hit is taken whenever there is one. */
  function Pick(pm: map<string, Hit>, em: map<string, Hit>, id: string): Hit
    requires id in pm.Keys + em.Keys
  {
    if id in pm then pm[id] else em[id]
  }

  /** With `alpha = 1` only the vector score counts (0 for an id only the
      keyword store returned); with `alpha = 0` only the keyword score. */
  lemma AlphaExtremes(ps: map<string, real>, ks: map<string, real>, id: string)
    ensures Fused(ps, ks, 1.0, id) == Get(ps, id)
    ensures Fused(ps, ks, 0.0, id) == Get(ks, id)
    ensures id !in ps ==> Fused(ps, ks, 1.0, id) == 0.0
    ensures id !in ks ==> Fused(ps, ks, 0.0, id) == 0.0
  {
  }

  lemma WeightedAtMostOne(alpha: real, x: real, y: real)
    requires 0.0 <= alpha <= 1.0 && x <= 1.0 && y <= 1.0
    ensures alpha * x + (1.0 - alpha) * y <= 1.0
  {
    assert alpha * (1.0 - x) >= 0.0;
    assert (1.0 - alpha) * (1.0 - y) >= 0.0;
  }

  /** A normalized score of a map whose best score is positive is at most 1
      (0 for a missing id), and it is 1 for a best-scored id. */
  lemma NormalizedAtMostOne(m: map<string, real>, id: string)
    requires m != map[] ==> Top(m) > 0.0
    ensures Get(Normalize(m), id) <= 1.0
    ensures id in m && m[id] == Top(m) ==> Get(Normalize(m), id) == 1.0
  {
    if id in m {
      NormalizeAt(m, id);
      DivPositive(m[id], m[id], Top(m));
    }
  }

  /** For `0 <= alpha <= 1`, when each store's best raw score is positive,
      no fused score exceeds 1, and an id that both stores score at their
      best gets exactly 1. */
  lemma FusedBounds(sp: map<string, real>, se: map<string, real>, alpha: real, id: string)
    requires 0.0 <= alpha <= 1.0
    requires sp != map[] ==> Top(sp) > 0.0
    requires se != map[] ==> Top(se) > 0.0
    ensures Fused(Normalize(sp), Normalize(se), alpha, id) <= 1.0
    ensures id in sp && id in se && sp[id] == Top(sp) && se[id] == Top(se) ==>
              Fused(Normalize(sp), Normalize(se), alpha, id) == 1.0
  {
    NormalizedAtMostOne(sp, id);
    NormalizedAtMostOne(se, id);
    WeightedAtMostOne(alpha, Get(Normalize(sp), id), Get(Normalize(se), id));
  }

  /** With `alpha = 1`, two ids the vector store returned are fused in the
      order of their raw vector scores when the best of those is positive;
      with `alpha = 0` the same holds for the keyword store. */
  lemma AlphaExtremesKeepOrder(sp: map<string, real>, se: map<string, real>, a: string, b: string)
    ensures a in sp && b in sp && Top(sp) > 0.0 ==>
              (sp[a] <= sp[b] <==> Fused(Normalize(sp), Normalize(se), 1.0, a) <= Fused(Normalize(sp), Normalize(se), 1.0, b))
    ensures a in se && b in se && Top(se) > 0.0 ==>
              (se[a] <= se[b] <==> Fused(Normalize(sp), Normalize(se), 0.0, a) <= Fused(Normalize(sp), Normalize(se), 0.0, b))
  {
    if a in sp && b in sp && Top(sp) > 0.0 {
      NormalizePositiveMax(sp);
    }
    if a in se && b in se && Top(se) > 0.0 {
      NormalizePositiveMax(se);
    }
  }

  // ---------------------------------------------------------------------
  // hybrid_retrieve

  /** An entry `(score, item)` of `merged` as the loop appends it for `id`. */
  ghost predicate Entry(ps: map<string, real>, ks: map<string, real>, pm: map<string, Hit>, em: map<string, Hit>,
                        alpha: real, e: Scored<Hit>)
  {
    var id := e.item.id;
    id in pm.Keys + em.Keys && e == Scored(Fused(ps, ks, alpha, id), Pick(pm, em, id))
  }

  /** The ids of the items of `merged`. */
  ghost function MergedIds(merged: seq<Scored<Hit>>): set<string> {
    if merged == [] then {} else MergedIds(merged[..|merged| - 1]) + {merged[|merged| - 1].item.id}
  }

  lemma MergedIdsSnoc(merged: seq<Scored<Hit>>, e: Scored<Hit>)
    ensures MergedIds(merged + [e]) == MergedIds(merged) + {e.item.id}
  {
    assert (merged + [e])[..|merged|] == merged;
  }

  lemma {:induction false} MergedIdsMembers(merged: seq<Scored<Hit>>)
    ensures forall j :: 0 <= j < |merged| ==> merged[j].item.id in MergedIds(merged)
    ensures forall id :: id in MergedIds(merged) ==> exists j :: 0 <= j < |merged| && merged[j].item.id == id
  {
    if merged != [] {
      var init := merged[..|merged| - 1];
      MergedIdsMembers(init);
      assert forall j :: 0 <= j < |init| ==> init[j] == merged[j];
    }
  }

  /** Hit maps: every hit is filed under its own id. */
  ghost predicate FiledById(pm: map<string, Hit>) {
    forall id :: id in pm ==> pm[id].id == id
  }

  /** The loop over `all_ids` part way: `merged` holds one entry for each
      id already taken out of `remaining`. */
  ghost predicate Progress(ps: map<string, real>, ks: map<string, real>, pm: map<string, Hit>, em: map<string, Hit>,
                           alpha: real, merged: seq<Scored<Hit>>, remaining: set<string>)
  {
    && FiledById(pm) && FiledById(em)
    && remaining <= pm.Keys + em.Keys
    && |merged| + |remaining| == |pm.Keys + em.Keys|
    && (forall j :: 0 <= j < |merged| ==> Entry(ps, ks, pm, em, alpha, merged[j]))
    && (forall i, j :: 0 <= i < j < |merged| ==> merged[i].item.id != merged[j].item.id)
    && MergedIds(merged) + remaining == pm.Keys + em.Keys
    && MergedIds(merged) !! remaining
  }

  lemma ProgressStart(ps: map<string, real>, ks: map<string, real>, pm: map<string, Hit>, em: map<string, Hit>,
                      alpha: real)
    requires FiledById(pm) && FiledById(em)
    ensures Progress(ps, ks, pm, em, alpha, [], pm.Keys + em.Keys)
  {
  }

  lemma ProgressStep(ps: map<string, real>, ks: map<string, real>, pm: map<string, Hit>, em: map<string, Hit>,
                     alpha: real, merged: seq<Scored<Hit>>, remaining: set<string>, vid: string)
    requires Progress(ps, ks, pm, em, alpha, merged, remaining) && vid in remaining
    ensures Progress(ps, ks, pm, em, alpha, merged + [Scored(Fused(ps, ks, alpha, vid), Pick(pm, em, vid))], remaining - {vid})
  {
    assert Pick(pm, em, vid).id == vid;
    StepKeepsEntries(ps, ks, pm, em, alpha, merged, remaining, vid);
    StepKeepsIdsApart(ps, ks, pm, em, alpha, merged, remaining, vid);
    StepKeepsPartition(merged, remaining, Scored(Fused(ps, ks, alpha, vid), Pick(pm, em, vid)), pm.Keys + em.Keys);
  }

  /** Moving `vid` from `remaining` to the ids of `merged` keeps the
      partition of the union and the count. */
  lemma StepKeepsPartition(merged: seq<Scored<Hit>>, remaining: set<string>, e: Scored<Hit>, all: set<string>)
    requires MergedIds(merged) + remaining == all && MergedIds(merged) !! remaining
    requires |merged| + |remaining| == |all|
    requires e.item.id in remaining
    ensures MergedIds(merged + [e]) + (remaining - {e.item.id}) == all
    ensures MergedIds(merged + [e]) !! (remaining - {e.item.id})
    ensures |merged + [e]| + |remaining - {e.item.id}| == |all|
  {
    MergedIdsSnoc(merged, e);
  }

  lemma StepKeepsEntries(ps: map<string, real>, ks: map<string, real>, pm: map<string, Hit>, em: map<string, Hit>,
                         alpha: real, merged: seq<Scored<Hit>>, remaining: set<string>, vid: string)
    requires Progress(ps, ks, pm, em, alpha, merged, remaining) && vid in remaining
    ensures var m := merged + [Scored(Fused(ps, ks, alpha, vid), Pick(pm, em, vid))];
      forall j :: 0 <= j < |m| ==> Entry(ps, ks, pm, em, alpha, m[j])
  {
  }

  lemma StepKeepsIdsApart(ps: map<string, real>, ks: map<string, real>, pm: map<string, Hit>, em: map<string, Hit>,
                          alpha: real, merged: seq<Scored<Hit>>, remaining: set<string>, vid: string)
    requires Progress(ps, ks, pm, em, alpha, merged, remaining) && vid in remaining
    ensures var m := merged + [Scored(Fused(ps, ks, alpha, vid), Pick(pm, em, vid))];
      forall i, j :: 0 <= i < j < |m| ==> m[i].item.id != m[j].item.id
  {
    MergedIdsMembers(merged);
  }

  /** Distinct items that are all picks of their own ids have distinct ids. */
  lemma PicksHaveDistinctIds(pm: map<string, Hit>, em: map<string, Hit>, top: seq<Hit>)
    requires forall i :: 0 <= i < |top| ==> top[i].id in pm.Keys + em.Keys && top[i] == Pick(pm, em, top[i].id)
    requires Distinct(top)
    ensures DistinctIds(top)
  {
  }

  /** Some hit of the list carries `id`. */
  predicate Listed(hits: seq<Hit>, id: string) {
    exists j :: 0 <= j < |hits| && hits[j].id == id
  }

  /** No two hits of a list have the same id. */
  predicate DistinctIds(hits: seq<Hit>) {
    forall i, j :: 0 <= i < j < |hits| ==> hits[i].id != hits[j].id
  }

  /** A prefix of a sorted permutation of distinct items is distinct. */
  lemma TopDistinct(xs: seq<Hit>, sorted: seq<Scored<Hit>>, n: nat)
    requires Distinct(xs) && multiset(Items(sorted)) == multiset(xs)
    requires n <= |sorted|
    ensures Distinct(Items(sorted[..n]))
  {
    DistinctPermutation(xs, Items(sorted));
    assert forall i :: 0 <= i < n ==> Items(sorted[..n])[i] == Items(sorted)[i];
  }

  /** Every entry of a complete `merged` is keyed by its fused score, and
      its items are distinct. */
  lemma MergedPairs(ps: map<string, real>, ks: map<string, real>, pm: map<string, Hit>, em: map<string, Hit>,
                    alpha: real, merged: seq<Scored<Hit>>)
    requires Progress(ps, ks, pm, em, alpha, merged, {})
    ensures PairsWith(merged, Items(merged), (h: Hit) => Fused(ps, ks, alpha, h.id))
    ensures Distinct(Items(merged))
  {
  }

  /** Each kept item is an entry of `merged`. */
  lemma TopArePicks(ps: map<string, real>, ks: map<string, real>, pm: map<string, Hit>, em: map<string, Hit>,
                    alpha: real, merged: seq<Scored<Hit>>, top: seq<Hit>)
    requires Progress(ps, ks, pm, em, alpha, merged, {})
    requires multiset(top) <= multiset(Items(merged))
    ensures forall i :: 0 <= i < |top| ==> top[i].id in pm.Keys + em.Keys && top[i] == Pick(pm, em, top[i].id)
  {
    var xs := Items(merged);
    forall i | 0 <= i < |top|
      ensures top[i].id in pm.Keys + em.Keys && top[i] == Pick(pm, em, top[i].id)
    {
      assert top[i] in multiset(xs);
      var j :| 0 <= j < |xs| && xs[j] == top[i];
      assert Entry(ps, ks, pm, em, alpha, merged[j]);
    }
  }

  /** An id left out of the kept items has its pick among the cut ones. */
  lemma MissingIdWasCut(ps: map<string, real>, ks: map<string, real>, pm: map<string, Hit>, em: map<string, Hit>,
                        alpha: real, merged: seq<Scored<Hit>>, top: seq<Hit>, id: string)
    requires Progress(ps, ks, pm, em, alpha, merged, {})
    requires id in pm.Keys + em.Keys && !Listed(top, id)
    ensures Pick(pm, em, id) in multiset(Items(merged)) - multiset(top)
  {
    MergedIdsMembers(merged);
    var j :| 0 <= j < |merged| && merged[j].item.id == id;
    assert Entry(ps, ks, pm, em, alpha, merged[j]);
    var h := Items(merged)[j];
    assert h in multiset(Items(merged));
    assert h !in multiset(top);
  }

  /** The kept items are hits picked for ids of the union. */
  lemma FusedTopArePicks(ps: map<string, real>, ks: map<string, real>, pm: map<string, Hit>, em: map<string, Hit>,
                         alpha: real, merged: seq<Scored<Hit>>, k: int, top: seq<Hit>, all: set<string>)
    requires Progress(ps, ks, pm, em, alpha, merged, {})
    requires top == Items(SliceTo(SortDesc(merged), k))
    requires all == pm.Keys + em.Keys
    ensures forall i :: 0 <= i < |top| ==> top[i].id in all && top[i] == Pick(pm, em, top[i].id)
  {
    var key := (h: Hit) => Fused(ps, ks, alpha, h.id);
    var sorted := SortDesc(merged);
    var n := SliceLen(|merged|, k);
    assert SliceTo(sorted, k) == sorted[..n];
    MergedPairs(ps, ks, pm, em, alpha, merged);
    TopOfSorted(Items(merged), key, merged, sorted, n);
    TopArePicks(ps, ks, pm, em, alpha, merged, top);
  }

  /** No id is kept twice. */
  lemma FusedTopDistinct(ps: map<string, real>, ks: map<string, real>, pm: map<string, Hit>, em: map<string, Hit>,
                         alpha: real, merged: seq<Scored<Hit>>, k: int, top: seq<Hit>)
    requires Progress(ps, ks, pm, em, alpha, merged, {})
    requires top == Items(SliceTo(SortDesc(merged), k))
    ensures DistinctIds(top)
  {
    var key := (h: Hit) => Fused(ps, ks, alpha, h.id);
    var sorted := SortDesc(merged);
    var n := SliceLen(|merged|, k);
    assert SliceTo(sorted, k) == sorted[..n];
    MergedPairs(ps, ks, pm, em, alpha, merged);
    TopOfSorted(Items(merged), key, merged, sorted, n);
    TopArePicks(ps, ks, pm, em, alpha, merged, top);
    ItemsPermutation(sorted, merged);
    TopDistinct(Items(merged), sorted, n);
    PicksHaveDistinctIds(pm, em, top);
  }

  /** The kept items are in non-increasing fused score. */
  lemma FusedTopOrdered(ps: map<string, real>, ks: map<string, real>, pm: map<string, Hit>, em: map<string, Hit>,
                         alpha: real, merged: seq<Scored<Hit>>, k: int, top: seq<Hit>)
    requires Progress(ps, ks, pm, em, alpha, merged, {})
    requires top == Items(SliceTo(SortDesc(merged), k))
    ensures forall i, j :: 0 <= i < j < |top| ==> Fused(ps, ks, alpha, top[i].id) >= Fused(ps, ks, alpha, top[j].id)
  {
    var key := (h: Hit) => Fused(ps, ks, alpha, h.id);
    var sorted := SortDesc(merged);
    var n := SliceLen(|merged|, k);
    assert SliceTo(sorted, k) == sorted[..n];
    MergedPairs(ps, ks, pm, em, alpha, merged);
    TopOfSorted(Items(merged), key, merged, sorted, n);
  }

  /** No id that was cut has a higher fused score than a kept one. */
  lemma FusedTopBest(ps: map<string, real>, ks: map<string, real>, pm: map<string, Hit>, em: map<string, Hit>,
                         alpha: real, merged: seq<Scored<Hit>>, k: int, top: seq<Hit>, all: set<string>)
    requires Progress(ps, ks, pm, em, alpha, merged, {})
    requires top == Items(SliceTo(SortDesc(merged), k))
    requires all == pm.Keys + em.Keys
    ensures forall id, i :: id in all && !Listed(top, id) && 0 <= i < |top| ==>
              Fused(ps, ks, alpha, id) <= Fused(ps, ks, alpha, top[i].id)
  {
    var key := (h: Hit) => Fused(ps, ks, alpha, h.id);
    var sorted := SortDesc(merged);
    var n := SliceLen(|merged|, k);
    assert SliceTo(sorted, k) == sorted[..n];
    MergedPairs(ps, ks, pm, em, alpha, merged);
    TopOfSorted(Items(merged), key, merged, sorted, n);
    forall id, i | id in all && !Listed(top, id) && 0 <= i < |top|
      ensures Fused(ps, ks, alpha, id) <= Fused(ps, ks, alpha, top[i].id)
    {
      MissingIdWasCut(ps, ks, pm, em, alpha, merged, top, id);
      var h := Pick(pm, em, id);
      assert key(h) <= key(top[i]);
      assert h.id == id;
    }
  }

  /** `hybrid_retrieve(query, k, alpha)` with the two hit lists given: fuse
      the normalized scores over the union of ids, sort by fused score and
      keep the first `k` (Python slice semantics, so a negative `k` drops
      entries from the end). */
  method HybridRetrieve(pine: seq<Hit>, es: seq<Hit>, k: int, alpha: real) returns (out: seq<Hit>)
    ensures |out| == SliceLen(|Ids(pine) + Ids(es)|, k)
    ensures forall i :: 0 <= i < |out| ==>
              out[i].id in Ids(pine) + Ids(es) && out[i] == Pick(HitMap(pine), HitMap(es), out[i].id)
    ensures DistinctIds(out)
    ensures forall i, j :: 0 <= i < j < |out| ==>
              Fused(Normalize(ScoreMap(pine)), Normalize(ScoreMap(es)), alpha, out[i].id)
                >= Fused(Normalize(ScoreMap(pine)), Normalize(ScoreMap(es)), alpha, out[j].id)
    ensures forall id, i :: id in Ids(pine) + Ids(es) && !Listed(out, id) && 0 <= i < |out| ==>
              Fused(Normalize(ScoreMap(pine)), Normalize(ScoreMap(es)), alpha, id)
                <= Fused(Normalize(ScoreMap(pine)), Normalize(ScoreMap(es)), alpha, out[i].id)
    ensures k == DefaultK ==> |out| <= 5 && (|out| == 5 || |out| == |Ids(pine) + Ids(es)|)
    ensures alpha == DefaultAlpha && PositiveTop(ScoreMap(pine)) && PositiveTop(ScoreMap(es)) ==>
              forall i :: 0 <= i < |out| ==> Fused(Normalize(ScoreMap(pine)), Normalize(ScoreMap(es)), alpha, out[i].id) <= 1.0
  {
    var pineScores := Normalize(ScoreMap(pine));
    var esScores := Normalize(ScoreMap(es));
    var pineMap := HitMap(pine);
    var esMap := HitMap(es);
    assert pineMap.Keys + esMap.Keys == Ids(pine) + Ids(es);
    var merged := Merge(pineScores, esScores, pineMap, esMap, alpha);
    var sorted := SortDesc(merged);
    out := Items(SliceTo(sorted, k));
    FusedTopArePicks(pineScores, esScores, pineMap, esMap, alpha, merged, k, out, Ids(pine) + Ids(es));
    FusedTopDistinct(pineScores, esScores, pineMap, esMap, alpha, merged, k, out);
    FusedTopOrdered(pineScores, esScores, pineMap, esMap, alpha, merged, k, out);
    FusedTopBest(pineScores, esScores, pineMap, esMap, alpha, merged, k, out, Ids(pine) + Ids(es));
    if alpha == DefaultAlpha && PositiveTop(ScoreMap(pine)) && PositiveTop(ScoreMap(es)) {
      forall i | 0 <= i < |out|
        ensures Fused(pineScores, esScores, alpha, out[i].id) <= 1.0
      {
        FusedBounds(ScoreMap(pine), ScoreMap(es), alpha, out[i].id);
      }
    }
  }

  /** The best raw score of a non-empty score map is positive. */
  predicate PositiveTop(m: map<string, real>) {
    m != map[] ==> Top(m) > 0.0
  }

  /** The loop over `all_ids`: one `(fused score, picked hit)` entry per id
      of the union, each id once, in whatever order the set yields them. */
  method Merge(ps: map<string, real>, ks: map<string, real>, pm: map<string, Hit>, em: map<string, Hit>,
               alpha: real) returns (merged: seq<Scored<Hit>>)
    requires ps.Keys == pm.Keys && ks.Keys == em.Keys
    requires FiledById(pm) && FiledById(em)
    ensures Progress(ps, ks, pm, em, alpha, merged, {})
  {
    var all := ps.Keys + ks.Keys;
    merged := [];
    var remaining := all;
    ProgressStart(ps, ks, pm, em, alpha);
    while remaining != {}
      invariant Progress(ps, ks, pm, em, alpha, merged, remaining)
      decreases |remaining|
    {
      HasElem(remaining);
      var vid :| vid in remaining;
      var score := Fused(ps, ks, alpha, vid);
      var item := Pick(pm, em, vid);
      ProgressStep(ps, ks, pm, em, alpha, merged, remaining, vid);
      merged := merged + [Scored(score, item)];
      remaining := remaining - {vid};
    }
  }
}
