/**
 * `retrieval.py`: the citation boost and the top-5 cut of `retrieve`, with
 * the vector-store matches (`res["matches"]`) given as input.
 */
module Retrieval {
  import opened Text
  import opened Sorting
  import opened Citation

  /** A match from either backend: its id, its score and its metadata. */
  datatype Hit = Hit(id: string, score: real, metadata: map<string, string>)

  /** The bonus for each extracted term found in a match's text. */
  const Boost: real := 0.25

  /** How many matches `retrieve` returns. */
  const TopN: nat := 5

  /** `m["metadata"].get("text", "")`. */
  function TextOf(h: Hit): string {
    if "text" in h.metadata then h.metadata["text"] else ""
  }

  /** The number of terms, counted with multiplicity, that occur in `text`. */
  function CountContained(terms: seq<string>, text: string): (n: nat)
    ensures n <= |terms|
  {
    if terms == [] then 0
    else CountContained(terms[..|terms| - 1], text) + (if Contains(text, terms[|terms| - 1]) then 1 else 0)
  }

  /** No term is counted exactly when none occurs in `text`. */
  lemma {:induction false} CountContainedZero(terms: seq<string>, text: string)
    ensures CountContained(terms, text) == 0 <==> forall i :: 0 <= i < |terms| ==> !Contains(text, terms[i])
  {
    if terms != [] {
      var init := terms[..|terms| - 1];
      CountContainedZero(init, text);
      assert forall i :: 0 <= i < |init| ==> init[i] == terms[i];
    }
  }

  /** The score `retrieve` ranks a match by. */
  function Boosted(h: Hit, terms: seq<string>): real {
    h.score + Boost * CountContained(terms, TextOf(h)) as real
  }

  /** The boost never lowers a score, and it leaves it alone exactly when
      no term occurs in the match's text. */
  lemma BoostedAtLeastScore(h: Hit, terms: seq<string>)
    ensures Boosted(h, terms) >= h.score
    ensures Boosted(h, terms) == h.score <==> forall i :: 0 <= i < |terms| ==> !Contains(TextOf(h), terms[i])
  {
    CountContainedZero(terms, TextOf(h));
  }

  /** A non-empty term does not occur in the empty string. */
  lemma NothingInEmpty(terms: seq<string>)
    requires forall i :: 0 <= i < |terms| ==> terms[i] != []
    ensures CountContained(terms, "") == 0
  {
    CountContainedZero(terms, "");
    forall i | 0 <= i < |terms|
      ensures !Contains("", terms[i])
    {
      assert terms[i] != [];
    }
  }

  /** A match without a `text` field is ranked by its own score. */
  lemma NoTextNoBoost(h: Hit, query: string)
    requires "text" !in h.metadata
    ensures Boosted(h, ExtractTerms(query)) == h.score
  {
    var terms := ExtractTerms(query);
    ExtractTermsAreCitations(query);
    forall i | 0 <= i < |terms|
      ensures terms[i] != []
    {
      assert terms[i] in terms;
    }
    NothingInEmpty(terms);
  }

  /** The boost loop of `retrieve` for one match: +0.25 per term found. */
  method BoostScore(m: Hit, terms: seq<string>) returns (score: real)
    ensures score == Boosted(m, terms)
  {
    var text := TextOf(m);
    score := m.score;
    var j := 0;
    while j < |terms|
      invariant 0 <= j <= |terms|
      invariant score == m.score + Boost * CountContained(terms[..j], text) as real
    {
      assert terms[..j + 1][..j] == terms[..j];
      if Contains(text, terms[j]) {
        score := score + Boost;
      }
      j := j + 1;
    }
    assert terms[..j] == terms;
  }

  /** The `(boosted score, match)` pairs `retrieve` sorts. */
  function Keyed(matches: seq<Hit>, terms: seq<string>): (r: seq<Scored<Hit>>)
    ensures |r| == |matches|
  {
    seq(|matches|, j requires 0 <= j < |matches| => Scored(Boosted(matches[j], terms), matches[j]))
  }

  lemma KeyedSnoc(matches: seq<Hit>, terms: seq<string>, i: nat)
    requires i < |matches|
    ensures Keyed(matches[..i + 1], terms) == Keyed(matches[..i], terms) + [Scored(Boosted(matches[i], terms), matches[i])]
  {
  }

  /** The first `n` matches after sorting by boosted score are matches of
      the input, in non-increasing boosted order, and none ranks below a
      match that was cut. */
  lemma RankedTop(matches: seq<Hit>, terms: seq<string>, n: nat)
    requires n <= |matches|
    ensures var top := Items(SortDesc(Keyed(matches, terms))[..n]);
      && multiset(top) <= multiset(matches)
      && (forall i, j :: 0 <= i < j < |top| ==> Boosted(top[i], terms) >= Boosted(top[j], terms))
      && (forall m, i :: m in multiset(matches) - multiset(top) && 0 <= i < |top| ==>
            Boosted(m, terms) <= Boosted(top[i], terms))
  {
    var key := h => Boosted(h, terms);
    assert PairsWith(Keyed(matches, terms), matches, key);
    TopOfSorted(matches, key, Keyed(matches, terms), SortDesc(Keyed(matches, terms)), n);
  }

  /** `retrieve(query)` after the vector query: boost, sort, keep the top 5.
      The matches returned are the original ones; the boosted score only
      decides which ones and in what order. */
  method Retrieve(query: string, matches: seq<Hit>) returns (top: seq<Hit>)
    ensures |top| == if |matches| < TopN then |matches| else TopN
    ensures multiset(top) <= multiset(matches)
    ensures forall i, j :: 0 <= i < j < |top| ==>
              Boosted(top[i], ExtractTerms(query)) >= Boosted(top[j], ExtractTerms(query))
    ensures forall m, i :: m in multiset(matches) - multiset(top) && 0 <= i < |top| ==>
              Boosted(m, ExtractTerms(query)) <= Boosted(top[i], ExtractTerms(query))
  {
    var terms := ExtractTerms(query);
    var scored: seq<Scored<Hit>> := [];
    var i := 0;
    while i < |matches|
      invariant 0 <= i <= |matches|
      invariant scored == Keyed(matches[..i], terms)
    {
      var score := BoostScore(matches[i], terms);
      KeyedSnoc(matches, terms, i);
      scored := scored + [Scored(score, matches[i])];
      i := i + 1;
    }
    assert matches[..i] == matches;
    var sorted := SortDesc(scored);
    var head := SliceTo(sorted, TopN);
    top := Items(head);
    RankedTop(matches, terms, |head|);
  }
}
