/**
 * The one regular expression the core uses, `article\s+\d+` (in
 * `retrieval.py` as is, in `elastic_store.py` with the digits as group 1),
 * matched against an already lower-cased string: a match at one position,
 * `re.search` (the leftmost match) and `re.findall` (all leftmost
 * non-overlapping matches, in position order).
 */
module Citation {
  import opened Text
  import opened Wrappers

  const Keyword: string := "article"

  /** A match `s[start..end]`; the digit run is `s[digits..end]`. */
  datatype Span = Span(start: nat, digits: nat, end: nat)

  /** The reference meaning of the pattern: `s[p..e]` is "article", then a
      non-empty run of whitespace `s[p+7..d]`, then a non-empty run of
      digits `s[d..e]`. */
  ghost predicate IsMatchWith(s: string, p: nat, d: nat, e: nat) {
    && p + |Keyword| < d < e <= |s|
    && s[p..p + |Keyword|] == Keyword
    && AllSpace(s[p + |Keyword|..d])
    && AllDigits(s[d..e])
  }

  /** The text of a term `findall` returns: "article", whitespace, digits. */
  ghost predicate IsCitation(t: string) {
    && |t| > |Keyword|
    && t[..|Keyword|] == Keyword
    && exists d :: |Keyword| < d < |t| && AllSpace(t[|Keyword|..d]) && AllDigits(t[d..])
  }

  /** The end of the whitespace run that starts at `p`. */
  function SpaceRunEnd(s: string, p: nat): (e: nat)
    requires p <= |s|
    ensures p <= e <= |s|
    decreases |s| - p
  {
    if p < |s| && IsSpace(s[p]) then SpaceRunEnd(s, p + 1) else p
  }

  /** The end of the digit run that starts at `p`. */
  function DigitRunEnd(s: string, p: nat): (e: nat)
    requires p <= |s|
    ensures p <= e <= |s|
    decreases |s| - p
  {
    if p < |s| && IsDigit(s[p]) then DigitRunEnd(s, p + 1) else p
  }

  /** `s[p..SpaceRunEnd(s, p)]` is whitespace and is followed by none. */
  lemma {:induction false} SpaceRunEndMeans(s: string, p: nat)
    requires p <= |s|
    ensures var e := SpaceRunEnd(s, p);
      AllSpace(s[p..e]) && (e == |s| || !IsSpace(s[e]))
    decreases |s| - p
  {
    if p < |s| && IsSpace(s[p]) {
      SpaceRunEndMeans(s, p + 1);
      var e := SpaceRunEnd(s, p);
      assert s[p..e] == [s[p]] + s[p + 1..e];
    }
  }

  /** `s[p..DigitRunEnd(s, p)]` is digits and is followed by none. */
  lemma {:induction false} DigitRunEndMeans(s: string, p: nat)
    requires p <= |s|
    ensures var e := DigitRunEnd(s, p);
      AllDigits(s[p..e]) && (e == |s| || !IsDigit(s[e]))
    decreases |s| - p
  {
    if p < |s| && IsDigit(s[p]) {
      DigitRunEndMeans(s, p + 1);
      var e := DigitRunEnd(s, p);
      assert s[p..e] == [s[p]] + s[p + 1..e];
    }
  }

  /** Every way of matching at `p` uses the whole whitespace run, and its
      digit run ends no later than the maximal one. */
  lemma MatchWithIsGreedy(s: string, p: nat, d: nat, e: nat)
    requires IsMatchWith(s, p, d, e)
    ensures d == SpaceRunEnd(s, p + |Keyword|)
    ensures e <= DigitRunEnd(s, d)
  {
    var k := p + |Keyword|;
    var d0 := SpaceRunEnd(s, k);
    var e0 := DigitRunEnd(s, d);
    SpaceRunEndMeans(s, k);
    DigitRunEndMeans(s, d);
    IndexSlice(s, k, d);
    IndexSlice(s, k, d0);
    IndexSlice(s, d, e);
    IndexSlice(s, d, e0);
  }

  /** The characters of `s[i..j]` are those of `s` from `i` to `j`. */
  lemma IndexSlice(s: string, i: nat, j: nat)
    requires i <= j <= |s|
    ensures forall k :: i <= k < j ==> s[k] == s[i..j][k - i]
  {
  }

  /** The regex engine's match at position `p`: greedy `\s+`, then greedy
      `\d+` (the two classes are disjoint, so no backtracking changes it). */
  function MatchAt(s: string, p: nat): (r: Option<Span>)
    requires p <= |s|
    ensures r.Some? ==> r.value.start == p && p + |Keyword| < r.value.digits < r.value.end <= |s|
  {
    if KeywordAt(s, p) then
      var k := p + |Keyword|;
      var d := SpaceRunEnd(s, k);
      var e := DigitRunEnd(s, d);
      if k < d < e then Some(Span(p, d, e)) else None
    else
      None
  }

  /** `s[p..]` starts with "article", spelt out letter by letter. */
  predicate KeywordAt(s: string, p: nat) {
    && p + 7 <= |s|
    && s[p] == 'a' && s[p + 1] == 'r' && s[p + 2] == 't' && s[p + 3] == 'i'
    && s[p + 4] == 'c' && s[p + 5] == 'l' && s[p + 6] == 'e'
  }

  lemma KeywordAtMeans(s: string, p: nat)
    requires p <= |s|
    ensures KeywordAt(s, p) <==> p + |Keyword| <= |s| && s[p..p + |Keyword|] == Keyword
  {
    if p + |Keyword| <= |s| && s[p..p + |Keyword|] == Keyword {
      var w := s[p..p + |Keyword|];
      assert w[0] == s[p] && w[1] == s[p + 1] && w[2] == s[p + 2] && w[3] == s[p + 3];
      assert w[4] == s[p + 4] && w[5] == s[p + 5] && w[6] == s[p + 6];
    }
  }

  /** What the engine finds at `p` is a match, and the digits that follow
      it are all taken. */
  lemma MatchAtSound(s: string, p: nat)
    requires p <= |s| && MatchAt(s, p).Some?
    ensures IsMatchWith(s, p, MatchAt(s, p).value.digits, MatchAt(s, p).value.end)
    ensures MatchAt(s, p).value.end == |s| || !IsDigit(s[MatchAt(s, p).value.end])
  {
    KeywordAtMeans(s, p);
    SpaceRunEndMeans(s, p + |Keyword|);
    DigitRunEndMeans(s, SpaceRunEnd(s, p + |Keyword|));
  }

  /** Whenever the pattern matches some `s[p..e]`, the engine finds a match
      at `p` with the same whitespace run and a digit run at least as long. */
  lemma MatchAtComplete(s: string, p: nat, d: nat, e: nat)
    requires IsMatchWith(s, p, d, e)
    ensures MatchAt(s, p).Some?
    ensures MatchAt(s, p).value.digits == d && e <= MatchAt(s, p).value.end
  {
    KeywordAtMeans(s, p);
    MatchWithIsGreedy(s, p, d, e);
  }

  /** A match starts with 'a'. */
  lemma MatchStartsWithA(s: string, q: nat)
    requires q <= |s| && MatchAt(s, q).Some?
    ensures s[q] == 'a'
  {
  }

  /** No match starts strictly inside another one: none of the characters
      after the leading 'a' is an 'a'. */
  lemma {:induction false} NoMatchInside(s: string, sp: Span, q: nat)
    requires sp.start <= |s| && MatchAt(s, sp.start) == Some(sp)
    requires sp.start < q < sp.end
    ensures MatchAt(s, q).None?
  {
    MatchAtSound(s, sp.start);
    var k := sp.start + |Keyword|;
    if q < k {
      assert s[q] == s[sp.start..k][q - sp.start];
    } else if q < sp.digits {
      assert s[q] == s[k..sp.digits][q - k];
    } else {
      assert s[q] == s[sp.digits..sp.end][q - sp.digits];
    }
    if MatchAt(s, q).Some? {
      MatchStartsWithA(s, q);
    }
  }

  /** The start positions of a list of matches. */
  function Starts(sps: seq<Span>): set<nat> {
    if sps == [] then {} else {sps[0].start} + Starts(sps[1..])
  }

  /** `re.finditer` from position `p`: every match, leftmost first, each
      search resuming where the previous match ended. */
  function Spans(s: string, p: nat): (r: seq<Span>)
    requires p <= |s|
    decreases |s| - p
  {
    var m := MatchAt(s, p);
    if m.Some? then [m.value] + Spans(s, m.value.end)
    else if p == |s| then []
    else Spans(s, p + 1)
  }

  /** Each span is the engine's match at its start, from `p` on. */
  lemma {:induction false} SpansSound(s: string, p: nat)
    requires p <= |s|
    ensures forall i :: 0 <= i < |Spans(s, p)| ==>
      p <= Spans(s, p)[i].start <= |s| && MatchAt(s, Spans(s, p)[i].start) == Some(Spans(s, p)[i])
    decreases |s| - p
  {
    var m := MatchAt(s, p);
    if m.Some? {
      var rest := Spans(s, m.value.end);
      SpansSound(s, m.value.end);
      var r := [m.value] + rest;
      assert Spans(s, p) == r;
      assert forall i :: 1 <= i < |r| ==> r[i] == rest[i - 1];
    } else if p < |s| {
      SpansSound(s, p + 1);
      assert Spans(s, p) == Spans(s, p + 1);
    }
  }

  /** The matches do not overlap: each ends before the next starts. */
  lemma {:induction false} SpansOrdered(s: string, p: nat)
    requires p <= |s|
    ensures forall i :: 0 <= i < |Spans(s, p)| - 1 ==> Spans(s, p)[i].end <= Spans(s, p)[i + 1].start
    decreases |s| - p
  {
    var m := MatchAt(s, p);
    if m.Some? {
      var rest := Spans(s, m.value.end);
      SpansOrdered(s, m.value.end);
      SpansSound(s, m.value.end);
      var r := [m.value] + rest;
      assert Spans(s, p) == r;
      assert forall i :: 1 <= i < |r| ==> r[i] == rest[i - 1];
    } else if p < |s| {
      SpansOrdered(s, p + 1);
      assert Spans(s, p) == Spans(s, p + 1);
    }
  }

  /** From `p` on, the positions where the engine matches are exactly the
      starts of `Spans(s, p)`. */
  ghost predicate CompleteFrom(s: string, p: nat)
    requires p <= |s|
  {
    forall q :: p <= q <= |s| ==> (MatchAt(s, q).Some? <==> q in Starts(Spans(s, p)))
  }

  /** `Spans` misses no match. */
  lemma {:induction false} SpansComplete(s: string, p: nat)
    requires p <= |s|
    ensures CompleteFrom(s, p)
    decreases |s| - p, 1
  {
    if MatchAt(s, p).Some? {
      SpansCompleteAfterMatch(s, p);
    } else if p < |s| {
      SpansCompleteAfterMiss(s, p);
    } else {
      assert Spans(s, p) == [];
    }
  }

  lemma {:induction false} SpansCompleteAfterMiss(s: string, p: nat)
    requires p < |s| && MatchAt(s, p).None?
    ensures CompleteFrom(s, p)
    decreases |s| - p, 0
  {
    SpansComplete(s, p + 1);
    StartsFrom(s, p + 1);
    assert Spans(s, p) == Spans(s, p + 1);
  }

  lemma {:induction false} SpansCompleteAfterMatch(s: string, p: nat)
    requires p <= |s| && MatchAt(s, p).Some?
    ensures CompleteFrom(s, p)
    decreases |s| - p, 0
  {
    var e := MatchAt(s, p).value.end;
    SpansComplete(s, e);
    StartsAfterMatch(s, p);
    StartsFrom(s, e);
    NoMatchBetween(s, p);
  }

  /** After a match at `p`, the starts are `p` and those from its end on. */
  lemma StartsAfterMatch(s: string, p: nat)
    requires p <= |s| && MatchAt(s, p).Some?
    ensures Starts(Spans(s, p)) == {p} + Starts(Spans(s, MatchAt(s, p).value.end))
  {
    var sp := MatchAt(s, p).value;
    var rest := Spans(s, sp.end);
    assert Spans(s, p) == [sp] + rest;
    assert ([sp] + rest)[1..] == rest;
  }

  /** No match starts strictly inside the match at `p`. */
  lemma NoMatchBetween(s: string, p: nat)
    requires p <= |s| && MatchAt(s, p).Some?
    ensures forall q :: p < q < MatchAt(s, p).value.end ==> MatchAt(s, q).None?
  {
    var sp := MatchAt(s, p).value;
    forall q | p < q < sp.end
      ensures MatchAt(s, q).None?
    {
      NoMatchInside(s, sp, q);
    }
  }

  /** Every match of `Spans(s, p)` starts at `p` or later. */
  lemma {:induction false} StartsFrom(s: string, p: nat)
    requires p <= |s|
    ensures forall q :: q in Starts(Spans(s, p)) ==> p <= q <= |s|
    decreases |s| - p
  {
    var m := MatchAt(s, p);
    if m.Some? {
      StartsAfterMatch(s, p);
      StartsFrom(s, m.value.end);
    } else if p < |s| {
      assert Spans(s, p) == Spans(s, p + 1);
      StartsFrom(s, p + 1);
    } else {
      assert Spans(s, p) == [];
    }
  }

  /** `re.search`: the leftmost match at or after `p`. */
  function Search(s: string, p: nat): (r: Option<Span>)
    requires p <= |s|
    ensures r.None? <==> forall q :: p <= q <= |s| ==> MatchAt(s, q).None?
    ensures r.Some? ==> p <= r.value.start <= |s| && MatchAt(s, r.value.start) == Some(r.value)
    ensures r.Some? ==> forall q :: p <= q < r.value.start ==> MatchAt(s, q).None?
    decreases |s| - p
  {
    var m := MatchAt(s, p);
    if m.Some? || p == |s| then m else Search(s, p + 1)
  }

  /** `re.search` finds the first of the matches `re.findall` finds. */
  lemma {:induction false} SearchIsFirstSpan(s: string, p: nat)
    requires p <= |s|
    ensures Search(s, p) == if Spans(s, p) == [] then None else Some(Spans(s, p)[0])
    decreases |s| - p
  {
    if MatchAt(s, p).None? && p < |s| {
      SearchIsFirstSpan(s, p + 1);
    }
  }

  /** The matched texts `s[start..end]` of the spans, in order. */
  function Texts(s: string, sps: seq<Span>): (ts: seq<string>)
    requires forall i :: 0 <= i < |sps| ==> sps[i].start <= sps[i].end <= |s|
    ensures |ts| == |sps|
    ensures forall i :: 0 <= i < |sps| ==> ts[i] == s[sps[i].start..sps[i].end]
  {
    seq(|sps|, i requires 0 <= i < |sps| => s[sps[i].start..sps[i].end])
  }

  /** `re.findall(r"article\s+\d+", q.lower())`. */
  function ExtractTerms(q: string): (ts: seq<string>)
  {
    var s := Lower(q);
    SpansSound(s, 0);
    Texts(s, Spans(s, 0))
  }

  /** The terms are the texts of exactly the positions where the pattern
      matches the lower-cased query, in position order, without overlap; the
      digit run of each is maximal. */
  lemma ExtractTermsAreAllMatches(q: string)
    ensures var s := Lower(q); var sps := Spans(s, 0);
      && |ExtractTerms(q)| == |sps|
      && (forall i :: 0 <= i < |sps| ==>
            && IsMatchWith(s, sps[i].start, sps[i].digits, sps[i].end)
            && ExtractTerms(q)[i] == s[sps[i].start..sps[i].end]
            && (sps[i].end == |s| || !IsDigit(s[sps[i].end])))
      && (forall i :: 0 <= i < |sps| - 1 ==> sps[i].end <= sps[i + 1].start)
      && (forall p: nat, d: nat, e: nat :: IsMatchWith(s, p, d, e) ==> p in Starts(sps))
      && (forall p :: p in Starts(sps) ==> exists d: nat, e: nat :: IsMatchWith(s, p, d, e))
  {
    var s := Lower(q);
    SpansAreMatches(s);
    SpansOrdered(s, 0);
    MatchesAreSpans(s);
  }

  /** Every span is a match whose digit run is taken whole. */
  lemma SpansAreMatches(s: string)
    ensures forall i :: 0 <= i < |Spans(s, 0)| ==>
      && IsMatchWith(s, Spans(s, 0)[i].start, Spans(s, 0)[i].digits, Spans(s, 0)[i].end)
      && (Spans(s, 0)[i].end == |s| || !IsDigit(s[Spans(s, 0)[i].end]))
  {
    var sps := Spans(s, 0);
    SpansSound(s, 0);
    forall i | 0 <= i < |sps|
      ensures IsMatchWith(s, sps[i].start, sps[i].digits, sps[i].end)
      ensures sps[i].end == |s| || !IsDigit(s[sps[i].end])
    {
      MatchAtSound(s, sps[i].start);
    }
  }

  /** The spans start exactly where the pattern matches. */
  lemma MatchesAreSpans(s: string)
    ensures forall p: nat, d: nat, e: nat :: IsMatchWith(s, p, d, e) ==> p in Starts(Spans(s, 0))
    ensures forall p :: p in Starts(Spans(s, 0)) ==> exists d: nat, e: nat :: IsMatchWith(s, p, d, e)
  {
    SpansComplete(s, 0);
    StartsFrom(s, 0);
    forall p: nat, d: nat, e: nat | IsMatchWith(s, p, d, e)
      ensures p in Starts(Spans(s, 0))
    {
      MatchAtComplete(s, p, d, e);
    }
    forall p | p in Starts(Spans(s, 0))
      ensures exists d: nat, e: nat :: IsMatchWith(s, p, d, e)
    {
      MatchAtSound(s, p);
    }
  }

  lemma SpanIsCitation(s: string, sp: Span)
    requires IsMatchWith(s, sp.start, sp.digits, sp.end)
    ensures IsCitation(s[sp.start..sp.end])
  {
    var t := s[sp.start..sp.end];
    var k := sp.start + |Keyword|;
    var d := sp.digits - sp.start;
    assert t[..|Keyword|] == s[sp.start..k];
    assert t[|Keyword|..d] == s[k..sp.digits];
    assert t[d..] == s[sp.digits..sp.end];
  }

  /** Every term is "article", at least one whitespace character, at least
      one digit. */
  lemma ExtractTermsAreCitations(q: string)
    ensures forall t :: t in ExtractTerms(q) ==> IsCitation(t)
  {
    var s := Lower(q);
    var sps := Spans(s, 0);
    SpansSound(s, 0);
    var ts := ExtractTerms(q);
    forall i | 0 <= i < |ts|
      ensures IsCitation(ts[i])
    {
      MatchAtSound(s, sps[i].start);
      SpanIsCitation(s, sps[i]);
    }
  }

  /** A citation repeated in the query gives the term twice. */
  lemma DuplicatesKept()
    ensures ExtractTerms("Article 7 or article 7") == ["article 7", "article 7"]
  {
    ExampleLower();
    ExampleSpans();
    ExampleTexts();
  }

  lemma ExampleTexts()
    ensures Texts("article 7 or article 7", [Span(0, 8, 9), Span(13, 21, 22)]) == ["article 7", "article 7"]
  {
    var s := "article 7 or article 7";
    assert s[0..9] == "article 7" && s[13..22] == "article 7";
  }

  lemma ExampleLower()
    ensures Lower("Article 7 or article 7") == "article 7 or article 7"
  {
  }

  lemma ExampleSpans()
    ensures Spans("article 7 or article 7", 0) == [Span(0, 8, 9), Span(13, 21, 22)]
  {
    var s := "article 7 or article 7";
    ExampleMatches();
    assert Spans(s, 22) == [];
    assert Spans(s, 13) == [Span(13, 21, 22)] + Spans(s, 22);
    assert Spans(s, 12) == Spans(s, 13);
    assert Spans(s, 11) == Spans(s, 12);
    assert Spans(s, 10) == Spans(s, 11);
    assert Spans(s, 9) == Spans(s, 10);
    assert Spans(s, 0) == [Span(0, 8, 9)] + Spans(s, 9);
  }

  lemma ExampleMatches()
    ensures var s := "article 7 or article 7";
      && MatchAt(s, 0) == Some(Span(0, 8, 9))
      && MatchAt(s, 9).None? && MatchAt(s, 10).None? && MatchAt(s, 11).None? && MatchAt(s, 12).None?
      && MatchAt(s, 13) == Some(Span(13, 21, 22))
      && MatchAt(s, 22).None?
  {
    ExampleFirstMatch();
    ExampleSecondMatch();
  }

  lemma ExampleFirstMatch()
    ensures MatchAt("article 7 or article 7", 0) == Some(Span(0, 8, 9))
  {
    var s := "article 7 or article 7";
    assert s[7] == ' ' && s[8] == '7' && s[9] == ' ';
    assert KeywordAt(s, 0);
    assert SpaceRunEnd(s, 7) == 8;
    assert DigitRunEnd(s, 8) == 9;
  }

  lemma ExampleSecondMatch()
    ensures MatchAt("article 7 or article 7", 13) == Some(Span(13, 21, 22))
  {
    var s := "article 7 or article 7";
    assert s[20] == ' ' && s[21] == '7' && |s| == 22;
    assert KeywordAt(s, 13);
    assert SpaceRunEnd(s, 20) == 21;
    assert DigitRunEnd(s, 21) == 22;
  }
}
