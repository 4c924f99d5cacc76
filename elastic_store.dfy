/**
 * `elastic_store.py`: the article tag of a chunk and the bulk actions that
 * index the chunks of one document. The index name `ES_INDEX` (read from
 * the environment, "legal_chunks" by default) is a parameter; sending the
 * actions to Elasticsearch is not modelled.
 */
module ElasticStore {
  import opened Text
  import opened Wrappers
  import opened Sorting
  import opened Citation
  import opened Chunker

  // ---------------------------------------------------------------------
  // extract_article

  /** `extract_article(text)`: "article_" followed by the digits of the
      leftmost match of `article\s+(\d+)` in the lower-cased text, or
      `None` when the pattern does not occur. */
  function ExtractArticle(text: string): (r: Option<string>)
    ensures r.Some? ==> |r.value| > |"article_"| && r.value[..|"article_"|] == "article_"
    ensures r.Some? ==> AllDigits(r.value[|"article_"|..])
  {
    var s := Lower(text);
    match Search(s, 0)
    case None => None
    case Some(sp) =>
      MatchAtSound(s, sp.start);
      var r := "article_" + s[sp.digits..sp.end];
      assert r[|"article_"|..] == s[sp.digits..sp.end];
      Some(r)
  }

  /** There is no tag exactly when the pattern matches nowhere. */
  lemma ExtractArticleNone(text: string)
    ensures ExtractArticle(text).None? <==>
      forall p: nat, d: nat, e: nat :: !IsMatchWith(Lower(text), p, d, e)
  {
    var s := Lower(text);
    if ExtractArticle(text).Some? {
      var sp := Search(s, 0).value;
      MatchAtSound(s, sp.start);
    } else {
      forall p: nat, d: nat, e: nat | IsMatchWith(s, p, d, e)
        ensures false
      {
        MatchAtComplete(s, p, d, e);
      }
    }
  }

  /** A tag holds the digits of the leftmost match: a match starts at some
      `p`, its digit run (taken whole) is the tag's number, and no match
      starts before `p`. */
  lemma ExtractArticleLeftmost(text: string)
    requires ExtractArticle(text).Some?
    ensures exists p: nat, d: nat, e: nat ::
      && IsMatchWith(Lower(text), p, d, e)
      && (e == |text| || !IsDigit(Lower(text)[e]))
      && ExtractArticle(text).value == "article_" + Lower(text)[d..e]
      && (forall q: nat, d': nat, e': nat :: q < p ==> !IsMatchWith(Lower(text), q, d', e'))
  {
    var s := Lower(text);
    var sp := Search(s, 0).value;
    MatchAtSound(s, sp.start);
    forall q: nat, d': nat, e': nat | q < sp.start
      ensures !IsMatchWith(s, q, d', e')
    {
      if IsMatchWith(s, q, d', e') {
        MatchAtComplete(s, q, d', e');
      }
    }
    assert IsMatchWith(s, sp.start, sp.digits, sp.end);
  }

  /** The tag agrees with the first term `retrieve` extracts from the same
      text: there is one exactly when there is a term, and its number is the
      digit run that ends that term. */
  lemma ExtractArticleFirstTerm(text: string)
    ensures ExtractArticle(text).Some? <==> ExtractTerms(text) != []
    ensures ExtractArticle(text).Some? ==> exists n ::
      && 0 < n < |ExtractTerms(text)[0]|
      && AllDigits(ExtractTerms(text)[0][n..])
      && ExtractArticle(text).value == "article_" + ExtractTerms(text)[0][n..]
  {
    var s := Lower(text);
    var sps := Spans(s, 0);
    assert Search(s, 0) == if sps == [] then None else Some(sps[0]) by {
      SearchIsFirstSpan(s, 0);
    }
    assert |ExtractTerms(text)| == |sps|;
    if sps != [] {
      var sp := sps[0];
      assert sp.start + |Keyword| < sp.digits < sp.end <= |s| by {
        MatchAtSound(s, sp.start);
      }
      var term := ExtractTerms(text)[0];
      assert term == s[sp.start..sp.end];
      var n := sp.digits - sp.start;
      assert term[n..] == s[sp.digits..sp.end];
    }
  }

  /** The tag ignores letter case. */
  lemma ExtractArticleIgnoresCase(text: string)
    ensures ExtractArticle(Lower(text)) == ExtractArticle(text)
  {
    LowerIdempotent(text);
  }

  // ---------------------------------------------------------------------
  // build_actions

  /** The `_source` document of a chunk. */
  datatype Source = Source(text: string, source: string, page: nat, part: string,
                           article: Option<string>, title: string)

  /** One bulk action: `_index`, `_id` and `_source`. */
  datatype Action = Action(index: string, id: string, source: Source)

  /** `f"{source_name}_p{ch['page']}_{ch['part']}"`. */
  function DocId(sourceName: string, page: nat, part: Part): string {
    sourceName + "_p" + NatToString(page) + "_" + PartName(part)
  }

  /** `text[:120]`. */
  function Title(text: string): (t: string)
    ensures t <= text && |t| == if |text| < 120 then |text| else 120
  {
    SliceTo(text, 120)
  }

  function ActionOf(c: Chunk, sourceName: string, esIndex: string): Action {
    Action(esIndex, DocId(sourceName, c.page, c.part),
           Source(c.text, sourceName, c.page, PartName(c.part), ExtractArticle(c.text), Title(c.text)))
  }

  /** `build_actions(chunks, source_name)`: one action per chunk, in
      order, into index `esIndex`; each carries the chunk's text, page and
      part, the first 120 characters of the text (all of it when shorter)
      as its title, and the text's article tag. */
  function BuildActions(chunks: seq<Chunk>, sourceName: string, esIndex: string): (r: seq<Action>)
    ensures |r| == |chunks|
    ensures forall i :: 0 <= i < |r| ==>
      && r[i].index == esIndex
      && r[i].id == DocId(sourceName, chunks[i].page, chunks[i].part)
      && r[i].source.text == chunks[i].text && r[i].source.source == sourceName
      && r[i].source.page == chunks[i].page && r[i].source.part == PartName(chunks[i].part)
      && r[i].source.title <= chunks[i].text
      && |r[i].source.title| == (if |chunks[i].text| < 120 then |chunks[i].text| else 120)
      && r[i].source.article == ExtractArticle(chunks[i].text)
  {
    seq(|chunks|, i requires 0 <= i < |chunks| => ActionOf(chunks[i], sourceName, esIndex))
  }

  /** An underscore splits `a + "_" + x` where `a` has none. */
  lemma SplitAtUnderscore(a: string, x: string, b: string, y: string)
    requires '_' !in a && '_' !in b
    requires a + "_" + x == b + "_" + y
    ensures a == b && x == y
  {
    var u := a + "_" + x;
    assert u[|a|] == '_' && u[|b|] == '_';
    assert a == u[..|a|] == b;
    assert x == u[|a| + 1..] == y;
  }

  lemma DigitsHaveNoUnderscore(n: nat)
    ensures '_' !in NatToString(n)
  {
    var r := NatToString(n);
    assert forall k :: 0 <= k < |r| ==> r[k] != '_';
  }

  /** Within one document the id determines the page and the part. */
  lemma DocIdInjective(sourceName: string, p1: nat, q1: Part, p2: nat, q2: Part)
    requires DocId(sourceName, p1, q1) == DocId(sourceName, p2, q2)
    ensures p1 == p2 && q1 == q2
  {
    var k := |sourceName + "_p"|;
    var u1 := NatToString(p1) + "_" + PartName(q1);
    var u2 := NatToString(p2) + "_" + PartName(q2);
    assert DocId(sourceName, p1, q1) == (sourceName + "_p") + u1;
    assert DocId(sourceName, p2, q2) == (sourceName + "_p") + u2;
    assert u1 == DocId(sourceName, p1, q1)[k..];
    assert u2 == DocId(sourceName, p2, q2)[k..];
    DigitsHaveNoUnderscore(p1);
    DigitsHaveNoUnderscore(p2);
    SplitAtUnderscore(NatToString(p1), PartName(q1), NatToString(p2), PartName(q2));
    NatToStringInjective(p1, p2);
    PartNameInjective(q1, q2);
  }

  /** Chunks with different (page, part) keys get different ids. */
  lemma ActionIdsDistinct(chunks: seq<Chunk>, sourceName: string, esIndex: string)
    requires KeysDistinct(chunks)
    ensures var r := BuildActions(chunks, sourceName, esIndex);
      forall i, j :: 0 <= i < j < |r| ==> r[i].id != r[j].id
  {
    var r := BuildActions(chunks, sourceName, esIndex);
    forall i, j | 0 <= i < j < |r|
      ensures r[i].id != r[j].id
    {
      if r[i].id == r[j].id {
        DocIdInjective(sourceName, chunks[i].page, chunks[i].part, chunks[j].page, chunks[j].part);
      }
    }
  }

  /** So indexing a whole document never overwrites one of its own chunks. */
  lemma DocumentIdsDistinct(pages: seq<Option<string>>, tokenLen: string -> nat, sourceName: string, esIndex: string)
    ensures var r := BuildActions(ChunkAll(pages, tokenLen), sourceName, esIndex);
      forall i, j :: 0 <= i < j < |r| ==> r[i].id != r[j].id
  {
    ChunksPagedInOrder(pages, tokenLen);
    ActionIdsDistinct(ChunkAll(pages, tokenLen), sourceName, esIndex);
  }
}
