/**
 * `chunker.py`: whitespace clean-up, the one-time halving of an over-long
 * page, and the page loop of `load_and_chunk`. The PDF reader is replaced
 * by the sequence of what `page.extract_text()` returned for each page
 * (`None` for a page without text), and the tokenizer's `token_len` by a
 * function parameter.
 */
module Chunker {
  import opened Text
  import opened Wrappers

  /** The first pages (front matter) that are never chunked. */
  const SkipPages: nat := 5

  /** The token count up to which a page is kept whole. */
  const TokenLimit: nat := 450

  // ---------------------------------------------------------------------
  // clean_text

  /** `clean_text(t)`: the words of `t` joined by single spaces. */
  function CleanText(t: string): string {
    Join(Words(t))
  }

  /** Cleaning keeps the words and their order. */
  lemma CleanTextWords(t: string)
    ensures Words(CleanText(t)) == Words(t)
  {
    WordsOfJoin(Words(t));
  }

  /** A cleaned text has no leading, trailing or repeated whitespace, and
      its only whitespace character is ' '. */
  lemma CleanTextCollapsed(t: string)
    ensures Collapsed(CleanText(t))
  {
    JoinCollapsed(Words(t));
  }

  lemma CleanTextIdempotent(t: string)
    ensures CleanText(CleanText(t)) == CleanText(t)
  {
    CleanTextWords(t);
  }

  /** Cleaning gives "" exactly for a whitespace-only (or empty) text. */
  lemma CleanTextEmpty(t: string)
    ensures CleanText(t) == "" <==> AllSpace(t)
  {
    WordsEmptyIffAllSpace(t);
    if Words(t) != [] {
      JoinNonEmpty(Words(t));
    }
  }

  // ---------------------------------------------------------------------
  // split_if_needed

  /** The `part` label of a chunk: "full", "a" or "b". */
  datatype Part = Full | HalfA | HalfB

  function PartName(p: Part): (r: string)
    ensures r != [] && '_' !in r
  {
    match p
    case Full => "full"
    case HalfA => "a"
    case HalfB => "b"
  }

  lemma PartNameInjective(p: Part, q: Part)
    requires PartName(p) == PartName(q)
    ensures p == q
  {
    assert PartName(p)[0] == PartName(q)[0];
  }

  /** `split_if_needed(text)`: the text whole when it is within the token
      limit, otherwise the first `n // 2` of its `n` words and the rest,
      each joined by single spaces. The halves are not split again. */
  function SplitIfNeeded(text: string, tokenLen: string -> nat): (parts: seq<(Part, string)>)
    ensures |parts| == 1 || |parts| == 2
  {
    if tokenLen(text) <= TokenLimit then [(Full, text)]
    else
      var words := Words(text);
      var half := |words| / 2;
      [(HalfA, Join(words[..half])), (HalfB, Join(words[half..]))]
  }

  /** A text within the limit is kept as the single part "full". */
  lemma SplitShortIsFull(text: string, tokenLen: string -> nat)
    requires tokenLen(text) <= TokenLimit
    ensures SplitIfNeeded(text, tokenLen) == [(Full, text)]
  {
  }

  /** An over-long text becomes parts "a" and "b" whose words, in order,
      are exactly the text's words, "a" holding the first half (rounded
      down) and "b" the rest. */
  lemma SplitLongHalves(text: string, tokenLen: string -> nat)
    requires tokenLen(text) > TokenLimit
    ensures var parts := SplitIfNeeded(text, tokenLen);
      && |parts| == 2 && parts[0].0 == HalfA && parts[1].0 == HalfB
      && Words(parts[0].1) + Words(parts[1].1) == Words(text)
      && |Words(parts[0].1)| == |Words(text)| / 2
      && |Words(parts[1].1)| == |Words(text)| - |Words(text)| / 2
  {
    HalvesOfWords(Words(text), |Words(text)| / 2);
  }

  /** Cutting a list of words in two and joining each side loses no word:
      splitting the sides again gives the two sides back. */
  lemma HalvesOfWords(words: seq<string>, half: nat)
    requires AreWords(words) && half <= |words|
    ensures var a := Words(Join(words[..half]));
      var b := Words(Join(words[half..]));
      a + b == words && |a| == half && |b| == |words| - half
  {
    var a, b := words[..half], words[half..];
    assert Words(Join(a)) == a by {
      assert AreWords(a);
      WordsOfJoin(a);
    }
    assert Words(Join(b)) == b by {
      assert AreWords(b);
      WordsOfJoin(b);
    }
    assert a + b == words;
  }

  /** With at least two words, the two halves joined by a space give back
      the cleaned text. */
  lemma SplitLongRejoins(text: string, tokenLen: string -> nat)
    requires tokenLen(text) > TokenLimit && |Words(text)| >= 2
    ensures var parts := SplitIfNeeded(text, tokenLen);
      parts[0].1 + " " + parts[1].1 == CleanText(text)
  {
    var words := Words(text);
    var half := |words| / 2;
    JoinAppend(words[..half], words[half..]);
    assert words[..half] + words[half..] == words;
  }

  /** The split happens once: part "b" can still be over the limit. A text
      of two words that is over the limit becomes its two words, whatever
      the tokenizer says of the second one. */
  lemma SplitIsNotRecursive(w1: string, w2: string, tokenLen: string -> nat)
    requires IsWord(w1) && IsWord(w2)
    requires tokenLen(w1 + " " + w2) > TokenLimit && tokenLen(w2) > TokenLimit
    ensures SplitIfNeeded(w1 + " " + w2, tokenLen) == [(HalfA, w1), (HalfB, w2)]
  {
    var ws := [w1, w2];
    assert Join(ws) == w1 + " " + w2 by {
      assert ws[1..] == [w2];
    }
    WordsOfJoin(ws);
    assert ws[..1] == [w1] && ws[1..] == [w2];
  }

  // ---------------------------------------------------------------------
  // load_and_chunk

  /** One chunk record: `{"page", "part", "text", "tokens"}`. */
  datatype Chunk = Chunk(page: nat, part: Part, text: string, tokens: nat)

  /** `page.extract_text() or ""`. */
  function PageText(raw: Option<string>): string {
    match raw
    case None => ""
    case Some(t) => t
  }

  /** The chunks of the page with 0-based index `i` whose cleaned text is
      `text`: its parts, each labelled with page number `i + 1` and with its
      own token count. */
  function PageChunks(i: nat, text: string, tokenLen: string -> nat): (cs: seq<Chunk>)
    ensures |cs| == |SplitIfNeeded(text, tokenLen)|
  {
    var parts := SplitIfNeeded(text, tokenLen);
    seq(|parts|, j requires 0 <= j < |parts| => Chunk(i + 1, parts[j].0, parts[j].1, tokenLen(parts[j].1)))
  }

  /** The records the page with 0-based index `i` and cleaned text `text`
      contributes: none for the skipped front pages, otherwise the chunks of
      its text. */
  function PageRecords(i: nat, text: string, tokenLen: string -> nat): seq<Chunk> {
    if i < SkipPages then [] else PageChunks(i, text, tokenLen)
  }

  /** The records of every page, one list per page, in page order; a page
      without text counts as an empty one. */
  function RecordsByPage(pages: seq<Option<string>>, tokenLen: string -> nat): (ls: seq<seq<Chunk>>)
    ensures |ls| == |pages|
  {
    seq(|pages|, i requires 0 <= i < |pages| => PageRecords(i, CleanText(PageText(pages[i])), tokenLen))
  }

  /** The lists one after the other. */
  function Concat(ls: seq<seq<Chunk>>): seq<Chunk> {
    if ls == [] then [] else Concat(ls[..|ls| - 1]) + ls[|ls| - 1]
  }

  lemma RecordsByPageAt(pages: seq<Option<string>>, tokenLen: string -> nat, i: nat)
    requires i < |pages|
    ensures i < SkipPages ==> RecordsByPage(pages, tokenLen)[i] == []
    ensures i >= SkipPages ==>
      RecordsByPage(pages, tokenLen)[i] == PageChunks(i, CleanText(PageText(pages[i])), tokenLen)
  {
  }

  lemma ConcatSnoc(ls: seq<seq<Chunk>>, i: nat)
    requires i < |ls|
    ensures Concat(ls[..i + 1]) == Concat(ls[..i]) + ls[i]
  {
    assert ls[..i + 1][..i] == ls[..i];
  }

  /** What `load_and_chunk` returns for the pages `pages`. */
  function ChunkAll(pages: seq<Option<string>>, tokenLen: string -> nat): seq<Chunk> {
    Concat(RecordsByPage(pages, tokenLen))
  }

  /** `load_and_chunk(pdf_path)`, with the extracted page texts given. */
  method LoadAndChunk(pages: seq<Option<string>>, tokenLen: string -> nat) returns (chunks: seq<Chunk>)
    ensures chunks == ChunkAll(pages, tokenLen)
  {
    chunks := [];
    var i := 0;
    while i < |pages|
      invariant 0 <= i <= |pages|
      invariant chunks == Concat(RecordsByPage(pages, tokenLen)[..i])
    {
      chunks := LoadPage(pages, tokenLen, i, chunks);
      i := i + 1;
    }
    TakeAll(RecordsByPage(pages, tokenLen));
  }

  lemma TakeAll(ls: seq<seq<Chunk>>)
    ensures ls[..|ls|] == ls
  {
  }

  method LoadPage(pages: seq<Option<string>>, tokenLen: string -> nat, i: nat, chunks: seq<Chunk>) returns (out: seq<Chunk>)
    requires i < |pages|
    requires chunks == Concat(RecordsByPage(pages, tokenLen)[..i])
    ensures out == Concat(RecordsByPage(pages, tokenLen)[..i + 1])
  {
    out := chunks;
    if i >= SkipPages {
      var raw := PageText(pages[i]);
      var text := CleanText(raw);
      out := AddPage(chunks, i, text, tokenLen);
    }
    LoadStep(pages, tokenLen, i, chunks, out);
  }

  /** One turn of the page loop appends the records of page `i`. */
  lemma LoadStep(pages: seq<Option<string>>, tokenLen: string -> nat, i: nat, before: seq<Chunk>, after: seq<Chunk>)
    requires i < |pages|
    requires before == Concat(RecordsByPage(pages, tokenLen)[..i])
    requires after == if i < SkipPages then before
                      else before + PageChunks(i, CleanText(PageText(pages[i])), tokenLen)
    ensures after == Concat(RecordsByPage(pages, tokenLen)[..i + 1])
  {
    var ls := RecordsByPage(pages, tokenLen);
    RecordsByPageAt(pages, tokenLen, i);
    ConcatSnoc(ls, i);
  }

  /** The inner loop of `load_and_chunk`: one record per part of a page. */
  method AddPage(chunks: seq<Chunk>, i: nat, text: string, tokenLen: string -> nat) returns (out: seq<Chunk>)
    ensures out == chunks + PageChunks(i, text, tokenLen)
  {
    var parts := SplitIfNeeded(text, tokenLen);
    out := chunks;
    var j := 0;
    while j < |parts|
      invariant 0 <= j <= |parts|
      invariant out == chunks + PageChunks(i, text, tokenLen)[..j]
    {
      var (part, chunkText) := parts[j];
      out := out + [Chunk(i + 1, part, chunkText, tokenLen(chunkText))];
      assert PageChunks(i, text, tokenLen)[..j + 1]
          == PageChunks(i, text, tokenLen)[..j] + [PageChunks(i, text, tokenLen)[j]];
      j := j + 1;
    }
    assert PageChunks(i, text, tokenLen)[..j] == PageChunks(i, text, tokenLen);
  }

  /** A chunk whose token count is the tokenizer's count of its text and
      whose text is clean. */
  predicate WellFormed(c: Chunk, tokenLen: string -> nat) {
    c.tokens == tokenLen(c.text) && Collapsed(c.text)
  }

  /** The parts of a clean text are clean. */
  lemma SplitPartsCollapsed(text: string, tokenLen: string -> nat)
    requires Collapsed(text)
    ensures forall j :: 0 <= j < |SplitIfNeeded(text, tokenLen)| ==> Collapsed(SplitIfNeeded(text, tokenLen)[j].1)
  {
    if tokenLen(text) > TokenLimit {
      var words := Words(text);
      var a, b := words[..|words| / 2], words[|words| / 2..];
      assert AreWords(a) && AreWords(b);
      JoinCollapsed(a);
      JoinCollapsed(b);
      assert SplitIfNeeded(text, tokenLen) == [(HalfA, Join(a)), (HalfB, Join(b))];
    } else {
      assert SplitIfNeeded(text, tokenLen) == [(Full, text)];
    }
  }

  /** Every chunk of a page carries its page number and its own token
      count, and the parts of a clean text are clean. */
  lemma PageChunksClean(i: nat, text: string, tokenLen: string -> nat)
    requires Collapsed(text)
    ensures forall c :: c in PageChunks(i, text, tokenLen) ==> c.page == i + 1 && WellFormed(c, tokenLen)
  {
    var parts := SplitIfNeeded(text, tokenLen);
    SplitPartsCollapsed(text, tokenLen);
    var cs := PageChunks(i, text, tokenLen);
    forall c | c in cs
      ensures c.page == i + 1 && WellFormed(c, tokenLen)
    {
      var j :| 0 <= j < |cs| && cs[j] == c;
      assert c == Chunk(i + 1, parts[j].0, parts[j].1, tokenLen(parts[j].1));
    }
  }

  /** No two records of `cs` share a page number and a part label. */
  predicate KeysDistinct(cs: seq<Chunk>) {
    forall a, b :: 0 <= a < b < |cs| ==> (cs[a].page, cs[a].part) != (cs[b].page, cs[b].part)
  }

  /** The per-page records: the skipped front pages give none; every later
      page with 0-based index `i` gives one or two records, each labelled
      with page `i + 1`, with a distinct part label, with the tokenizer's
      count of its own text and with clean text. */
  lemma RecordsByPageShape(pages: seq<Option<string>>, tokenLen: string -> nat)
    ensures var ls := RecordsByPage(pages, tokenLen);
      forall i :: 0 <= i < |ls| ==>
        && (i < SkipPages ==> ls[i] == [])
        && (i >= SkipPages ==> 1 <= |ls[i]| <= 2 && KeysDistinct(ls[i]))
        && (forall c: Chunk :: c in ls[i] ==> c.page == i + 1 && WellFormed(c, tokenLen))
  {
    var ls := RecordsByPage(pages, tokenLen);
    forall i | 0 <= i < |ls|
      ensures i < SkipPages ==> ls[i] == []
      ensures i >= SkipPages ==> 1 <= |ls[i]| <= 2 && KeysDistinct(ls[i])
      ensures forall c: Chunk :: c in ls[i] ==> c.page == i + 1 && WellFormed(c, tokenLen)
    {
      PageRecordsShape(i, PageText(pages[i]), tokenLen);
    }
  }

  /** The records of one page, whatever its raw text. */
  lemma PageRecordsShape(i: nat, raw: string, tokenLen: string -> nat)
    ensures var rs := PageRecords(i, CleanText(raw), tokenLen);
      && (i < SkipPages ==> rs == [])
      && (i >= SkipPages ==> 1 <= |rs| <= 2 && KeysDistinct(rs))
      && (forall c: Chunk :: c in rs ==> c.page == i + 1 && WellFormed(c, tokenLen))
  {
    var text := CleanText(raw);
    CleanTextCollapsed(raw);
    if i >= SkipPages {
      PageChunksClean(i, text, tokenLen);
      PagePartsDistinct(i, text, tokenLen);
    }
  }

  /** The parts of one page have different labels. */
  lemma PagePartsDistinct(i: nat, text: string, tokenLen: string -> nat)
    ensures KeysDistinct(PageChunks(i, text, tokenLen))
  {
  }

  // Facts about the concatenation of per-page lists, whatever the lists.

  /** A list of per-page record lists whose list `i` is empty for a skipped
      page and otherwise holds records of page `i + 1` only. */
  ghost predicate Paged(ls: seq<seq<Chunk>>) {
    forall i, c :: 0 <= i < |ls| && c in ls[i] ==> SkipPages < c.page && c.page == i + 1
  }

  /** Every record of the concatenation comes from one of the lists. */
  lemma {:induction false} ConcatMember(ls: seq<seq<Chunk>>, c: Chunk)
    requires c in Concat(ls)
    ensures exists i :: 0 <= i < |ls| && c in ls[i]
  {
    var init := ls[..|ls| - 1];
    if c !in ls[|ls| - 1] {
      ConcatMember(init, c);
      var i :| 0 <= i < |init| && c in init[i];
      assert init[i] == ls[i];
    }
  }

  /** Appending the records of page `p` to records of earlier pages. */
  lemma AppendLaterPage(prev: seq<Chunk>, last: seq<Chunk>, p: nat)
    requires forall c :: c in prev ==> c.page < p
    requires forall c :: c in last ==> c.page == p
    ensures PagesOrdered(prev) ==> PagesOrdered(prev + last)
    ensures KeysDistinct(prev) && KeysDistinct(last) ==> KeysDistinct(prev + last)
  {
    var all := prev + last;
    assert forall a :: 0 <= a < |prev| ==> all[a] == prev[a] && prev[a] in prev;
    assert forall b :: |prev| <= b < |all| ==> all[b] == last[b - |prev|] && last[b - |prev|] in last;
  }

  /** Page numbers never decrease along `cs`. */
  predicate PagesOrdered(cs: seq<Chunk>) {
    forall a, b :: 0 <= a < b < |cs| ==> cs[a].page <= cs[b].page
  }

  /** Concatenating paged lists keeps page order and, when no page repeats
      a part label, no two records share a page and a part. */
  lemma {:induction false} ConcatPaged(ls: seq<seq<Chunk>>)
    requires Paged(ls)
    requires forall i :: 0 <= i < |ls| ==> KeysDistinct(ls[i])
    ensures forall c :: c in Concat(ls) ==> SkipPages < c.page <= |ls|
    ensures PagesOrdered(Concat(ls))
    ensures KeysDistinct(Concat(ls))
  {
    if ls != [] {
      var init, last := ls[..|ls| - 1], ls[|ls| - 1];
      assert forall i :: 0 <= i < |init| ==> init[i] == ls[i];
      ConcatPaged(init);
      assert forall c :: c in last ==> c.page == |ls|;
      AppendLaterPage(Concat(init), last, |ls|);
    }
  }

  /** Concatenating lists that are empty for the skipped pages and hold one
      or two records for every later page. */
  lemma {:induction false} ConcatCount(ls: seq<seq<Chunk>>)
    requires forall i :: 0 <= i < |ls| ==> if i < SkipPages then ls[i] == [] else 1 <= |ls[i]| <= 2
    ensures var k := if |ls| > SkipPages then |ls| - SkipPages else 0;
      k <= |Concat(ls)| <= 2 * k
  {
    if ls != [] {
      var init := ls[..|ls| - 1];
      assert forall i :: 0 <= i < |init| ==> init[i] == ls[i];
      ConcatCount(init);
    }
  }

  // Properties of the whole output.

  /** Every chunk comes from a page past the skipped ones, chunks come out
      in page order, and no two share a page number and a part label. */
  lemma ChunksPagedInOrder(pages: seq<Option<string>>, tokenLen: string -> nat)
    ensures forall c :: c in ChunkAll(pages, tokenLen) ==> SkipPages < c.page <= |pages|
    ensures PagesOrdered(ChunkAll(pages, tokenLen))
    ensures KeysDistinct(ChunkAll(pages, tokenLen))
  {
    RecordsByPageShape(pages, tokenLen);
    ConcatPaged(RecordsByPage(pages, tokenLen));
  }

  /** Every chunk's token count is the tokenizer's count of its text, and
      its text is clean. */
  lemma ChunksWellFormed(pages: seq<Option<string>>, tokenLen: string -> nat)
    ensures forall c :: c in ChunkAll(pages, tokenLen) ==>
      c.tokens == tokenLen(c.text) && Collapsed(c.text)
  {
    var ls := RecordsByPage(pages, tokenLen);
    RecordsByPageShape(pages, tokenLen);
    forall c | c in ChunkAll(pages, tokenLen)
      ensures WellFormed(c, tokenLen)
    {
      ConcatMember(ls, c);
    }
  }

  /** Every page past the skipped ones yields one or two chunks. */
  lemma ChunkCount(pages: seq<Option<string>>, tokenLen: string -> nat)
    ensures var n := if |pages| > SkipPages then |pages| - SkipPages else 0;
      n <= |ChunkAll(pages, tokenLen)| <= 2 * n
  {
    RecordsByPageShape(pages, tokenLen);
    ConcatCount(RecordsByPage(pages, tokenLen));
  }

  // The text of the pages survives chunking.

  /** The words of the records' texts, in record order. */
  function ChunkWords(cs: seq<Chunk>): seq<string> {
    if cs == [] then [] else Words(cs[0].text) + ChunkWords(cs[1..])
  }

  /** The part labels of the records, in record order. */
  function Parts(cs: seq<Chunk>): seq<Part> {
    seq(|cs|, j requires 0 <= j < |cs| => cs[j].part)
  }

  /** The words of the pages past the skipped ones, in page order. */
  function KeptWords(pages: seq<Option<string>>): seq<string> {
    if pages == [] then []
    else
      KeptWords(pages[..|pages| - 1])
        + (if |pages| - 1 < SkipPages then [] else Words(PageText(pages[|pages| - 1])))
  }

  lemma {:induction false} ChunkWordsConcat(a: seq<Chunk>, b: seq<Chunk>)
    ensures ChunkWords(a + b) == ChunkWords(a) + ChunkWords(b)
    decreases |a|
  {
    if a == [] {
      assert a + b == b;
    } else {
      assert (a + b)[0] == a[0] && (a + b)[1..] == a[1..] + b;
      ChunkWordsConcat(a[1..], b);
    }
  }

  /** The records of a kept page hold exactly the words of its extracted
      text, in order: one record "full" with the cleaned text when it is
      within the limit, otherwise records "a" and "b" with the first half of
      the words (rounded down) and the rest. */
  lemma PageKeepsWords(i: nat, raw: string, tokenLen: string -> nat)
    ensures var cs := PageChunks(i, CleanText(raw), tokenLen);
      && ChunkWords(cs) == Words(raw)
      && (tokenLen(CleanText(raw)) <= TokenLimit ==> Parts(cs) == [Full] && cs[0].text == CleanText(raw))
      && (tokenLen(CleanText(raw)) > TokenLimit ==>
            Parts(cs) == [HalfA, HalfB] && |Words(cs[0].text)| == |Words(raw)| / 2)
  {
    var text := CleanText(raw);
    CleanTextWords(raw);
    var parts := SplitIfNeeded(text, tokenLen);
    var cs := PageChunks(i, text, tokenLen);
    if tokenLen(text) <= TokenLimit {
      SplitShortIsFull(text, tokenLen);
      assert cs[0].part == Full && cs[0].text == text;
      OneChunkWords(cs);
    } else {
      SplitLongHalves(text, tokenLen);
      assert cs[0].part == HalfA && cs[0].text == parts[0].1;
      assert cs[1].part == HalfB && cs[1].text == parts[1].1;
      TwoChunkWords(cs);
    }
  }

  /** The words and labels of a single record. */
  lemma OneChunkWords(cs: seq<Chunk>)
    requires |cs| == 1
    ensures ChunkWords(cs) == Words(cs[0].text) && Parts(cs) == [cs[0].part]
  {
    assert cs[1..] == [];
  }

  /** The words and labels of two records, in order. */
  lemma TwoChunkWords(cs: seq<Chunk>)
    requires |cs| == 2
    ensures ChunkWords(cs) == Words(cs[0].text) + Words(cs[1].text)
    ensures Parts(cs) == [cs[0].part, cs[1].part]
  {
    OneChunkWords(cs[1..]);
  }

  /** The words of the records of page `i`: none for a skipped page,
      otherwise the words of its extracted text. */
  lemma PageRecordsWords(pages: seq<Option<string>>, tokenLen: string -> nat, i: nat)
    requires i < |pages|
    ensures ChunkWords(RecordsByPage(pages, tokenLen)[i]) ==
      if i < SkipPages then [] else Words(PageText(pages[i]))
  {
    RecordsByPageAt(pages, tokenLen, i);
    if i >= SkipPages {
      PageKeepsWords(i, PageText(pages[i]), tokenLen);
    }
  }

  /** The words of all chunks, in output order, are the words of the pages
      past the skipped ones, in page order: chunking loses, repeats and
      reorders no word. */
  lemma {:induction false} ChunkAllWords(pages: seq<Option<string>>, tokenLen: string -> nat)
    ensures ChunkWords(ChunkAll(pages, tokenLen)) == KeptWords(pages)
    decreases |pages|
  {
    if pages != [] {
      var n := |pages|;
      var init := pages[..n - 1];
      var ls := RecordsByPage(pages, tokenLen);
      assert ChunkAll(pages, tokenLen) == ChunkAll(init, tokenLen) + ls[n - 1] by {
        assert ls[..n - 1] == RecordsByPage(init, tokenLen);
      }
      ChunkAllWords(init, tokenLen);
      ChunkWordsConcat(ChunkAll(init, tokenLen), ls[n - 1]);
      PageRecordsWords(pages, tokenLen, n - 1);
    }
  }
}
