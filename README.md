# Legal-document retrieval core, modelled in Dafny

This project models the core of a retrieval-augmented question-answering
tool for long legal PDFs. The tool works in two halves.

Ingestion:

- It skips the first five pages of a PDF and cuts each later page into
  one or two chunks (`chunker.py`).
- It turns the chunks into keyword-store bulk actions with deterministic
  ids and a derived `article_<n>` field (`elastic_store.py`).
- It sends `(id, vector, metadata)` records to the vector index in
  fixed-size batches (`pinecone_store.py`, `pinecone_search.py`).

Retrieval:

- It boosts vector-store matches whose text contains an `article <n>`
  citation from the query and keeps the best five (`retrieval.py`).
- It fuses max-normalised vector and keyword scores with a weight `alpha`
  and keeps the best `k` (`retrieval_hybrid.py`).

The modules follow the source files:

| module | file | models |
|---|---|---|
| `Text` | text.dfy | `str.isspace`, `str.lower`, `str.split()`, `" ".join`, `t in s`, `str(n)` |
| `Citation` | citation.dfy | the pattern `article\s+\d+` with `re.search` and `re.findall`, against a reference meaning of the pattern, and `extract_terms` |
| `Sorting` | sorting.dfy | `list.sort(reverse=True, key=score)` as a function, Python slicing `[:k]`, and the top-of-sorted facts both rankers share |
| `Retrieval` | retrieval.dfy | the citation boost, `retrieve` |
| `Hybrid` | retrieval_hybrid.dfy | `normalize`, score and hit maps, the merge loop, `hybrid_retrieve` |
| `Chunker` | chunker.dfy | `clean_text`, `split_if_needed`, `load_and_chunk` |
| `ElasticStore` | elastic_store.dfy | `extract_article`, `build_actions`, document-id uniqueness |
| `VectorIndex` | vector_index.dfy | the remote index as a log of upserted batches, and the shared batching loop |
| `PineconeStore` | pinecone_store.dfy | `upsert_chunks`: payload construction and batching |
| `PineconeSearch` | pinecone_search.dfy | `upsert_batch`: float conversion, payload and batching |

Scores are real numbers. The PDF reader is modelled as the list of what
`page.extract_text()` returned per page (`None` for a page without text).
The tokenizer's `token_len` is a function parameter. The network backends
are inputs (the hit lists a query returned) or a log object (the batches
an index was sent).

## Model

| member | source | states |
|---|---|---|
| Text.LowerKeepsClasses | retrieval.py:14 | after lower-casing no ASCII capital is left, every position is whitespace or a digit exactly when it was before, and a string without capitals is unchanged |
| Text.LowerIdempotent | elastic_store.py:7 | lower-casing twice is lower-casing once |
| Text.SkipSpacesEmptyIffAllSpace | chunker.py:9 | skipping leading whitespace leaves nothing iff the string is all whitespace |
| Text.Words | chunker.py:9 | `str.split()` yields only non-empty words without whitespace |
| Text.WordsOfJoin | chunker.py:9 | splitting the space-join of words gives the same words back (round trip) |
| Text.WordsEmptyIffAllSpace | chunker.py:9 | `str.split()` is empty iff the string is all whitespace |
| Text.WordsAreRuns | chunker.py:9 | `s` is its `split()` words in order, with non-empty whitespace between consecutive words and possibly empty whitespace at both ends: each word is a maximal non-whitespace run of `s` |
| Text.RunsAreWords | chunker.py:9 | conversely, a string built from words separated by non-empty whitespace and framed by whitespace splits into exactly those words |
| Text.JoinCollapsed | chunker.py:9 | joining words gives text with no leading or trailing space and no two spaces in a row |
| Text.JoinAppend | chunker.py:20-21 | joining two non-empty word lists is joining each and putting one space between |
| Text.Contains | retrieval.py:36 | `t in s` holds iff `t` occurs at some index of `s` |
| Text.NatToString | elastic_store.py:18 | `str(n)` is a non-empty run of digits without a leading zero unless `n` is 0 |
| Text.ParseNatToString | elastic_store.py:18 | reading back the digits of `str(n)` gives `n` |
| Text.NatToStringInjective | elastic_store.py:18 | different page numbers print differently |
| Citation.SpaceRunEndMeans | retrieval.py:14 | the greedy `\s+` scan ends at the first non-space character |
| Citation.DigitRunEndMeans | retrieval.py:14 | the greedy `\d+` scan ends at the first non-digit character |
| Citation.MatchWithIsGreedy | retrieval.py:14 | any match of the pattern at a position uses the whole space run and at most the whole digit run |
| Citation.MatchAt | retrieval.py:14 | a match found at `p` starts at `p`, with a non-empty space run and a non-empty digit run inside the string |
| Citation.MatchAtSound | retrieval.py:14 | a match found at `p` satisfies the pattern's meaning, and its digit run is maximal |
| Citation.MatchAtComplete | retrieval.py:14 | whenever the pattern matches at `p`, the matcher finds a match there, taking the longest digit run |
| Citation.NoMatchInside | retrieval.py:14 | no match starts strictly inside a match |
| Citation.SpansSound | retrieval.py:14 | every span `findall` reports is a match at its own start |
| Citation.SpansOrdered | retrieval.py:14 | the reported spans are in position order and do not overlap |
| Citation.SpansComplete | retrieval.py:14 | every position where the pattern matches is the start of a reported span, and every reported start is such a position |
| Citation.Search | elastic_store.py:7 | `re.search` is None iff no position matches; otherwise it is the match at the leftmost matching position |
| Citation.SearchIsFirstSpan | elastic_store.py:7 | `re.search` returns the first span that `re.findall` reports |
| Citation.ExtractTermsAreAllMatches | retrieval.py:13-14 | `extract_terms` returns, in order and without overlap, the texts of maximal matches in the lower-cased query, and misses no matching position |
| Citation.ExtractTermsAreCitations | retrieval.py:13-14 | every extracted term is "article", whitespace, then digits |
| Citation.DuplicatesKept | retrieval.py:13-14 | "Article 7 or article 7" yields "article 7" twice: repeated citations are not collapsed |
| Sorting.InsertDesc | retrieval.py:41 | insertion keeps every element and adds exactly the new one |
| Sorting.InsertDescSorted | retrieval.py:41 | inserting into a list in descending score order keeps it in that order |
| Sorting.SortDesc | retrieval_hybrid.py:44 | the sort result is in descending score order and is a permutation of the input |
| Sorting.WithScoreConcat | retrieval.py:41 | the entries with a given score of a concatenation are those of each side, in order |
| Sorting.InsertDescStable | retrieval.py:41 | inserting into a sorted list puts the new entry behind every entry of equal score |
| Sorting.SortDescStable | retrieval.py:41 | the sort is stable: for every score, the entries with that score come out in their input order |
| Sorting.ItemsPermutation | retrieval.py:41-42 | items of permuted pairs are a permutation of the items |
| Sorting.DistinctPermutation | retrieval_hybrid.py:44 | a permutation of a duplicate-free list is duplicate-free |
| Sorting.SortedPairsKeepKeys | retrieval.py:41 | after sorting, each pair's score is still its item's key |
| Sorting.SplitItems | retrieval.py:42 | kept items plus cut items are exactly the input items |
| Sorting.CutRanksBelow | retrieval.py:41-42 | every cut item has a key no higher than any kept one |
| Sorting.TopOfSorted | retrieval.py:41-42 | the first `n` items of the sorted pairs come from the input, are in non-increasing key order, and outrank everything cut |
| Retrieval.CountContained | retrieval.py:35-37 | the number of terms found is at most the number of terms |
| Retrieval.CountContainedZero | retrieval.py:35-37 | no term is counted iff no term occurs in the text |
| Retrieval.BoostedAtLeastScore | retrieval.py:32-37 | the boosted score is never below the raw score, and equals it iff no term occurs in the match's text |
| Retrieval.NothingInEmpty | retrieval.py:32 | a match without text (`""`) receives no boost from non-empty terms |
| Retrieval.NoTextNoBoost | retrieval.py:32-37 | a match whose metadata has no `text` keeps its raw score for any query |
| Retrieval.BoostScore | retrieval.py:33-37 | the loop adds 0.25 once per term (repeats included) found in the text |
| Retrieval.Keyed | retrieval.py:29-39 | one `(score, match)` pair per match |
| Retrieval.KeyedSnoc | retrieval.py:39 | each loop step appends the pair of the next match |
| Retrieval.RankedTop | retrieval.py:41-42 | the first `n` sorted matches come from the input, in non-increasing boosted score, and no cut match has a higher boosted score |
| Retrieval.Retrieve | retrieval.py:17-42 | returns `min(5, #matches)` of the given matches, in non-increasing boosted score, and no match left out has a higher boosted score than one returned |
| Hybrid.IdsSnoc | retrieval_hybrid.py:29 | the id set of a list grows by the id of each appended hit |
| Hybrid.HitMap | retrieval_hybrid.py:33-34 | the map has exactly the hits' ids as keys, and each id maps to a hit of the list with that id |
| Hybrid.ScoreMap | retrieval_hybrid.py:23-24 | the score map has exactly the hits' ids as keys |
| Hybrid.LastHitWins | retrieval_hybrid.py:23-24 | for a repeated id the last hit in the list provides both the map entry and the score |
| Hybrid.ScoreMapAgrees | retrieval_hybrid.py:23-34 | the score stored for an id is the score of the hit stored for it |
| Hybrid.MaxOf | retrieval_hybrid.py:8 | `max` of a non-empty set of scores is a member of the set and bounds all of them |
| Hybrid.Top | retrieval_hybrid.py:8 | the maximum score bounds every score in the map |
| Hybrid.TopAttained | retrieval_hybrid.py:8 | some id has the maximum score |
| Hybrid.Normalize | retrieval_hybrid.py:5-11 | normalisation keeps exactly the same ids |
| Hybrid.NormalizeAt | retrieval_hybrid.py:11 | with a non-zero maximum each score is divided by the maximum |
| Hybrid.NormalizeZeroMax | retrieval_hybrid.py:9-10 | a map whose maximum is 0 is returned unchanged |
| Hybrid.NormalizePositiveMax | retrieval_hybrid.py:11 | with a positive maximum, scores are at most 1, exactly the best ids get 1, order is preserved, and non-negative scores stay non-negative |
| Hybrid.NormalizeNegativeMax | retrieval_hybrid.py:11 | with a negative maximum, scores are at least 1, exactly the best ids get 1, and the order is reversed |
| Hybrid.AlphaExtremes | retrieval_hybrid.py:37-39 | with `alpha = 1` only the vector score counts, with `alpha = 0` only the keyword score; a missing id contributes 0 |
| Hybrid.NormalizedAtMostOne | retrieval_hybrid.py:5-11 | when the map is empty or its best score is positive, a normalised score is at most 1, and the best id's is 1 (a negative best score gives scores of at least 1, see `Hybrid.NormalizeNegativeMax`) |
| Hybrid.FusedBounds | retrieval_hybrid.py:37-39 | for `0 <= alpha <= 1` and positive maxima a fused score is at most 1, and exactly 1 for an id best in both stores |
| Hybrid.AlphaExtremesKeepOrder | retrieval_hybrid.py:26-39 | with `alpha = 1` and a positive best raw vector score, the fused order of vector ids is their raw vector-score order; with `alpha = 0` and a positive best raw keyword score, the same for keyword ids (a negative best score reverses the order, see `Hybrid.NormalizeNegativeMax`) |
| Hybrid.MergedIdsMembers | retrieval_hybrid.py:42 | the ids of the merged entries are exactly the ids of its items |
| Hybrid.ProgressStart | retrieval_hybrid.py:29-31 | before the loop nothing is merged and every id of the union is still to be visited |
| Hybrid.ProgressStep | retrieval_hybrid.py:36-42 | one iteration moves one id from the ids still to visit to `merged`, with its fused score and picked hit |
| Hybrid.StepKeepsPartition | retrieval_hybrid.py:36-42 | merged ids and ids still to visit stay disjoint and together make up the union |
| Hybrid.PicksHaveDistinctIds | retrieval_hybrid.py:41 | distinct picked hits have distinct ids |
| Hybrid.TopDistinct | retrieval_hybrid.py:44-46 | a prefix of a sorted duplicate-free list is duplicate-free |
| Hybrid.MergedPairs | retrieval_hybrid.py:36-42 | after the loop, each entry's score is the fused score of its item's id, and the items are pairwise distinct |
| Hybrid.TopArePicks | retrieval_hybrid.py:41-46 | every kept item is the hit picked for its id |
| Hybrid.MissingIdWasCut | retrieval_hybrid.py:36-46 | the hit picked for an id of the union that is missing from the result is among the merged items the slice cut |
| Hybrid.FusedTopArePicks | retrieval_hybrid.py:41-46 | the result's hits are the vector hit for their id if there is one, else the keyword hit |
| Hybrid.FusedTopDistinct | retrieval_hybrid.py:29-46 | no id appears twice in the result |
| Hybrid.FusedTopOrdered | retrieval_hybrid.py:44-46 | the result is in non-increasing fused score |
| Hybrid.FusedTopBest | retrieval_hybrid.py:36-46 | no id of the union left out of the result has a higher fused score than one returned |
| Hybrid.HybridRetrieve | retrieval_hybrid.py:14-46 | returns `min(k, #ids)` hits (Python slice length for negative `k`), so at most five with the default `k=5`: picks of distinct ids from the union, in non-increasing fused score, and nothing left out outranks anything returned; with the default `alpha=0.6` and positive best raw scores every returned hit has fused score at most 1 |
| Hybrid.Merge | retrieval_hybrid.py:36-42 | visits every id of the union exactly once, in some order, appending its fused score and picked hit |
| Chunker.CleanTextWords | chunker.py:8-9 | cleaning keeps exactly the words of the text |
| Chunker.CleanTextCollapsed | chunker.py:8-9 | cleaned text has no leading or trailing whitespace and only single spaces |
| Chunker.CleanTextIdempotent | chunker.py:8-9 | cleaning twice is cleaning once |
| Chunker.CleanTextEmpty | chunker.py:8-9 | cleaning gives "" iff the page is blank or all whitespace |
| Chunker.PartName | elastic_store.py:18 | part labels ("full", "a", "b") are non-empty and contain no `_` |
| Chunker.PartNameInjective | elastic_store.py:18 | different parts have different labels |
| Chunker.SplitIfNeeded | chunker.py:12-22 | a text becomes one or two parts |
| Chunker.SplitShortIsFull | chunker.py:13-14 | a text within the token limit stays whole, labelled "full" |
| Chunker.SplitLongHalves | chunker.py:16-22 | an over-limit text becomes parts "a" and "b" whose words, concatenated, are the text's words, with the first `n // 2` words in "a" |
| Chunker.HalvesOfWords | chunker.py:17-22 | the two halves re-split to the first `half` and the remaining words |
| Chunker.SplitLongRejoins | chunker.py:16-22 | for a clean over-limit text with at least two words, joining half "a", a space and half "b" gives the text back |
| Chunker.SplitIsNotRecursive | chunker.py:12-22 | a half that is still over the limit is not split again |
| Chunker.PageChunks | chunker.py:37-45 | one record per part of the page |
| Chunker.RecordsByPage | chunker.py:30-45 | one list of records per page |
| Chunker.RecordsByPageAt | chunker.py:30-37 | the first 5 pages give no records; the others give the chunks of their cleaned text (`None` read as "") |
| Chunker.ConcatSnoc | chunker.py:39-40 | appending a page's records extends the output by exactly those records |
| Chunker.LoadAndChunk | chunker.py:25-47 | the loop's output is all pages' records, in page order |
| Chunker.LoadPage | chunker.py:30-45 | one outer iteration appends the current page's records, or nothing for a skipped page |
| Chunker.LoadStep | chunker.py:30-45 | one outer iteration turns the output of the first `i` pages into the output of the first `i + 1` |
| Chunker.AddPage | chunker.py:39-45 | the inner loop appends one record per part, in part order |
| Chunker.PageChunksClean | chunker.py:35-45 | each record of a page carries page number `i + 1`, the token count of its own text, and clean text |
| Chunker.RecordsByPageShape | chunker.py:30-45 | per page: no records for the first 5; one or two records with distinct parts otherwise; every record is numbered `i + 1` and well formed |
| Chunker.PageRecordsShape | chunker.py:30-45 | the same for one page |
| Chunker.PagePartsDistinct | chunker.py:37-45 | no page has two records with the same part |
| Chunker.ConcatPaged | chunker.py:30-47 | records of successive pages, concatenated, have pages in `(5, #pages]`, non-decreasing, with distinct `(page, part)` keys |
| Chunker.ConcatCount | chunker.py:30-47 | with one or two records per kept page, the total count is between the number of kept pages and twice that |
| Chunker.ChunksPagedInOrder | chunker.py:25-47 | every chunk's page number is in `6..#pages`, pages never decrease, and no two chunks share `(page, part)` |
| Chunker.ChunksWellFormed | chunker.py:35-45 | every chunk's `tokens` is the token count of its text, and its text is whitespace-collapsed |
| Chunker.ChunkCount | chunker.py:25-47 | a document of `n` pages yields between `n - 5` and `2(n - 5)` chunks (none when `n <= 5`) |
| Chunker.PageKeepsWords | chunker.py:12-22 | the records of a kept page hold exactly the words of its extracted text, in order: a single "full" record with the cleaned text when within the limit, otherwise "a" with the first `n // 2` words and "b" with the rest |
| Chunker.PageRecordsWords | chunker.py:30-45 | the records of page `i` hold no words for a skipped page and otherwise exactly the words of its text (`None` read as "") |
| Chunker.ChunkAllWords | chunker.py:25-47 | the words of all chunks, in output order, are the words of pages 6 onward, in page order: no word is lost, repeated or reordered |
| ElasticStore.ExtractArticle | elastic_store.py:6-10 | a result is "article_" followed by a non-empty run of digits |
| ElasticStore.ExtractArticleNone | elastic_store.py:6-10 | the result is None iff the lower-cased text has no match of the pattern |
| ElasticStore.ExtractArticleLeftmost | elastic_store.py:6-10 | a result is "article_" plus the maximal digit run of the leftmost match |
| ElasticStore.ExtractArticleFirstTerm | elastic_store.py:6-10 | there is an article iff `extract_terms` finds a term, and it is "article_" plus the digits of the first term |
| ElasticStore.ExtractArticleIgnoresCase | elastic_store.py:7 | lower-casing the text first changes nothing |
| ElasticStore.Title | elastic_store.py:25 | the title is the prefix of the text of length `min(120, len)` |
| ElasticStore.BuildActions | elastic_store.py:13-27 | one action per chunk with the index name, the id `<source>_p<page>_<part>`, and the chunk's text, source, page, part, article and title |
| ElasticStore.SplitAtUnderscore | elastic_store.py:18 | `a_x == b_y` with no `_` in `a` or `b` forces `a == b` and `x == y` |
| ElasticStore.DigitsHaveNoUnderscore | elastic_store.py:18 | a printed page number has no `_` |
| ElasticStore.DocIdInjective | elastic_store.py:18 | for one source, equal ids mean equal page and part |
| ElasticStore.ActionIdsDistinct | elastic_store.py:13-27 | chunks with distinct `(page, part)` get distinct ids |
| ElasticStore.DocumentIdsDistinct | elastic_store.py:13-27 | the actions built from one document's chunks have pairwise distinct ids, so indexing one document never overwrites one of its own chunks |
| VectorIndex.Index.constructor | pinecone_store.py:35 | a fresh index handle has been sent nothing |
| VectorIndex.Index.Upsert | pinecone_store.py:48 | an upsert appends its batch to what the index was sent |
| VectorIndex.Slice | pinecone_store.py:47 | `payload[i:i + b]` has `b` records, or what is left at the end |
| VectorIndex.BatchesFlatten | pinecone_store.py:46-48 | the batches, concatenated, are the payload: every record is sent once, in order |
| VectorIndex.BatchSizes | pinecone_store.py:46-48 | every batch is non-empty and holds at most `batch_size` records, and every batch but the last holds exactly `batch_size` |
| VectorIndex.BatchCount | pinecone_store.py:46-48 | there are `ceil(n / batch_size)` batches, none for an empty payload |
| VectorIndex.DefaultBatchCount | pinecone_store.py:30 | with the default `batch_size=40`, `n` records go out in `ceil(n / 40)` batches |
| VectorIndex.SendInBatches | pinecone_store.py:46-48 | a positive batch size sends the payload's batches in order; 0 raises the zero-step error and sends nothing; a negative size sends nothing |
| PineconeStore.Payload | pinecone_store.py:37-44 | one record per tuple |
| PineconeStore.PayloadKeepsTuples | pinecone_store.py:37-44 | each record carries its tuple's id, values and metadata |
| PineconeStore.PayloadConcat | pinecone_store.py:37-44 | the payload of a concatenation is the concatenation of payloads |
| PineconeStore.UpsertChunks | pinecone_store.py:30-48 | the index is sent the payload's batches of `batch_size` in order; the zero and negative sizes behave as for the shared loop |
| PineconeStore.UpsertChunksBatches | pinecone_store.py:30-48 | every record is sent exactly once, in order, in `ceil(n / batch_size)` non-empty batches of `batch_size` records, the last possibly shorter |
| PineconeSearch.ToFloat | pinecone_search.py:33 | `float(x)` is a float with the same value |
| PineconeSearch.Floats | pinecone_search.py:33 | the converted vector has the same length, is all floats, and has the same values |
| PineconeSearch.FloatsIdempotent | pinecone_search.py:33 | converting twice is converting once |
| PineconeSearch.FloatsOfFloats | pinecone_search.py:33 | a vector of floats is unchanged |
| PineconeSearch.BuildPayload | pinecone_search.py:29-39 | the loop builds one record per tuple with its id and metadata and a float copy of its vector |
| PineconeSearch.ConvertedIsPayloadOfConverted | pinecone_search.py:29-39 | this payload is the `upsert_chunks` payload of the float-converted tuples |
| PineconeSearch.SamePayloadForFloats | pinecone_search.py:29-39 | for all-float vectors both upsert functions build the same payload |
| PineconeSearch.UpsertBatch | pinecone_search.py:25-42 | the index is sent the converted payload's batches of `batch_size` in order; zero and negative sizes as above |

## Left out

- Input and output are not modelled:
  - PDF reading (`PdfReader`), embedding and tokenising; `token_len` is a parameter;
  - the network clients: the vector-index query in `retrieve`, `search_es`, `ensure_index` in both stores, the `bulk` call and the index lookup `pc.Index(...)`;
  - environment configuration and the `print` progress messages.
  - The hit lists a query returns are inputs. The vector index is a log of the batches it was sent.
- `bulk_upsert` in `elastic_store.py` only wires `build_actions` to the client, so only `build_actions` is modelled.
- Scores and vector components are exact reals. Floating-point rounding in the boost sums, the division in `normalize` and the fusion is not modelled.
- Metadata is modelled as a map from strings to strings. Non-string metadata values are not modelled.
- Text.Lower: maps only ASCII `A`–`Z`. Python's `str.lower()` also lowers non-ASCII letters.
- Text.IsDigit: accepts only ASCII digits. Python's `\d` on `str` also matches other Unicode decimal digits.
- Retrieval.Retrieve: does not say which of several matches with equal boosted scores survive the cut; that follows from `Sorting.SortDescStable` but is not stated of the result.
- Hybrid.HybridRetrieve: does not say which of several hits with equal fused scores survive the cut, because the merged list follows the iteration order of a Python `set`.
- Hybrid.Merge: visits the ids of the union in an arbitrary order, as iterating a Python `set` does. Nothing downstream depends on that order except tie-breaking.
- Hybrid.NormalizeNegativeMax: with a negative best score, division by it reverses the order of the scores. The model keeps this behaviour of the code.
- VectorIndex.SendInBatches: a zero `batch_size` makes `range` raise `ValueError`. It is modelled as the `ZeroStep` status with nothing sent, and the exception's propagation is not modelled.
- The sort is a function over sequences, not an in-place sort. Aliasing of the `merged` and `scored` lists is not modelled.
- There is no sliding window and no content-word extraction, and chunk text keeps its case: an over-limit page is halved once into parts "a" and "b", otherwise kept whole as "full".
- The citation boost only changes the order and the cut in `retrieve`. The hits themselves keep their raw scores, as in the code.
- `hybrid_retrieve` normalises each backend's scores as the code does. There is no tolerance of a failing backend, because the code has none.
