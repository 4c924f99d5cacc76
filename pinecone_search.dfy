/**
 * `pinecone_search.py`: `upsert_batch` converts every vector component
 * with `float(x)` before building the records, then sends them in batches
 * like `upsert_chunks`. The index handle (`pc.Index(INDEX_NAME)`) is a
 * parameter; `ensure_index` is not modelled.
 */
module PineconeSearch {
  import opened VectorIndex
  import PineconeStore

  /** `float(x)`: the same value, held as a float. */
  function ToFloat(x: Number): (y: Number)
    ensures y.Float? && ValueOf(y) == ValueOf(x)
  {
    Float(ValueOf(x))
  }

  /** `[float(x) for x in vec]`. */
  function Floats(vec: seq<Number>): (r: seq<Number>)
    ensures |r| == |vec|
    ensures forall j :: 0 <= j < |vec| ==> r[j].Float? && ValueOf(r[j]) == ValueOf(vec[j])
  {
    seq(|vec|, j requires 0 <= j < |vec| => ToFloat(vec[j]))
  }

  /** Converting twice is converting once. */
  lemma FloatsIdempotent(vec: seq<Number>)
    ensures Floats(Floats(vec)) == Floats(vec)
  {
  }

  /** A vector of floats only is left as it is. */
  lemma FloatsOfFloats(vec: seq<Number>)
    requires forall j :: 0 <= j < |vec| ==> vec[j].Float?
    ensures Floats(vec) == vec
  {
  }

  /** The record of one tuple, with its vector converted. */
  function ConvertedRecord(v: Vector): Record {
    Record(v.0, Floats(v.1), v.2)
  }

  /** The payload `upsert_batch` builds. */
  function ConvertedPayload(vectors: seq<Vector>): seq<Record> {
    seq(|vectors|, i requires 0 <= i < |vectors| => ConvertedRecord(vectors[i]))
  }

  /** The loop at the top of `upsert_batch`: for each tuple in turn,
      convert its vector and append the record. */
  method BuildPayload(vectors: seq<Vector>) returns (payload: seq<Record>)
    ensures |payload| == |vectors|
    ensures forall i :: 0 <= i < |vectors| ==>
      && payload[i].id == vectors[i].0
      && payload[i].metadata == vectors[i].2
      && |payload[i].values| == |vectors[i].1|
      && (forall j :: 0 <= j < |vectors[i].1| ==>
            payload[i].values[j].Float? && ValueOf(payload[i].values[j]) == ValueOf(vectors[i].1[j]))
    ensures payload == ConvertedPayload(vectors)
  {
    payload := [];
    var i := 0;
    while i < |vectors|
      invariant 0 <= i <= |vectors|
      invariant payload == ConvertedPayload(vectors[..i])
    {
      var (vid, vec, meta) := vectors[i];
      vec := Floats(vec);
      payload := payload + [Record(vid, vec, meta)];
      assert vectors[..i + 1] == vectors[..i] + [vectors[i]];
      i := i + 1;
    }
    assert vectors[..i] == vectors;
  }

  /** The converted payload is the one `upsert_chunks` would build from
      the converted tuples. */
  lemma ConvertedIsPayloadOfConverted(vectors: seq<Vector>)
    ensures ConvertedPayload(vectors) ==
      PineconeStore.Payload(seq(|vectors|, i requires 0 <= i < |vectors| =>
        (vectors[i].0, Floats(vectors[i].1), vectors[i].2)))
  {
  }

  /** When every component is already a float, both upsert paths send the
      same records. */
  lemma SamePayloadForFloats(vectors: seq<Vector>)
    requires forall i, j :: 0 <= i < |vectors| && 0 <= j < |vectors[i].1| ==> vectors[i].1[j].Float?
    ensures ConvertedPayload(vectors) == PineconeStore.Payload(vectors)
  {
    forall i | 0 <= i < |vectors|
      ensures ConvertedPayload(vectors)[i] == PineconeStore.Payload(vectors)[i]
    {
      FloatsOfFloats(vectors[i].1);
    }
  }

  /** `upsert_batch(vectors, batch_size)`. */
  method UpsertBatch(index: Index, vectors: seq<Vector>, batchSize: int) returns (status: Status)
    modifies index
    ensures status == ZeroStep <==> batchSize == 0
    ensures batchSize > 0 ==> index.sent == old(index.sent) + Batches(ConvertedPayload(vectors), batchSize)
    ensures batchSize <= 0 ==> index.sent == old(index.sent)
  {
    var payload := BuildPayload(vectors);
    status := SendInBatches(index, payload, batchSize);
  }
}
