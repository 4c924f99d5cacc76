/**
 * `pinecone_store.py`: `upsert_chunks` turns `(id, vector, metadata)`
 * tuples into upsert records and sends them in batches. The index handle
 * (`pc.Index(PINECONE_INDEX)`) is a parameter; `ensure_index` and the
 * progress messages are not modelled.
 */
module PineconeStore {
  import opened VectorIndex

  /** The record of one tuple: the vector is passed on as it is. */
  function RecordOf(v: Vector): Record {
    Record(v.0, v.1, v.2)
  }

  /** The payload comprehension: one record per tuple, in order. */
  function Payload(vectors: seq<Vector>): (payload: seq<Record>)
    ensures |payload| == |vectors|
  {
    seq(|vectors|, i requires 0 <= i < |vectors| => RecordOf(vectors[i]))
  }

  /** Each record carries its tuple's id, vector and metadata unchanged. */
  lemma PayloadKeepsTuples(vectors: seq<Vector>)
    ensures forall i :: 0 <= i < |vectors| ==>
      && Payload(vectors)[i].id == vectors[i].0
      && Payload(vectors)[i].values == vectors[i].1
      && Payload(vectors)[i].metadata == vectors[i].2
  {
  }

  /** The payload of a concatenation is the concatenation of the payloads,
      so batching never reorders tuples. */
  lemma PayloadConcat(u: seq<Vector>, v: seq<Vector>)
    ensures Payload(u + v) == Payload(u) + Payload(v)
  {
  }

  /** `upsert_chunks(vectors, batch_size)`: build the payload, then send
      `payload[i:i + batch_size]` for every `i` in
      `range(0, len(payload), batch_size)`. */
  method UpsertChunks(index: Index, vectors: seq<Vector>, batchSize: int) returns (status: Status)
    modifies index
    ensures status == ZeroStep <==> batchSize == 0
    ensures batchSize > 0 ==> index.sent == old(index.sent) + Batches(Payload(vectors), batchSize)
    ensures batchSize <= 0 ==> index.sent == old(index.sent)
  {
    var payload := Payload(vectors);
    status := SendInBatches(index, payload, batchSize);
  }

  /** With a positive batch size every record reaches the index exactly
      once and in order, in `⌈|vectors| / batch_size⌉` calls of at most
      `batch_size` records, all but the last full. */
  lemma UpsertChunksBatches(vectors: seq<Vector>, batchSize: nat)
    requires batchSize > 0
    ensures Flatten(Batches(Payload(vectors), batchSize)) == Payload(vectors)
    ensures WellSized(Batches(Payload(vectors), batchSize), batchSize)
    ensures var c := |Batches(Payload(vectors), batchSize)|;
      c * batchSize >= |vectors| && (c - 1) * batchSize < |vectors|
  {
    BatchesFlatten(Payload(vectors), batchSize);
    BatchSizes(Payload(vectors), batchSize);
    BatchCount(Payload(vectors), batchSize);
  }
}
