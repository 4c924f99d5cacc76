/**
 * The vector index both upsert paths write to, and the batching loop they
 * share: `for i in range(0, len(payload), batch_size):
 * index.upsert(payload[i:i + batch_size])`. The remote index is modelled
 * by the log of the batches it was sent, in call order.
 */
module VectorIndex {

  /** A vector component as Python holds it: an int or a float. */
  datatype Number = Int(i: int) | Float(r: real)

  /** The numeric value of a component. */
  function ValueOf(x: Number): real {
    match x
    case Int(i) => i as real
    case Float(r) => r
  }

  /** One upserted record: `{"id", "values", "metadata"}`. */
  datatype Record = Record(id: string, values: seq<Number>, metadata: map<string, string>)

  /** The `(id, vector, metadata)` tuples the callers pass in. */
  type Vector = (string, seq<Number>, map<string, string>)

  /** The default `batch_size` of both upsert functions. */
  const DefaultBatchSize: nat := 40

  /** How a call ends: normally, or with the `ValueError` that `range`
      raises for a zero step. */
  datatype Status = Done | ZeroStep

  /** The remote index: every `upsert` call appends its batch to `sent`. */
  class Index {
    var sent: seq<seq<Record>>

    constructor ()
      ensures sent == []
    {
      sent := [];
    }

    /** `index.upsert(batch)`. */
    method Upsert(batch: seq<Record>)
      modifies this
      ensures sent == old(sent) + [batch]
    {
      sent := sent + [batch];
    }
  }

  /** `p[i:i + b]` for `0 <= i` and `0 < b`: the slice is cut at the end. */
  function Slice<T>(p: seq<T>, i: nat, b: nat): (s: seq<T>)
    requires i <= |p|
    ensures |s| == if i + b <= |p| then b else |p| - i
  {
    if i + b <= |p| then p[i..i + b] else p[i..]
  }

  /** The batches the loop sends from position `i` on, for a positive step. */
  function BatchesFrom<T>(p: seq<T>, b: nat, i: nat): seq<seq<T>>
    requires b > 0
    decreases |p| - i
  {
    if i >= |p| then [] else [Slice(p, i, b)] + BatchesFrom(p, b, i + b)
  }

  /** All the batches of `p` for step `b`. */
  function Batches<T>(p: seq<T>, b: nat): seq<seq<T>>
    requires b > 0
  {
    BatchesFrom(p, b, 0)
  }

  /** The batches one after the other. */
  function Flatten<T>(ss: seq<seq<T>>): seq<T> {
    if ss == [] then [] else ss[0] + Flatten(ss[1..])
  }

  /** The batches put back together are the payload: every record is sent
      exactly once, in order. */
  lemma {:induction false} BatchesFromFlatten<T>(p: seq<T>, b: nat, i: nat)
    requires b > 0 && i <= |p|
    ensures Flatten(BatchesFrom(p, b, i)) == p[i..]
    decreases |p| - i
  {
    if i < |p| {
      var ss := BatchesFrom(p, b, i);
      assert ss[1..] == BatchesFrom(p, b, i + b);
      if i + b <= |p| {
        BatchesFromFlatten(p, b, i + b);
        assert p[i..] == p[i..i + b] + p[i + b..];
      } else {
        assert BatchesFrom(p, b, i + b) == [];
      }
    }
  }

  lemma BatchesFlatten<T>(p: seq<T>, b: nat)
    requires b > 0
    ensures Flatten(Batches(p, b)) == p
  {
    BatchesFromFlatten(p, b, 0);
  }

  /** Every batch is non-empty and holds at most `b` records; all but the
      last hold exactly `b`. */
  predicate WellSized<T>(ss: seq<seq<T>>, b: nat) {
    && (forall k :: 0 <= k < |ss| ==> 0 < |ss[k]| <= b)
    && (forall k :: 0 <= k < |ss| - 1 ==> |ss[k]| == b)
  }

  lemma {:induction false} BatchesFromSizes<T>(p: seq<T>, b: nat, i: nat)
    requires b > 0
    ensures WellSized(BatchesFrom(p, b, i), b)
    decreases |p| - i
  {
    if i < |p| {
      BatchesFromSizes(p, b, i + b);
      var rest := BatchesFrom(p, b, i + b);
      var ss := [Slice(p, i, b)] + rest;
      assert BatchesFrom(p, b, i) == ss;
      assert forall k :: 1 <= k < |ss| ==> ss[k] == rest[k - 1];
      if rest != [] {
        assert i + b < |p|;
      }
    }
  }

  lemma BatchSizes<T>(p: seq<T>, b: nat)
    requires b > 0
    ensures WellSized(Batches(p, b), b)
  {
    BatchesFromSizes(p, b, 0);
  }

  /** The number of batches from position `i` on is ⌈(n - i) / b⌉: the
      least count `c` with `c * b >= n - i`. */
  lemma {:induction false} BatchesFromCount<T>(p: seq<T>, b: nat, i: nat)
    requires b > 0 && i <= |p|
    ensures var c := |BatchesFrom(p, b, i)|;
      c * b >= |p| - i && (c - 1) * b < |p| - i
    decreases |p| - i
  {
    if i < |p| {
      var c := |BatchesFrom(p, b, i)|;
      if i + b <= |p| {
        BatchesFromCount(p, b, i + b);
        var c' := |BatchesFrom(p, b, i + b)|;
        assert c == c' + 1;
        assert c * b == c' * b + b;
      } else {
        assert BatchesFrom(p, b, i + b) == [];
        assert c == 1;
      }
    }
  }

  /** There are ⌈n / b⌉ upsert calls, none for an empty payload. */
  lemma BatchCount<T>(p: seq<T>, b: nat)
    requires b > 0
    ensures var c := |Batches(p, b)|;
      c * b >= |p| && (c - 1) * b < |p|
    ensures |Batches(p, b)| == 0 <==> p == []
  {
    BatchesFromCount(p, b, 0);
  }

  /** With the default `batch_size=40`, `n` records go out in
      `ceil(n / 40)` batches. */
  lemma DefaultBatchCount<T>(p: seq<T>)
    ensures |Batches(p, DefaultBatchSize)| == (|p| + 39) / 40
  {
    BatchCount(p, DefaultBatchSize);
  }

  /** The batching loop: `range(0, len(payload), batch_size)` raises for a
      zero step and is empty for a negative one; a positive step sends
      `payload[i:i + batch_size]` for `i = 0, b, 2b, ...`. */
  method SendInBatches(index: Index, payload: seq<Record>, batchSize: int) returns (status: Status)
    modifies index
    ensures status == ZeroStep <==> batchSize == 0
    ensures batchSize > 0 ==> index.sent == old(index.sent) + Batches(payload, batchSize)
    ensures batchSize <= 0 ==> index.sent == old(index.sent)
  {
    if batchSize == 0 {
      return ZeroStep;
    }
    status := Done;
    if batchSize > 0 {
      var i: nat := 0;
      while i < |payload|
        invariant index.sent + BatchesFrom(payload, batchSize, i)
               == old(index.sent) + Batches(payload, batchSize)
        decreases |payload| - i
      {
        var batch := Slice(payload, i, batchSize);
        index.Upsert(batch);
        assert BatchesFrom(payload, batchSize, i) == [batch] + BatchesFrom(payload, batchSize, i + batchSize);
        i := i + batchSize;
      }
    }
  }
}
