/** SnowflakeIdBucket: a generator plus a buffer of pre-generated IDs. `get_id` refills the
    buffer with one batch of lazy_generate results when it is empty and then pops the
    most recently pushed ID. The ghost history `served` records every ID handed out, so
    that the buffer's invariant can say that none is ever handed out twice. */
module Bucket {
  import opened Layout
  import opened Strategies
  import opened Generator

  /** How many IDs one refill pushes: one fewer than the counter's 4096 values. */
  const BatchSize: nat := 4095

  lemma NoRepeatsAppend(s: seq<nat>, x: nat)
    requires NoRepeats(s) && x !in s
    ensures NoRepeats(s + [x])
  {
    forall i, j | 0 <= i < j < |s| + 1
      ensures (s + [x])[i] != (s + [x])[j]
    {
      if j == |s| {
        assert (s + [x])[i] == s[i];
      }
    }
  }

  /** One more lazy call of a batch extends the state and the IDs by one step, and the
      timestamp stays below `g0.last + 2`. */
  lemma BatchStep(g0: Gen, i: nat)
    requires WellFormed(g0)
    requires i < BatchSize
    ensures Iterate(g0, LazyCalls(i + 1)) == LazyStep(Iterate(g0, LazyCalls(i)))
    ensures Ids(g0, LazyCalls(i + 1)) == Ids(g0, LazyCalls(i)) + [IdOf(Iterate(g0, LazyCalls(i + 1)))]
    ensures Iterate(g0, LazyCalls(i + 1)).last <= g0.last + 1
  {
    assert LazyCalls(i + 1)[..i] == LazyCalls(i);
    LazyCounter(g0, i + 1);
  }

  /** Appending a batch to a buffer whose contents are at most the generator's latest ID
      keeps the buffer strictly increasing and keeps served IDs out of it. */
  lemma AppendBatch(g0: Gen, before: seq<nat>, served: seq<nat>)
    requires WellFormed(g0)
    requires Increasing(before) && forall x :: x in before ==> x <= IdOf(g0)
    requires forall x :: x in served ==> x <= IdOf(g0) && x !in before
    ensures var after := before + Ids(g0, LazyCalls(BatchSize));
      var g1 := Iterate(g0, LazyCalls(BatchSize));
      Increasing(after) &&
      (forall x :: x in after ==> x <= IdOf(g1)) &&
      (forall x :: x in served ==> x <= IdOf(g1) && x !in after)
  {
    var batch := Ids(g0, LazyCalls(BatchSize));
    LazySteady(g0, BatchSize);
    RunOrder(g0, LazyCalls(BatchSize));
    assert IdOf(g0) < batch[0];
    var after := before + batch;
    forall i, j | 0 <= i < j < |after|
      ensures after[i] < after[j]
    {
      if j >= |before| && i < |before| {
        assert after[i] in before;
      }
    }
  }

  class SnowflakeIdBucket {
    const generator: SnowflakeIdGenerator
    var bucket: seq<nat>
    ghost var served: seq<nat>

    /** The buffer is strictly increasing in push order; nothing in it or already served is
        above the generator's latest ID; nothing served is in the buffer or served twice. */
    ghost predicate Valid()
      reads this, generator
    {
      generator.Valid() &&
      Increasing(bucket) &&
      (forall x :: x in bucket ==> x <= IdOf(generator.State())) &&
      (forall x :: x in served ==> x <= IdOf(generator.State()) && x !in bucket) &&
      NoRepeats(served)
    }

    /** `new`: a fresh generator built at clock reading `now`, and an empty buffer. */
    constructor (machineId: nat, nodeId: nat, now: nat)
      requires machineId < IdentityModulus && nodeId < IdentityModulus
      requires now < TimeBound
      ensures Valid() && fresh(generator)
      ensures generator.State() == Gen(now, machineId, nodeId, 0)
      ensures bucket == [] && served == []
    {
      generator := new SnowflakeIdGenerator(machineId, nodeId, now);
      bucket := [];
      served := [];
    }

    /** get_id: refill when empty, then remove and return the last element. */
    method GetId() returns (id: nat)
      requires Valid()
      requires bucket == [] ==> generator.lastTimeMillis + 1 < TimeBound
      modifies this, generator
      ensures Valid()
      ensures old(bucket) != [] ==>
        id == old(bucket)[|old(bucket)| - 1] && bucket == old(bucket)[..|old(bucket)| - 1] &&
        generator.State() == old(generator.State())
      ensures old(bucket) == [] ==>
        var batch := Ids(old(generator.State()), LazyCalls(BatchSize));
        id == batch[BatchSize - 1] && bucket == batch[..BatchSize - 1] &&
        generator.State() == Iterate(old(generator.State()), LazyCalls(BatchSize))
      ensures forall x :: x in bucket ==> x < id
      ensures id !in old(served) && served == old(served) + [id]
    {
      if bucket == [] {
        GenerateIds();
      }
      ghost var full := bucket;
      id := bucket[|bucket| - 1];
      bucket := bucket[..|bucket| - 1];
      assert forall x :: x in bucket ==> x in full && x < id;
      assert id in full && id !in served;
      NoRepeatsAppend(served, id);
      served := served + [id];
    }

    /** generate_ids: push BatchSize lazy_generate results after whatever the buffer holds. */
    method GenerateIds()
      requires Valid()
      requires generator.lastTimeMillis + 1 < TimeBound
      modifies this, generator
      ensures Valid()
      ensures bucket == old(bucket) + Ids(old(generator.State()), LazyCalls(BatchSize))
      ensures generator.State() == Iterate(old(generator.State()), LazyCalls(BatchSize))
      ensures served == old(served)
    {
      ghost var g0 := generator.State();
      for i := 0 to BatchSize
        invariant generator.Valid()
        invariant generator.State() == Iterate(g0, LazyCalls(i))
        invariant bucket == old(bucket) + Ids(g0, LazyCalls(i))
        invariant served == old(served)
      {
        BatchStep(g0, i);
        var id := generator.LazyGenerate();
        bucket := bucket + [id];
      }
      AppendBatch(g0, old(bucket), served);
    }
  }
}
