/** SnowflakeIdGenerator: the object whose methods update `idx` and `last_time_millis` in
    place. Each method is proved to perform the matching transition of module Strategies
    and to return the packing of the new state; what the transitions guarantee over many
    calls is proved there. The clock reading a method would take is its `now` argument. */
module Generator {
  import opened Layout
  import opened Strategies

  class SnowflakeIdGenerator {
    var lastTimeMillis: nat
    const machineId: nat
    const nodeId: nat
    var idx: nat

    /** The generator's fields as a value. */
    ghost function State(): Gen
      reads this
    {
      Gen(lastTimeMillis, machineId, nodeId, idx)
    }

    /** The fields fit their bit ranges, so every ID packs without overlap or overflow. */
    ghost predicate Valid()
      reads this
    {
      WellFormed(State()) && lastTimeMillis < TimeBound
    }

    /** `new`: the timestamp is the construction-time clock reading and the counter is 0. */
    constructor (machineId: nat, nodeId: nat, now: nat)
      requires machineId < IdentityModulus && nodeId < IdentityModulus
      requires now < TimeBound
      ensures Valid()
      ensures State() == Gen(now, machineId, nodeId, 0)
    {
      this.lastTimeMillis := now;
      this.machineId := machineId;
      this.nodeId := nodeId;
      this.idx := 0;
    }

    /** The ID for the current fields: bits 63..22 timestamp, 21..17 machine, 16..12 node,
        11..0 counter. */
    method PackFields() returns (id: nat)
      requires Valid()
      ensures id == IdOf(State())
      ensures TimestampOf(id) == lastTimeMillis && MachineOf(id) == machineId
      ensures NodeOf(id) == nodeId && SequenceOf(id) == idx
      ensures id < I64Bound
    {
      id := Pack(lastTimeMillis, machineId, nodeId, idx);
      PackIsSum(lastTimeMillis, machineId, nodeId, idx);
      DecodePack(lastTimeMillis, machineId, nodeId, idx);
      PackBounds(lastTimeMillis, machineId, nodeId, idx);
    }

    /** real_time_generate, as written: reads the clock on every call but moves the
        timestamp only when the reading equals it and the counter has just wrapped. */
    method RealTimeGenerate(now: nat) returns (id: nat)
      requires Valid()
      requires RealTimeStep(State(), now).last < TimeBound
      modifies this
      ensures Valid()
      ensures State() == RealTimeStep(old(State()), now)
      ensures id == IdOf(State()) && id < I64Bound
    {
      idx := (idx + 1) % SeqModulus;
      var nowMillis := now;
      if nowMillis == lastTimeMillis {
        if idx == 0 {
          nowMillis := nowMillis + 1;
          lastTimeMillis := nowMillis;
        }
      }
      id := PackFields();
    }

    /** generate: reads the clock only when the counter wraps, and then adopts the reading,
        or the reading plus one if it equals the stored timestamp. */
    method Generate(now: nat) returns (id: nat)
      requires Valid()
      requires GenerateStep(State(), now).last < TimeBound
      modifies this
      ensures Valid()
      ensures State() == GenerateStep(old(State()), now)
      ensures id == IdOf(State()) && id < I64Bound
    {
      idx := (idx + 1) % SeqModulus;
      if idx == 0 {
        var nowMillis := now;
        if nowMillis == lastTimeMillis {
          nowMillis := nowMillis + 1;
        }
        lastTimeMillis := nowMillis;
      }
      id := PackFields();
    }

    /** lazy_generate: never reads the clock; the timestamp ticks by one when the counter wraps. */
    method LazyGenerate() returns (id: nat)
      requires Valid()
      requires LazyStep(State()).last < TimeBound
      modifies this
      ensures Valid()
      ensures State() == LazyStep(old(State()))
      ensures id == IdOf(State()) && id < I64Bound
    {
      idx := (idx + 1) % SeqModulus;
      if idx == 0 {
        lastTimeMillis := lastTimeMillis + 1;
      }
      id := PackFields();
    }
  }
}
