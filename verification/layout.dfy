/** The 64-bit layout of a Snowflake ID, shared by all three generation strategies:
    bits 63..22 hold the timestamp, bits 21..17 the machine id, bits 16..12 the node id
    and bits 11..0 the sequence counter `idx`. The source builds an ID as
    `last << 22 | machine << 17 | node << 12 | idx`; this module models that expression
    with an explicit bitwise OR and proves what it means as arithmetic. */
module Layout {

  /** The sequence counter is 12 bits wide: it counts modulo 4096. */
  const SeqModulus: nat := 4096

  /** Machine and node ids are meant to fit in 5 bits. */
  const IdentityModulus: nat := 32

  /** 2^41: a timestamp below this keeps `last << 22` inside a signed 64-bit integer. */
  const TimeBound: nat := 0x200_0000_0000

  /** 2^63: one past the largest signed 64-bit integer. */
  const I64Bound: nat := 0x8000_0000_0000_0000

  function Pow2(k: nat): (r: nat)
    ensures r >= 1
  {
    if k == 0 then 1 else 2 * Pow2(k - 1)
  }

  /** Bitwise OR of two non-negative integers, one bit at a time from the least significant. */
  function Or(a: nat, b: nat): (r: nat)
    ensures a <= r && b <= r && r <= a + b
    decreases a + b
  {
    if a == 0 then b
    else if b == 0 then a
    else 2 * Or(a / 2, b / 2) + (if a % 2 == 1 || b % 2 == 1 then 1 else 0)
  }

  /** The packing expression of src/lib.rs, evaluated left to right as Rust does; a left
      shift by k of a value that does not overflow is a product with 2^k. */
  function Pack(last: nat, machine: nat, node: nat, idx: nat): (r: nat)
    ensures last * 4194304 <= r <= Compose(last, machine, node, idx)
  {
    Or(Or(Or(last * 4194304, machine * 131072), node * 4096), idx)
  }

  /** What the packing denotes when the fields fit their ranges: the shifted fields added up. */
  function Compose(last: nat, machine: nat, node: nat, idx: nat): nat {
    last * 4194304 + machine * 131072 + node * 4096 + idx
  }

  /** The four bit fields of an ID: bits 63..22, 21..17, 16..12 and 11..0. */
  function TimestampOf(id: nat): nat { id / 4194304 }
  function MachineOf(id: nat): nat { id / 131072 % IdentityModulus }
  function NodeOf(id: nat): nat { id / 4096 % IdentityModulus }
  function SequenceOf(id: nat): nat { id % SeqModulus }

  /** The caller contract on the fields that share the low 22 bits. */
  predicate InLayout(machine: nat, node: nat, idx: nat) {
    machine < IdentityModulus && node < IdentityModulus && idx < SeqModulus
  }

  /** 2^12, 2^17 and 2^22: the shift amounts of the three upper fields. */
  lemma Pow2Values()
    ensures Pow2(12) == 4096 && Pow2(17) == 131072 && Pow2(22) == 4194304
  {
  }

  /** OR with a value that fits below bit k adds it to a multiple of 2^k: the fields do not overlap. */
  lemma {:induction false} OrDisjoint(a: nat, b: nat, k: nat)
    requires b < Pow2(k)
    ensures Or(a * Pow2(k), b) == a * Pow2(k) + b
  {
    if k == 0 || a == 0 || b == 0 {
    } else {
      var m := a * Pow2(k - 1);
      assert a * Pow2(k) == 2 * m;
      OrDisjoint(a, b / 2, k - 1);
      assert Or(a * Pow2(k), b) == 2 * Or(m, b / 2) + b % 2;
    }
  }

  /** The OR-packing equals the arithmetic sum of the shifted fields. */
  lemma PackIsSum(last: nat, machine: nat, node: nat, idx: nat)
    requires InLayout(machine, node, idx)
    ensures Pack(last, machine, node, idx) == last * 4194304 + machine * 131072 + node * 4096 + idx
  {
    var hi := Or(last * 4194304, machine * 131072);
    assert hi == last * 4194304 + machine * 131072 by {
      Pow2Values();
      OrDisjoint(last, machine * 131072, 22);
    }
    var mid := Or(hi, node * 4096);
    assert mid == hi + node * 4096 by {
      Pow2Values();
      assert hi == (last * 32 + machine) * Pow2(17);
      OrDisjoint(last * 32 + machine, node * 4096, 17);
    }
    assert Or(mid, idx) == mid + idx by {
      Pow2Values();
      assert mid == (last * 1024 + machine * 32 + node) * Pow2(12);
      OrDisjoint(last * 1024 + machine * 32 + node, idx, 12);
    }
  }

  /** Decoding the four bit fields gives back what was packed. */
  lemma DecodePack(last: nat, machine: nat, node: nat, idx: nat)
    requires InLayout(machine, node, idx)
    ensures TimestampOf(Pack(last, machine, node, idx)) == last
    ensures MachineOf(Pack(last, machine, node, idx)) == machine
    ensures NodeOf(Pack(last, machine, node, idx)) == node
    ensures SequenceOf(Pack(last, machine, node, idx)) == idx
  {
    PackIsSum(last, machine, node, idx);
    DecodeSum(last, machine, node, idx, Pack(last, machine, node, idx));
  }

  lemma DecodeSum(last: nat, machine: nat, node: nat, idx: nat, id: nat)
    requires InLayout(machine, node, idx)
    requires id == last * 4194304 + machine * 131072 + node * 4096 + idx
    ensures TimestampOf(id) == last && MachineOf(id) == machine
    ensures NodeOf(id) == node && SequenceOf(id) == idx
  {
    var above17, above12 := last * 32 + machine, last * 1024 + machine * 32 + node;
    assert id / 131072 == above17 by {
      assert id == above17 * 131072 + (node * 4096 + idx);
    }
    assert id / 4096 == above12 by {
      assert id == above12 * 4096 + idx;
    }
    assert above12 == (last * 32 + machine) * 32 + node;
  }

  /** Two IDs with the same identity compare as their (timestamp, sequence) pairs compare,
      lexicographically. */
  lemma ComposeOrder(last1: nat, idx1: nat, last2: nat, idx2: nat, machine: nat, node: nat)
    requires InLayout(machine, node, idx1) && InLayout(machine, node, idx2)
    ensures Compose(last1, machine, node, idx1) < Compose(last2, machine, node, idx2)
        <==> last1 < last2 || (last1 == last2 && idx1 < idx2)
  {
    var low := machine * 131072 + node * 4096;
    assert low + idx1 < 4194304 && low + idx2 < 4194304;
    if last1 < last2 {
      assert last1 * 4194304 + 4194304 <= last2 * 4194304;
    } else if last2 < last1 {
      assert last2 * 4194304 + 4194304 <= last1 * 4194304;
    }
  }

  /** A timestamp below 2^41 gives a non-negative signed 64-bit ID no smaller than `last << 22`. */
  lemma PackBounds(last: nat, machine: nat, node: nat, idx: nat)
    requires InLayout(machine, node, idx)
    requires last < TimeBound
    ensures last * 4194304 <= Pack(last, machine, node, idx) < I64Bound
  {
    PackIsSum(last, machine, node, idx);
  }

  /** An ID whose timestamp is at least 23,841,857,911 ms has at least 18 decimal digits. */
  lemma EighteenDigits(last: nat, machine: nat, node: nat, idx: nat)
    requires InLayout(machine, node, idx)
    requires last >= 23_841_857_911
    ensures Pack(last, machine, node, idx) >= 100_000_000_000_000_000
  {
    PackIsSum(last, machine, node, idx);
  }
}
