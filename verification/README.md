# snowflake-rs, modelled in Dafny

snowflake-rs produces 64-bit Snowflake IDs. A `SnowflakeIdGenerator` holds a timestamp
(`last_time_millis`), a machine id, a node id and a 12-bit sequence counter `idx`. Each call
bumps `idx` modulo 4096, may move the timestamp, and returns
`last << 22 | machine << 17 | node << 12 | idx`. Its three strategies differ only in how the
timestamp moves:

- `lazy_generate` never reads the clock. It adds one to the timestamp when `idx` wraps.
- `generate` reads the clock only when `idx` wraps. It adopts the reading, or the reading
  plus one if the reading equals the stored timestamp.
- `real_time_generate` reads the clock on every call. As written, it moves the timestamp
  only when the reading equals it and `idx` has wrapped. It never adopts a different
  reading and never resets `idx`.

A `SnowflakeIdBucket` owns a generator and a buffer. `get_id` refills the buffer with 4095
`lazy_generate` results when it is empty, then pops the last one.

The project has four modules:

- `Layout` (layout.dfy): the packing expression, written with an explicit bitwise OR on
  naturals. It proves that the OR equals the sum of the shifted fields, that the four bit
  fields decode back, and that IDs of one identity order as their (timestamp, idx) pairs.
- `Strategies` (strategies.dfy): the generator state as a value `Gen`. It holds the three
  strategies as pure transitions, with the clock reading an explicit argument. It also
  holds runs of calls (`Iterate`, `Ids`) and the multi-call properties.
- `Generator` (generator.dfy): class `SnowflakeIdGenerator`. Its methods update the fields
  in place, and each is proved to perform the matching transition of `Strategies`.
- `Bucket` (bucket.dfy): class `SnowflakeIdBucket`, with a `seq` buffer and a ghost
  history of served IDs. Its invariant says the buffer is strictly increasing and that no
  served ID is served again.

## Model

| member | source | states |
|---|---|---|
| `Layout.Or` | src/lib.rs:62-65 | The bitwise OR of two naturals is at least each operand and at most their sum |
| `Layout.Pack` | src/lib.rs:62-65 | The packing expression, the OR of `last << 22`, `machine << 17`, `node << 12` and `idx` taken left to right, is never below the shifted timestamp and never above the sum of the shifted fields |
| `Layout.PackIsSum` | src/lib.rs:62-65 | With machine, node below 32 and idx below 4096, the OR-packing equals last·2^22 + machine·2^17 + node·2^12 + idx: the fields do not overlap |
| `Layout.DecodePack` | src/lib.rs:93-96 | Bits 63..22, 21..17, 16..12 and 11..0 of a packed ID give back the timestamp, machine, node and idx |
| `Layout.ComposeOrder` | src/lib.rs:109-112 | For one identity, one composed ID is below another exactly when its (timestamp, idx) pair is lexicographically smaller |
| `Layout.PackBounds` | src/lib.rs:62-65 | A timestamp below 2^41 gives an ID in [last·2^22, 2^63): a non-negative i64 |
| `Layout.EighteenDigits` | src/lib.rs:175-178 | A timestamp of at least 23,841,857,911 ms gives an ID of at least 10^17, so at least 18 decimal digits |
| `Strategies.NextIdx` | src/lib.rs:40 | The bumped counter is below 4096 |
| `Strategies.LazyStep` | src/lib.rs:102-107 | lazy_generate keeps the identity and advances the pair (last, idx), read as last·4096 + idx, by exactly one |
| `Strategies.GenerateStep` | src/lib.rs:71-89 | generate keeps the timestamp unless idx wraps to 0; at a wrap the timestamp becomes the reading when it differs from the stored one, and the reading plus one when it equals it |
| `Strategies.RealTimeStep` | src/lib.rs:39-58 | real_time_generate never lowers the timestamp; it changes it exactly when the reading equals it and idx wraps to 0, and then by exactly one |
| `Strategies.Step` | src/lib.rs:39-113 | Every strategy keeps machine and node and sets idx to (idx + 1) mod 4096 |
| `Strategies.StepOrder` | src/lib.rs:39-113 | A call returns a larger ID than the state before it exactly when it advances: always for lazy_generate; for generate when the reading at a wrap is not behind the timestamp; for real_time_generate when the reading at a wrap equals it |
| `Strategies.IterateFacts` | src/lib.rs:103 | After any mix of n calls the identity is unchanged, the fields stay in range, and idx is (idx + n) mod 4096 |
| `Strategies.SequenceAt` | src/lib.rs:72 | The k-th ID of any run carries sequence field (idx + k + 1) mod 4096 |
| `Strategies.PrefixSequence` | src/lib.rs:103 | The ID after a run of n calls carries sequence field (idx + n) mod 4096 |
| `Strategies.WindowDistinct` | src/lib.rs:40 | Any 4096 consecutive IDs, under any mix of strategies and any clock, are pairwise distinct |
| `Strategies.RunOrder` | src/lib.rs:71-97 | A run whose every call advances returns strictly increasing IDs, all above the start state's ID and at most the final state's |
| `Strategies.SteadyRunDistinct` | tests/basic.rs:3-21 | Such a run never repeats an ID (the sort-and-dedup check of the tests) |
| `Strategies.LazySteady` | src/lib.rs:102-113 | Every run of lazy_generate calls advances at every call |
| `Strategies.LazyCounter` | src/lib.rs:102-107 | After n lazy_generate calls, last·4096 + idx has grown by exactly n and the identity is unchanged |
| `Strategies.LazyFullCycle` | src/lib.rs:102-107 | After 4096 lazy_generate calls the timestamp has grown by exactly 1 and idx is back to its start value |
| `Strategies.LazyTenThousandDistinct` | tests/basic.rs:43-61 | 10,000 consecutive lazy_generate calls return 10,000 distinct IDs |
| `Strategies.RealTimeStaleState` | src/lib.rs:45-58 | With every reading different from the stored timestamp, real_time_generate leaves the timestamp unchanged and only advances idx |
| `Strategies.RealTimeRepeats` | src/lib.rs:50-58 | With such readings, the ID of call k equals the ID of call k + 4096 |
| `Strategies.RealTimeDuplicateExample` | tests/basic.rs:23-41 | A generator built at ms 1000 (machine 1, node 1), called 4097 times with the clock at 1001, returns the same ID first and last |
| `Strategies.RealTimeStepIntended` | src/lib.rs:50-58 | The corrected strategy keeps the identity and bumps idx; it adopts every reading, except that a wrap within the stored millisecond gives the reading plus one, so the timestamp changes at every wrap |
| `Strategies.RealTimeIntendedIncreases` | src/lib.rs:50-58 | With a reading not behind the stored timestamp, the corrected strategy returns a strictly larger ID |
| `Generator.SnowflakeIdGenerator.constructor` | src/lib.rs:24-36 | A new generator holds the construction-time reading, the given identity, and idx 0 |
| `Generator.SnowflakeIdGenerator.PackFields` | src/lib.rs:62-65 | The packed ID decodes to the current timestamp, machine, node and idx, and fits in an i64 |
| `Generator.SnowflakeIdGenerator.RealTimeGenerate` | src/lib.rs:39-66 | Updates the fields exactly as `RealTimeStep` and returns the packing of the new fields |
| `Generator.SnowflakeIdGenerator.Generate` | src/lib.rs:71-97 | Updates the fields exactly as `GenerateStep` and returns the packing of the new fields |
| `Generator.SnowflakeIdGenerator.LazyGenerate` | src/lib.rs:102-113 | Updates the fields exactly as `LazyStep` and returns the packing of the new fields |
| `Bucket.BatchStep` | src/lib.rs:143-156 | Within one batch, each lazy call extends the run by one step, and the timestamp grows by at most one over the batch |
| `Bucket.AppendBatch` | src/lib.rs:154-155 | Appending a batch after older contents keeps the buffer strictly increasing and keeps every served ID out of it |
| `Bucket.SnowflakeIdBucket.constructor` | src/lib.rs:117-125 | A new bucket has a fresh generator at the given reading and identity, and an empty buffer |
| `Bucket.SnowflakeIdBucket.GetId` | src/lib.rs:127-140 | On a non-empty buffer, returns and removes the last element and leaves the generator alone. On an empty one, runs exactly one refill and returns its last ID, leaving the other 4094. The result is above everything left in the buffer and was never served before |
| `Bucket.SnowflakeIdBucket.GenerateIds` | src/lib.rs:142-157 | Appends exactly the next 4095 lazy_generate IDs after the existing contents, advances the generator by those 4095 calls, and keeps the bucket invariant |

## Left out

- Clock reads (`SystemTime::now()` against the hard-coded `UNIX_EPOCH`) and the panic when the
  clock is before the epoch. Each reading is a `now: nat` argument of the call that reads it.
  The construction-time reading is a constructor argument.
- The truncating `as i64` cast of `as_millis()`. Readings are assumed below 2^41.
- `sleep(Duration::from_millis(1))`. It only delays and has no effect on state; the `+ 1`
  that follows it is modelled. The code sleeps once and uses the old reading plus one. It
  does not poll the clock until it advances.
- The i64 wrap-around of `last << 22` once the timestamp reaches 2^41 ms (September 2039
  from the Unix epoch). Every method requires the new timestamp to stay below 2^41.
- Machine or node ids outside [0, 32). These would corrupt neighbouring fields. The
  constructors require the 5-bit range.
- Bucket.SnowflakeIdBucket.GenerateIds: requires timestamp + 1 < 2^41. This is a simple
  sufficient bound; the exact one depends on whether idx wraps within the batch.
- Bucket.SnowflakeIdBucket.GetId: requires the same bound, but only when the buffer is empty.
- There is no epoch parameter and no `with_epoch` constructor; the epoch is the Unix epoch.
- `#[derive(Copy, Clone)]` on both types. The bucket's generator is modelled as an object
  the bucket alone holds, not as a copied value.
- The `#[bench]` functions, `benches/basic.rs`, and the printing in the tests.
- The generator class models `real_time_generate` as written. The corrected transition
  under "## Findings" is a separate definition; the class does not use it.

## Findings

| source | as written | input that shows it | evidently intended | confidence | as-written member | corrected member |
|---|---|---|---|---|---|---|
| src/lib.rs:50-58 | `real_time_generate` stores a new timestamp only when the reading equals the stored one and idx has wrapped. A reading that has moved on is never adopted, so idx wraps back onto a timestamp already used. | Build at ms 1000 with machine 1, node 1, then call 4097 times while the clock reads 1001: call 1 and call 4097 return the same ID. The 10,000-call uniqueness test in tests/basic.rs:23-41 expects otherwise. | Adopt every reading, plus one when idx wraps within the stored millisecond, as `generate` does at a wrap. Then each call with a clock not behind the stored timestamp returns a strictly larger ID. | high; not executed | `Strategies.RealTimeRepeats` | `Strategies.RealTimeIntendedIncreases` |
