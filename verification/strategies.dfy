/** The state of a SnowflakeIdGenerator and its three generation strategies as pure
    transitions. Every strategy bumps the 12-bit counter `idx`, may move the stored
    timestamp, and returns the packing of the new state; they differ only in how the
    timestamp moves. A clock reading is an explicit argument of the call that reads it. */
module Strategies {
  import opened Layout

  /** The fields of a generator (src/lib.rs:9-14). */
  datatype Gen = Gen(last: nat, machine: nat, node: nat, idx: nat)

  /** One call on a generator, with the clock reading the call would take. */
  datatype Call = Lazy | Generate(now: nat) | RealTime(now: nat)

  predicate WellFormed(g: Gen) {
    InLayout(g.machine, g.node, g.idx)
  }

  /** The ID a generator in state `g` returns, as a number: its fields laid out in their
      bit ranges (equal to the OR-packing by Layout.PackIsSum). */
  function IdOf(g: Gen): nat {
    Compose(g.last, g.machine, g.node, g.idx)
  }

  function NextIdx(idx: nat): (r: nat)
    ensures r < SeqModulus
  {
    (idx + 1) % SeqModulus
  }

  /** lazy_generate: the timestamp is a virtual clock that ticks when the counter wraps,
      so (last, idx) together count calls. */
  function LazyStep(g: Gen): (r: Gen)
    ensures r.machine == g.machine && r.node == g.node && r.idx == NextIdx(g.idx)
    ensures g.idx < SeqModulus ==> r.last * SeqModulus + r.idx == g.last * SeqModulus + g.idx + 1
  {
    var idx := NextIdx(g.idx);
    g.(last := if idx == 0 then g.last + 1 else g.last, idx := idx)
  }

  /** generate: the clock is read only when the counter wraps; the reading is adopted,
      or the reading plus one if it equals the stored timestamp. */
  function GenerateStep(g: Gen, now: nat): (r: Gen)
    ensures r.machine == g.machine && r.node == g.node && r.idx == NextIdx(g.idx)
    ensures r.idx != 0 ==> r.last == g.last
    ensures r.idx == 0 ==> r.last != g.last && (r.last == now || r.last == now + 1)
    ensures r.idx == 0 && now != g.last ==> r.last == now
  {
    var idx := NextIdx(g.idx);
    if idx == 0 then
      g.(last := if now == g.last then now + 1 else now, idx := idx)
    else
      g.(idx := idx)
  }

  /** real_time_generate as written: the clock is read on every call, but the stored
      timestamp moves only when the reading equals it and the counter has wrapped. */
  function RealTimeStep(g: Gen, now: nat): (r: Gen)
    ensures r.machine == g.machine && r.node == g.node && r.idx == NextIdx(g.idx)
    ensures r.last >= g.last
    ensures r.last != g.last <==> now == g.last && r.idx == 0
    ensures r.last != g.last ==> r.last == g.last + 1
  {
    var idx := NextIdx(g.idx);
    if now == g.last && idx == 0 then
      g.(last := now + 1, idx := idx)
    else
      g.(idx := idx)
  }

  function Step(g: Gen, c: Call): (r: Gen)
    ensures r.machine == g.machine && r.node == g.node && r.idx == NextIdx(g.idx)
  {
    match c
    case Lazy => LazyStep(g)
    case Generate(now) => GenerateStep(g, now)
    case RealTime(now) => RealTimeStep(g, now)
  }

  /** The state after a sequence of calls. */
  function Iterate(g: Gen, calls: seq<Call>): Gen
    decreases |calls|
  {
    if calls == [] then g
    else Step(Iterate(g, calls[..|calls| - 1]), calls[|calls| - 1])
  }

  /** The IDs a sequence of calls returns, in call order. */
  function Ids(g: Gen, calls: seq<Call>): (ids: seq<nat>)
    ensures |ids| == |calls|
    decreases |calls|
  {
    if calls == [] then []
    else Ids(g, calls[..|calls| - 1]) + [IdOf(Iterate(g, calls))]
  }

  function LazyCalls(n: nat): (calls: seq<Call>)
    ensures |calls| == n
  {
    seq(n, _ => Lazy)
  }

  /** A call returns a larger ID than the previous one: for generate the clock must not
      lag behind the stored timestamp at a wrap; for real_time_generate it must equal it. */
  predicate Advances(g: Gen, c: Call) {
    match c
    case Lazy => true
    case Generate(now) => NextIdx(g.idx) == 0 ==> now >= g.last
    case RealTime(now) => NextIdx(g.idx) == 0 ==> now == g.last
  }

  /** Every call of the sequence advances, from the state it is made in. */
  predicate Steady(g: Gen, calls: seq<Call>)
    decreases |calls|
  {
    calls == [] ||
    (Steady(g, calls[..|calls| - 1]) &&
     Advances(Iterate(g, calls[..|calls| - 1]), calls[|calls| - 1]))
  }

  predicate Increasing(s: seq<nat>) {
    forall i, j :: 0 <= i < j < |s| ==> s[i] < s[j]
  }

  /** No value occurs twice. */
  predicate NoRepeats(s: seq<nat>) {
    forall i, j :: 0 <= i < j < |s| ==> s[i] != s[j]
  }

  /** One call returns a strictly larger ID exactly when it advances. */
  lemma StepOrder(g: Gen, c: Call)
    requires WellFormed(g)
    ensures WellFormed(Step(g, c))
    ensures IdOf(g) < IdOf(Step(g, c)) <==> Advances(g, c)
  {
    var r := Step(g, c);
    ComposeOrder(g.last, g.idx, r.last, r.idx, g.machine, g.node);
  }

  /** Any mix of calls keeps the identity and moves the counter by one per call. */
  lemma {:induction false} IterateFacts(g: Gen, calls: seq<Call>)
    requires WellFormed(g)
    ensures WellFormed(Iterate(g, calls))
    ensures Iterate(g, calls).machine == g.machine && Iterate(g, calls).node == g.node
    ensures Iterate(g, calls).idx == (g.idx + |calls|) % SeqModulus
    decreases |calls|
  {
    if calls != [] {
      var prefix := calls[..|calls| - 1];
      IterateFacts(g, prefix);
      var before := Iterate(g, prefix);
      assert Iterate(g, calls) == Step(before, calls[|calls| - 1]);
      CounterSucc(g.idx + |prefix|);
    }
  }

  /** Bumping a residue and reducing again is reducing the bumped value. */
  lemma CounterSucc(x: nat)
    ensures (x % SeqModulus + 1) % SeqModulus == (x + 1) % SeqModulus
  {
  }

  /** The k-th ID of a run is the packing of the state after the first k+1 calls. */
  lemma {:induction false} IdsAt(g: Gen, calls: seq<Call>, k: nat)
    requires k < |calls|
    ensures Ids(g, calls)[k] == IdOf(Iterate(g, calls[..k + 1]))
    decreases |calls|
  {
    if k < |calls| - 1 {
      var prefix := calls[..|calls| - 1];
      IdsAt(g, prefix, k);
      assert prefix[..k + 1] == calls[..k + 1];
    } else {
      assert calls[..k + 1] == calls;
    }
  }

  /** Any 4096 consecutive IDs, under any mix of strategies and any clock, are pairwise
      distinct: their sequence fields differ. */
  lemma WindowDistinct(g: Gen, calls: seq<Call>)
    requires WellFormed(g)
    requires |calls| <= SeqModulus
    ensures NoRepeats(Ids(g, calls))
  {
    var ids := Ids(g, calls);
    forall i, j | 0 <= i < j < |calls|
      ensures ids[i] != ids[j]
    {
      SequenceAt(g, calls, i);
      SequenceAt(g, calls, j);
      WindowResidues(g.idx + i + 1, j - i);
    }
  }

  /** Two counter values less than 4096 apart leave different residues. */
  lemma WindowResidues(a: nat, d: nat)
    requires 0 < d < SeqModulus
    ensures a % SeqModulus != (a + d) % SeqModulus
  {
  }

  /** The k-th ID of any run carries sequence field (idx + k + 1) mod 4096. */
  lemma SequenceAt(g: Gen, calls: seq<Call>, k: nat)
    requires WellFormed(g)
    requires k < |calls|
    ensures SequenceOf(Ids(g, calls)[k]) == (g.idx + k + 1) % SeqModulus
  {
    IdsAt(g, calls, k);
    PrefixSequence(g, calls[..k + 1], k + 1, Ids(g, calls)[k]);
  }

  /** The ID returned by the last call of a run carries the run's final counter. */
  lemma PrefixSequence(g: Gen, prefix: seq<Call>, n: nat, id: nat)
    requires WellFormed(g)
    requires n == |prefix| && id == IdOf(Iterate(g, prefix))
    ensures SequenceOf(id) == (g.idx + n) % SeqModulus
  {
    IterateFacts(g, prefix);
    SequenceField(id, Iterate(g, prefix), (g.idx + n) % SeqModulus);
  }

  /** The sequence field of a state's ID is its counter. */
  lemma SequenceField(id: nat, s: Gen, v: nat)
    requires WellFormed(s) && id == IdOf(s) && s.idx == v
    ensures SequenceOf(id) == v
  {
    DecodeSum(s.last, s.machine, s.node, s.idx, id);
  }

  /** A run whose every call advances returns strictly increasing IDs, all above the
      starting state's and none above the final state's. */
  lemma {:induction false} RunOrder(g: Gen, calls: seq<Call>)
    requires WellFormed(g)
    requires Steady(g, calls)
    ensures Increasing(Ids(g, calls))
    ensures forall i :: 0 <= i < |calls| ==>
      IdOf(g) < Ids(g, calls)[i] <= IdOf(Iterate(g, calls))
    decreases |calls|
  {
    if calls != [] {
      var prefix := calls[..|calls| - 1];
      RunOrder(g, prefix);
      IterateFacts(g, prefix);
      StepOrder(Iterate(g, prefix), calls[|calls| - 1]);
      var before, after := IdOf(Iterate(g, prefix)), IdOf(Iterate(g, calls));
      assert before < after;
      assert IdOf(g) <= before by {
        if prefix != [] {
          assert IdOf(g) < Ids(g, prefix)[0] <= before;
        }
      }
      assert Ids(g, calls) == Ids(g, prefix) + [after];
    }
  }

  /** A run whose every call advances never repeats an ID. */
  lemma SteadyRunDistinct(g: Gen, calls: seq<Call>)
    requires WellFormed(g)
    requires Steady(g, calls)
    ensures NoRepeats(Ids(g, calls))
  {
    RunOrder(g, calls);
  }

  /** lazy_generate always advances. */
  lemma {:induction false} LazySteady(g: Gen, n: nat)
    ensures Steady(g, LazyCalls(n))
  {
    if n > 0 {
      assert LazyCalls(n)[..n - 1] == LazyCalls(n - 1);
      LazySteady(g, n - 1);
    }
  }

  /** n lazy calls advance the (timestamp, counter) pair, read as one number, by exactly n. */
  lemma {:induction false} LazyCounter(g: Gen, n: nat)
    requires WellFormed(g)
    ensures WellFormed(Iterate(g, LazyCalls(n)))
    ensures Iterate(g, LazyCalls(n)).machine == g.machine && Iterate(g, LazyCalls(n)).node == g.node
    ensures Iterate(g, LazyCalls(n)).last * SeqModulus + Iterate(g, LazyCalls(n)).idx
         == g.last * SeqModulus + g.idx + n
  {
    IterateFacts(g, LazyCalls(n));
    if n > 0 {
      assert LazyCalls(n)[..n - 1] == LazyCalls(n - 1);
      LazyCounter(g, n - 1);
    }
  }

  /** After 4096 lazy calls the timestamp has moved by exactly one and the counter is back. */
  lemma LazyFullCycle(g: Gen)
    requires WellFormed(g)
    ensures Iterate(g, LazyCalls(SeqModulus)) == g.(last := g.last + 1)
  {
    LazyCounter(g, SeqModulus);
  }

  /** 10,000 consecutive lazy calls return 10,000 distinct IDs (tests/basic.rs). */
  lemma LazyTenThousandDistinct(g: Gen)
    requires WellFormed(g)
    ensures NoRepeats(Ids(g, LazyCalls(10_000)))
  {
    LazySteady(g, 10_000);
    SteadyRunDistinct(g, LazyCalls(10_000));
  }

  /** Every call is a real_time_generate whose clock reading differs from `stamp`. */
  predicate ClockAway(calls: seq<Call>, stamp: nat) {
    forall k :: 0 <= k < |calls| ==> calls[k].RealTime? && calls[k].now != stamp
  }

  /** real_time_generate with a clock that differs from the stored timestamp never moves
      the timestamp: the state after the first k+1 such calls differs from the start only
      in the counter. */
  lemma {:induction false} RealTimeStaleState(g: Gen, calls: seq<Call>, k: nat)
    requires WellFormed(g)
    requires ClockAway(calls, g.last)
    requires k < |calls|
    ensures Iterate(g, calls[..k + 1]) == g.(idx := (g.idx + k + 1) % SeqModulus)
  {
    var prefix := calls[..k + 1];
    IterateFacts(g, prefix);
    if k > 0 {
      RealTimeStaleState(g, calls, k - 1);
      assert prefix[..k] == calls[..k];
    }
    assert prefix[k] == calls[k];
  }

  /** As written, real_time_generate with such a clock returns the same ID again every
      4096 calls. */
  lemma RealTimeRepeats(g: Gen, calls: seq<Call>)
    requires WellFormed(g)
    requires ClockAway(calls, g.last)
    ensures forall k :: 0 <= k && k + SeqModulus < |calls| ==>
      Ids(g, calls)[k] == Ids(g, calls)[k + SeqModulus]
  {
    forall k | 0 <= k && k + SeqModulus < |calls|
      ensures Ids(g, calls)[k] == Ids(g, calls)[k + SeqModulus]
    {
      RealTimeRepeatsAt(g, calls, k);
    }
  }

  lemma RealTimeRepeatsAt(g: Gen, calls: seq<Call>, k: nat)
    requires WellFormed(g)
    requires ClockAway(calls, g.last)
    requires k + SeqModulus < |calls|
    ensures Ids(g, calls)[k] == Ids(g, calls)[k + SeqModulus]
  {
    var j := k + SeqModulus;
    RealTimeStaleState(g, calls, k);
    RealTimeStaleState(g, calls, j);
    CounterPeriod(g.idx + k + 1);
    SameStateSameId(g, calls, k, j);
  }

  /** Two calls of a run that leave the same state return the same ID. */
  lemma SameStateSameId(g: Gen, calls: seq<Call>, i: nat, j: nat)
    requires i < |calls| && j < |calls|
    requires Iterate(g, calls[..i + 1]) == Iterate(g, calls[..j + 1])
    ensures Ids(g, calls)[i] == Ids(g, calls)[j]
  {
    IdsAt(g, calls, i);
    IdsAt(g, calls, j);
  }

  /** The counter value repeats after 4096 steps. */
  lemma CounterPeriod(x: nat)
    ensures x % SeqModulus == (x + SeqModulus) % SeqModulus
  {
  }

  /** A generator built at millisecond 1000 as (machine 1, node 1), then called 4097 times
      by real_time_generate while the clock reads 1001: the first and the last ID coincide. */
  lemma RealTimeDuplicateExample()
    ensures var ids := Ids(Gen(1000, 1, 1, 0), seq(4097, _ => RealTime(1001)));
      ids[0] == ids[4096]
  {
    var calls := seq(4097, _ => RealTime(1001));
    assert ClockAway(calls, 1000);
    RealTimeRepeats(Gen(1000, 1, 1, 0), calls);
  }

  /** real_time_generate as its comments intend: every reading is adopted, and the reading
      plus one when the counter wraps within the stored millisecond. */
  function RealTimeStepIntended(g: Gen, now: nat): (r: Gen)
    ensures r.machine == g.machine && r.node == g.node && r.idx == NextIdx(g.idx)
    ensures r.idx == 0 ==> r.last != g.last
    ensures !(now == g.last && r.idx == 0) ==> r.last == now
    ensures now == g.last && r.idx == 0 ==> r.last == now + 1
  {
    var idx := NextIdx(g.idx);
    g.(last := if now == g.last && idx == 0 then now + 1 else now, idx := idx)
  }

  /** With a clock that never lags the stored timestamp, the intended real_time_generate
      returns a strictly larger ID on every call, so it never repeats one. */
  lemma RealTimeIntendedIncreases(g: Gen, now: nat)
    requires WellFormed(g)
    requires now >= g.last
    ensures IdOf(g) < IdOf(RealTimeStepIntended(g, now))
  {
    var r := RealTimeStepIntended(g, now);
    ComposeOrder(g.last, g.idx, r.last, r.idx, g.machine, g.node);
  }
}
