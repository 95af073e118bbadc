/** Runs of diff calls over the concrete items: the cpu times of src/libstatgrab/cpu_stats.c and the
    interface counters of src/libstatgrab/network_stats.c. */
module CounterRuns {
  import opened Counters
  import opened KeyedDiff
  import opened MultiSnapshots
  import opened Options
  import opened Snapshots

  /** sg_cpu_stats */
  datatype CpuStats = CpuStats(
    user: U64, kernel: U64, idle: U64, iowait: U64, swap: U64, nice: U64, total: U64,
    contextSwitches: U64, voluntarySwitches: U64, involuntarySwitches: U64,
    syscalls: U64, interrupts: U64, softInterrupts: U64, systime: U64)

  /** sg_get_cpu_stats_diff_int with both readings; the counters go through counter_diff, which is plain
      subtraction or the VM_METER branch, as the platform has it */
  function SubtractCpu(diff: (U64, U64) -> U64): (CpuStats, CpuStats) -> CpuStats {
    (now: CpuStats, last: CpuStats) =>
      CpuStats(Sub64(now.user, last.user), Sub64(now.kernel, last.kernel), Sub64(now.idle, last.idle),
               Sub64(now.iowait, last.iowait), Sub64(now.swap, last.swap), Sub64(now.nice, last.nice),
               Sub64(now.total, last.total), diff(now.contextSwitches, last.contextSwitches),
               diff(now.voluntarySwitches, last.voluntarySwitches),
               diff(now.involuntarySwitches, last.involuntarySwitches),
               diff(now.syscalls, last.syscalls), diff(now.interrupts, last.interrupts),
               diff(now.softInterrupts, last.softInterrupts), Sub64(now.systime, last.systime))
  }

  const NO_STATS := CpuStats(0, 0, 0, 0, 0, 0, 0, 0, 0, 0, 0, 0, 0, 0)

  /** The same with pointers that may be NULL. */
  function CpuDelta(diff: (U64, U64) -> U64): (Option<CpuStats>, Option<CpuStats>) -> Option<CpuStats> {
    PointerDelta(SubtractCpu(diff), NO_STATS)
  }

  datatype CpuField = User | Kernel | Idle | IoWait | Swap | Nice | Total | ContextSwitches
                    | VoluntarySwitches | InvoluntarySwitches | Syscalls | Interrupts | SoftInterrupts | Systime

  function FieldOf(f: CpuField, c: CpuStats): U64 {
    match f
    case User => c.user
    case Kernel => c.kernel
    case Idle => c.idle
    case IoWait => c.iowait
    case Swap => c.swap
    case Nice => c.nice
    case Total => c.total
    case ContextSwitches => c.contextSwitches
    case VoluntarySwitches => c.voluntarySwitches
    case InvoluntarySwitches => c.involuntarySwitches
    case Syscalls => c.syscalls
    case Interrupts => c.interrupts
    case SoftInterrupts => c.softInterrupts
    case Systime => c.systime
  }

  /** The fields that go through counter_diff. */
  predicate IsCounter(f: CpuField) {
    f in {ContextSwitches, VoluntarySwitches, InvoluntarySwitches, Syscalls, Interrupts, SoftInterrupts}
  }

  ghost function Measure(f: CpuField): Option<CpuStats> -> nat {
    (c: Option<CpuStats>) => if c.None? then 0 else FieldOf(f, c.value)
  }

  lemma FieldSubtracts(diff: (U64, U64) -> U64, f: CpuField, a: CpuStats, b: CpuStats)
    ensures FieldOf(f, SubtractCpu(diff)(a, b)) == if IsCounter(f) then diff(FieldOf(f, a), FieldOf(f, b)) else Sub64(FieldOf(f, a), FieldOf(f, b))
  {}

  lemma FieldAddsUp(diff: (U64, U64) -> U64, f: CpuField, cur: Option<CpuStats>, last: Option<CpuStats>)
    requires cur.Some? && (diff == Sub64 || !IsCounter(f))
    ensures AddsUp(CpuDelta(diff), Measure(f), cur, last)
  {
    if last.Some? {
      FieldSubtracts(diff, f, cur.value, last.value);
      SubtractionIsCongruent(FieldOf(f, cur.value), FieldOf(f, last.value));
    }
  }

  lemma SubtractionIsCongruent(a: U64, b: U64)
    ensures Congruent(Sub64(a, b), a - b)
  {}

  /** Readers supply readings. */
  ghost predicate Supplied(calls: seq<Call<Option<CpuStats>>>) {
    forall i | 0 <= i < |calls| && Records(calls[i]) :: calls[i].reading.Some?
  }

  /** Over any run of cpu calls, each field of the differences returned, plus what plain get calls
      skipped, adds up to the latest reading: the times and the clock on every platform, the counters where
      counter_diff is plain subtraction. */
  lemma {:induction false} CpuRunTelescopes(calls: seq<Call<Option<CpuStats>>>, diff: (U64, U64) -> U64, f: CpuField)
    requires Supplied(calls) && (diff == Sub64 || f in {User, Kernel, Idle, IoWait, Swap, Nice, Total, Systime})
    ensures Telescoped(calls, CpuDelta(diff), Measure(f))
  {
    forall i, last | 0 <= i < |calls| && Records(calls[i]) ensures AddsUp(CpuDelta(diff), Measure(f), calls[i].reading, last) {
      FieldAddsUp(diff, f, calls[i].reading, last);
    }
    Telescopes(calls, CpuDelta(diff), Measure(f));
  }

  // ---- registers that turn over ------------------------------------------------------------------

  /** The readings that a run recorded, in order. */
  ghost function Readings<R>(calls: seq<Call<R>>): seq<R> {
    if |calls| == 0 then []
    else
      var c := calls[|calls| - 1];
      Readings(calls[..|calls| - 1]) + if Records(c) then [c.reading] else []
  }

  lemma {:induction false} LatestIsLastReading<R>(calls: seq<Call<R>>)
    ensures Latest(calls) == if Readings(calls) == [] then None else Some(Readings(calls)[|Readings(calls)| - 1])
  {
    if |calls| > 0 {
      LatestIsLastReading(calls[..|calls| - 1]);
    }
  }

  /** These readings show these register values, and the differences between neighbours are those of the
      registers. */
  ghost predicate Shows<R>(readings: seq<R>, delta: (R, R) -> R, measure: R -> nat, diff: (U64, U64) -> U64, registers: seq<U64>) {
    && |readings| == |registers|
    && (forall i | 0 <= i < |readings| :: measure(readings[i]) == registers[i])
    && forall i | 0 < i < |readings| :: measure(delta(readings[i], readings[i - 1])) == diff(registers[i], registers[i - 1])
  }

  lemma ShowsSplits<R>(readings: seq<R>, r: R, delta: (R, R) -> R, measure: R -> nat, diff: (U64, U64) -> U64, registers: seq<U64>)
    requires Shows(readings + [r], delta, measure, diff, registers)
    ensures Shows(readings, delta, measure, diff, registers[..|readings|])
    ensures measure(r) == registers[|readings|]
    ensures readings != [] ==> measure(delta(r, readings[|readings| - 1])) == diff(registers[|readings|], registers[|readings| - 1])
  {
    var more, n := readings + [r], |readings|;
    assert more[n] == r && (n > 0 ==> more[n - 1] == readings[n - 1]);
    forall i | 0 <= i < n ensures more[i] == readings[i] {
    }
  }

  /** The first register value and all differences: what a run of diff calls should return. */
  ghost function Expected(diff: (U64, U64) -> U64, registers: seq<U64>): nat {
    if registers == [] then 0 else registers[0] + TotalOf(diff, registers)
  }

  lemma ExpectedGrows(diff: (U64, U64) -> U64, registers: seq<U64>, n: nat)
    requires |registers| == n + 1
    ensures Expected(diff, registers) == Expected(diff, registers[..n]) + if n == 0 then registers[0] else diff(registers[n], registers[n - 1])
  {}

  /** What the diff calls of a run without get calls return adds up to that. */
  lemma {:induction false} ReturnedIsExpected<R>(calls: seq<Call<R>>, delta: (R, R) -> R, measure: R -> nat, diff: (U64, U64) -> U64,
                                                 registers: seq<U64>)
    requires (forall i | 0 <= i < |calls| :: !calls[i].Get?) && Shows(Readings(calls), delta, measure, diff, registers)
    ensures Returned(calls, delta, measure) == Expected(diff, registers)
  {
    if |calls| > 0 {
      var before, c := calls[..|calls| - 1], calls[|calls| - 1];
      if c.Diff? {
        ShowsSplits(Readings(before), c.reading, delta, measure, diff, registers);
        var n := |Readings(before)|;
        ReturnedIsExpected(before, delta, measure, diff, registers[..n]);
        LatestIsLastReading(before);
        ExpectedGrows(diff, registers, n);
      } else {
        ReturnedIsExpected(before, delta, measure, diff, registers);
      }
    }
  }

  /** What really happened since the register last stood at zero before the first reading. */
  ghost function TrueTotal(w: nat, truth: seq<nat>): int
    requires 0 < w && |truth| > 0
  {
    truth[|truth| - 1] - (truth[0] - truth[0] % w)
  }

  lemma ExpectedIsExact(diff: (U64, U64) -> U64, w: nat, truth: seq<nat>)
    requires 0 < w <= TWO64 && SubtractsModulo(diff, w) && |truth| > 0 && Monotone(truth)
    ensures Expected(diff, Register(w, truth)) == TrueTotal(w, truth) <==> StepsBelow(w, truth)
  {
    TotalIsExact(diff, w, truth);
  }

  lemma CpuShows(f: CpuField, readings: seq<Option<CpuStats>>, registers: seq<U64>)
    requires IsCounter(f) && |readings| == |registers|
    requires forall i | 0 <= i < |readings| :: readings[i].Some? && FieldOf(f, readings[i].value) == registers[i]
    ensures Shows(readings, CpuDelta(CounterDiff), Measure(f), CounterDiff, registers)
  {
    forall i | 0 < i < |readings|
      ensures Measure(f)(CpuDelta(CounterDiff)(readings[i], readings[i - 1])) == CounterDiff(registers[i], registers[i - 1])
    {
      FieldSubtracts(CounterDiff, f, readings[i].value, readings[i - 1].value);
    }
  }

  /** The counters of the cpu statistics on platforms with VM_METER, if they turn over at INT_MAX: over any
      run without plain get calls, what the diff calls return is what really happened if and only if less
      than 2^31 happened between any two. */
  lemma {:induction false} CpuMeterRunIsExact(calls: seq<Call<Option<CpuStats>>>, f: CpuField, truth: seq<nat>)
    requires f in {ContextSwitches, VoluntarySwitches, InvoluntarySwitches, Syscalls, Interrupts, SoftInterrupts}
    requires |truth| > 0 && Monotone(truth)
    requires forall i | 0 <= i < |calls| :: !calls[i].Get?
    requires |Readings(calls)| == |truth|
    requires forall i | 0 <= i < |truth| :: Readings(calls)[i].Some? && FieldOf(f, Readings(calls)[i].value) == truth[i] % TWO31
    ensures Returned(calls, CpuDelta(CounterDiff), Measure(f)) == TrueTotal(TWO31, truth) <==> StepsBelow(TWO31, truth)
  {
    CpuShows(f, Readings(calls), Register(TWO31, truth));
    ReturnedIsExpected(calls, CpuDelta(CounterDiff), Measure(f), CounterDiff, Register(TWO31, truth));
    ExpectedIsExact(CounterDiff, TWO31, truth);
  }

  /** Counters that never fall are right there too, whatever the steps are. */
  lemma {:induction false} CpuMeterRunIsPlain(calls: seq<Call<Option<CpuStats>>>, f: CpuField, truth: seq<U64>)
    requires f in {ContextSwitches, VoluntarySwitches, InvoluntarySwitches, Syscalls, Interrupts, SoftInterrupts}
    requires |truth| > 0 && forall i | 0 < i < |truth| :: truth[i - 1] <= truth[i]
    requires forall i | 0 <= i < |calls| :: !calls[i].Get?
    requires |Readings(calls)| == |truth|
    requires forall i | 0 <= i < |truth| :: Readings(calls)[i].Some? && FieldOf(f, Readings(calls)[i].value) == truth[i]
    ensures Returned(calls, CpuDelta(CounterDiff), Measure(f)) == truth[|truth| - 1]
  {
    CpuShows(f, Readings(calls), truth);
    ReturnedIsExpected(calls, CpuDelta(CounterDiff), Measure(f), CounterDiff, truth);
    PlainTotal(CounterDiff, TWO64, truth);
  }

  /** Against a missing reading everything passes through, and nothing is left of one that is missing. */
  lemma CpuBetweenMissing(diff: (U64, U64) -> U64, cur: CpuStats, last: Option<CpuStats>, f: CpuField)
    ensures CpuDelta(diff)(Some(cur), None) == Some(cur)
    ensures CpuDelta(diff)(None, last).Some? && FieldOf(f, CpuDelta(diff)(None, last).value) == 0
  {}

  // ---- interfaces ------------------------------------------------------------------------------

  /** The interface occurs exactly once, at index k. */
  ghost predicate OnceAt<K, V>(key: K, s: seq<Item<K, V>>, k: nat) {
    k < |s| && s[k].key == key && forall i | 0 <= i < |s| && i != k :: s[i].key != key
  }

  lemma {:induction false} MinusOnce<K, V>(v: V, key: K, last: seq<Item<K, V>>, sub: (V, V) -> V, k: nat)
    requires OnceAt(key, last, k)
    ensures MinusAll(v, key, last, sub) == sub(v, last[k].val)
  {
    var n := |last| - 1;
    if k == n {
      MinusNone(v, key, last[..n], sub);
    } else {
      MinusOnce(v, key, last[..n], sub, k);
    }
  }

  lemma {:induction false} MinusNone<K, V>(v: V, key: K, last: seq<Item<K, V>>, sub: (V, V) -> V)
    requires Absent(key, last)
    ensures MinusAll(v, key, last, sub) == v
  {
    if |last| > 0 {
      MinusNone(v, key, last[..|last| - 1], sub);
    }
  }

  /** An item that occurs once on both sides is subtracted once. */
  lemma OnceDifference<K, V>(key: K, cur: seq<Item<K, V>>, last: seq<Item<K, V>>, sub: (V, V) -> V, i: nat, k: nat)
    requires OnceAt(key, cur, i) && OnceAt(key, last, k)
    ensures OnceAt(key, Difference(cur, last, sub), i)
    ensures Difference(cur, last, sub)[i].val == sub(cur[i].val, last[k].val)
  {
    MinusOnce(cur[i].val, key, last, sub, k);
    assert Absent(key, cur[..i]);
    var d := Difference(cur, last, sub);
    assert forall m | 0 <= m < |d| :: d[m] == DifferenceAt(cur, last, sub, m);
  }

  /** The counters of an interface that transfer_diff subtracts. */
  datatype NetField = Tx | Rx | InPackets | OutPackets | InErrors | OutErrors | Collisions

  function NetCounter(f: NetField): NetCounters -> U64 {
    (c: NetCounters) =>
      match f
      case Tx => c.tx
      case Rx => c.rx
      case InPackets => c.ipackets
      case OutPackets => c.opackets
      case InErrors => c.ierrors
      case OutErrors => c.oerrors
      case Collisions => c.collisions
  }

  lemma {:induction false} SumOfOne<K, V>(key: K, s: seq<Item<K, V>>, counter: V -> U64, k: nat)
    requires OnceAt(key, s, k)
    ensures SumOf(key, s, counter) == counter(s[k].val)
  {
    var n := |s| - 1;
    if k == n {
      AbsentSumsToZero(key, s[..n], counter);
    } else {
      SumOfOne(key, s[..n], counter, k);
    }
  }

  /** The interface is in the reading once, showing this register value. */
  ghost predicate ShowsOne(f: NetField, name: string, r: Reading<string, NetCounters>, register: U64) {
    exists k: nat :: OnceAt(name, ItemsOf(r), k) && NetCounter(f)(ItemsOf(r)[k].val) == register
  }

  ghost function NetTraffic(f: NetField, name: string): Reading<string, NetCounters> -> nat {
    TrafficOf(name, NetCounter(f))
  }

  lemma ShownIsMeasured(f: NetField, name: string, r: Reading<string, NetCounters>, register: U64)
    requires ShowsOne(f, name, r, register)
    ensures NetTraffic(f, name)(r) == register
  {
    var k: nat :| OnceAt(name, ItemsOf(r), k) && NetCounter(f)(ItemsOf(r)[k].val) == register;
    SumOfOne(name, ItemsOf(r), NetCounter(f), k);
  }

  lemma DifferenceIsMeasured(f: NetField, name: string, cur: Reading<string, NetCounters>, last: Reading<string, NetCounters>, now: U64, before: U64)
    requires ShowsOne(f, name, cur, now) && ShowsOne(f, name, last, before)
    ensures NetTraffic(f, name)(DeltaBy(SubtractNet)(cur, last)) == TransferDiff(now, before)
  {
    var i: nat :| OnceAt(name, ItemsOf(cur), i) && NetCounter(f)(ItemsOf(cur)[i].val) == now;
    var k: nat :| OnceAt(name, ItemsOf(last), k) && NetCounter(f)(ItemsOf(last)[k].val) == before;
    OnceDifference(name, ItemsOf(cur), ItemsOf(last), SubtractNet, i, k);
    SumOfOne(name, Difference(ItemsOf(cur), ItemsOf(last), SubtractNet), NetCounter(f), i);
  }

  /** An interface that is in every reading once shows its registers. */
  lemma NetShows(f: NetField, name: string, readings: seq<Reading<string, NetCounters>>, registers: seq<U64>)
    requires |readings| == |registers| && forall i | 0 <= i < |readings| :: ShowsOne(f, name, readings[i], registers[i])
    ensures Shows(readings, DeltaBy(SubtractNet), NetTraffic(f, name), TransferDiff, registers)
  {
    forall i | 0 <= i < |readings| ensures NetTraffic(f, name)(readings[i]) == registers[i] {
      ShownIsMeasured(f, name, readings[i], registers[i]);
    }
    forall i | 0 < i < |readings|
      ensures NetTraffic(f, name)(DeltaBy(SubtractNet)(readings[i], readings[i - 1])) == TransferDiff(registers[i], registers[i - 1])
    {
      DifferenceIsMeasured(f, name, readings[i], readings[i - 1], registers[i], registers[i - 1]);
    }
  }

  /** Any 32-bit counter of an interface that is in every reading once: over any run without plain get
      calls, what the diff calls return is what really happened if and only if less than 2^32 happened
      between any two. */
  lemma {:induction false} NetworkRunIsExact(calls: seq<Call<Reading<string, NetCounters>>>, f: NetField, name: string, truth: seq<nat>)
    requires |truth| > 0 && Monotone(truth)
    requires forall i | 0 <= i < |calls| :: !calls[i].Get?
    requires |Readings(calls)| == |truth|
    requires forall i | 0 <= i < |truth| :: ShowsOne(f, name, Readings(calls)[i], truth[i] % TWO32)
    ensures Returned(calls, DeltaBy(SubtractNet), NetTraffic(f, name)) == TrueTotal(TWO32, truth) <==> StepsBelow(TWO32, truth)
  {
    NetShows(f, name, Readings(calls), Register(TWO32, truth));
    ReturnedIsExpected(calls, DeltaBy(SubtractNet), NetTraffic(f, name), TransferDiff, Register(TWO32, truth));
    ExpectedIsExact(TransferDiff, TWO32, truth);
  }

  /** Counters of any width that never fall and stay below 2^63 are right whatever the steps are. */
  lemma {:induction false} NetworkRunIsPlain(calls: seq<Call<Reading<string, NetCounters>>>, f: NetField, name: string, truth: seq<U64>)
    requires |truth| > 0 && (forall i | 0 < i < |truth| :: truth[i - 1] <= truth[i]) && forall i | 0 <= i < |truth| :: truth[i] < TWO63
    requires forall i | 0 <= i < |calls| :: !calls[i].Get?
    requires |Readings(calls)| == |truth|
    requires forall i | 0 <= i < |truth| :: ShowsOne(f, name, Readings(calls)[i], truth[i])
    ensures Returned(calls, DeltaBy(SubtractNet), NetTraffic(f, name)) == truth[|truth| - 1]
  {
    NetShows(f, name, Readings(calls), truth);
    ReturnedIsExpected(calls, DeltaBy(SubtractNet), NetTraffic(f, name), TransferDiff, truth);
    PlainTotal(TransferDiff, TWO63, truth);
  }

  /** The times telescope modulo 2^64, for any interface that is in all readings. */
  lemma {:induction false} NetworkTimeTelescopes(calls: seq<Call<Reading<string, NetCounters>>>, name: string)
    requires forall i | 0 <= i < |calls| && Records(calls[i]) :: !Absent(name, ItemsOf(calls[i].reading))
    ensures Telescoped(calls, DeltaBy(SubtractNet), TrafficOf(name, (c: NetCounters) => c.systime))
  {
    var time := (c: NetCounters) => c.systime;
    assert Subtracts(SubtractNet, time);
    KeyedRunTelescopes(calls, name, SubtractNet, time);
  }
}
