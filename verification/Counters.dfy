/** Counter arithmetic: transfer_diff of src/libstatgrab/network_stats.c and counter_diff of
    src/libstatgrab/cpu_stats.c, over one pair of readings and over whole runs of readings. */
module Counters {

  const TWO31 := 0x8000_0000
  const TWO32 := 0x1_0000_0000
  const TWO63 := 0x8000_0000_0000_0000
  const TWO64 := 0x1_0000_0000_0000_0000

  /** An unsigned long long. */
  type U64 = x: nat | x < 0x1_0000_0000_0000_0000

  /** Unsigned 64-bit subtraction. */
  function Sub64(a: U64, b: U64): U64 {
    (a - b) % TWO64
  }

  /** The cast to long long. */
  function Signed(x: U64): int {
    if x < TWO63 then x else x - TWO64
  }

  /** transfer_diff, on the platforms whose interface counters are 32 bits wide. */
  function TransferDiff(new_: U64, old_: U64): U64 {
    if Signed(new_) >= Signed(old_) then Sub64(new_, old_)
    else (TWO32 + Signed(new_) - Signed(old_)) % TWO64
  }

  /** counter_diff, VM_METER branch: INT_MAX + 1 is the assumed modulus. */
  function CounterDiff(new_: U64, old_: U64): U64 {
    if new_ >= old_ then new_ - old_ else (TWO31 + new_ - old_) % TWO64
  }

  /** Sum of the differences of consecutive readings. */
  function TotalOf(diff: (U64, U64) -> U64, readings: seq<U64>): nat {
    if |readings| < 2 then 0
    else
      var n := |readings| - 1;
      TotalOf(diff, readings[..n]) + diff(readings[n], readings[n - 1])
  }

  /** What a w-valued counter register shows of the true values. */
  ghost function Register(w: nat, truth: seq<nat>): (r: seq<U64>)
    requires 0 < w <= TWO64
    ensures |r| == |truth|
    ensures forall i | 0 <= i < |r| :: r[i] == truth[i] % w
  {
    seq(|truth|, i requires 0 <= i < |truth| => truth[i] % w)
  }

  ghost predicate Monotone(truth: seq<nat>) {
    forall i | 0 < i < |truth| :: truth[i - 1] <= truth[i]
  }

  /** Every step between readings is shorter than one turn of the register. */
  ghost predicate StepsBelow(w: nat, truth: seq<nat>) {
    forall i | 0 < i < |truth| :: truth[i] - truth[i - 1] < w
  }

  lemma NonZeroMultiple(k: int, w: nat)
    ensures k * w >= w || k * w + w <= 0 || k == 0
  {}

  lemma RemainderIsUnique(q: int, w: nat, d: nat)
    requires d < w
    ensures (q * w + d) % w == d
  {
    var x := q * w + d;
    var k := q - x / w;
    assert x == (x / w) * w + x % w;
    assert k * w == q * w - (x / w) * w;
    NonZeroMultiple(k, w);
  }

  /** The step, modulo the register width, from two register readings. */
  lemma StepModulo(w: nat, a: nat, b: nat)
    requires 0 < w && a <= b
    ensures (b - a) % w == if b % w >= a % w then b % w - a % w else w + b % w - a % w
  {
    var ra, rb, qa, qb := a % w, b % w, a / w, b / w;
    assert a == qa * w + ra && b == qb * w + rb;
    if rb >= ra {
      RemainderIsUnique(qb - qa, w, rb - ra);
      assert b - a == (qb - qa) * w + (rb - ra);
    } else {
      RemainderIsUnique(qb - qa - 1, w, w + rb - ra);
      assert b - a == (qb - qa - 1) * w + (w + rb - ra);
    }
  }

  /** A difference function that subtracts modulo `w` readings of a `w`-valued register. */
  ghost predicate SubtractsModulo(diff: (U64, U64) -> U64, w: nat)
    requires 0 < w
  {
    forall x: U64, y: U64 | x < w && y < w :: diff(x, y) == if x >= y then x - y else w + x - y
  }

  lemma ModuloAtMost(x: nat, w: nat)
    requires 0 < w
    ensures x % w <= x && (x % w == x <==> x < w)
  {}

  /** One step: what `diff` makes of two register readings, and when it is the true step. */
  lemma StepDifference(diff: (U64, U64) -> U64, w: nat, a: nat, b: nat)
    requires 0 < w <= TWO64 && SubtractsModulo(diff, w)
    requires a <= b
    ensures a + diff(b % w, a % w) <= b
    ensures a + diff(b % w, a % w) == b <==> b - a < w
  {
    StepModulo(w, a, b);
    ModuloAtMost(b - a, w);
  }

  lemma StepsBelowExtend(w: nat, truth: seq<nat>, n: nat)
    requires n == |truth| - 1 && n > 0
    ensures StepsBelow(w, truth) <==> StepsBelow(w, truth[..n]) && truth[n] - truth[n - 1] < w
  {}

  lemma TotalExtends(diff: (U64, U64) -> U64, w: nat, truth: seq<nat>, n: nat)
    requires 0 < w <= TWO64
    requires n == |truth| - 1 && n > 0
    ensures TotalOf(diff, Register(w, truth))
         == TotalOf(diff, Register(w, truth[..n])) + diff(truth[n] % w, truth[n - 1] % w)
  {
    assert Register(w, truth)[..n] == Register(w, truth[..n]);
  }

  /** Over any run of readings of a monotone counter the differences never add up to more than
      was transferred, and add up to it exactly if and only if no step went round the register. */
  lemma {:induction false} TotalIsExact(diff: (U64, U64) -> U64, w: nat, truth: seq<nat>)
    requires 0 < w <= TWO64 && SubtractsModulo(diff, w)
    requires |truth| > 0 && Monotone(truth)
    ensures truth[0] + TotalOf(diff, Register(w, truth)) <= truth[|truth| - 1]
    ensures truth[0] + TotalOf(diff, Register(w, truth)) == truth[|truth| - 1] <==> StepsBelow(w, truth)
  {
    var n := |truth| - 1;
    if n > 0 {
      TotalIsExact(diff, w, truth[..n]);
      TotalExtends(diff, w, truth, n);
      StepDifference(diff, w, truth[n - 1], truth[n]);
      StepsBelowExtend(w, truth, n);
    }
  }

  /** Interface counters: 32-bit registers. */
  lemma TransferTotalIsExact(truth: seq<nat>)
    requires |truth| > 0 && Monotone(truth)
    ensures truth[0] + TotalOf(TransferDiff, Register(TWO32, truth)) == truth[|truth| - 1]
            <==> StepsBelow(TWO32, truth)
  {
    TotalIsExact(TransferDiff, TWO32, truth);
  }

  /** A step of exactly 2^32 is not seen at all. */
  lemma FullTurnIsLost(start: nat)
    ensures Monotone([start, start + TWO32]) && TotalOf(TransferDiff, Register(TWO32, [start, start + TWO32])) == 0
  {
    var truth := [start, start + TWO32];
    StepModulo(TWO32, start, start + TWO32);
    TotalExtends(TransferDiff, TWO32, truth, 1);
  }

  /** transfer_diff on any two readings: the plain difference, or 2^32 more if the newer reading is the
      lesser one as a signed number. */
  lemma TransferValue(new_: U64, old_: U64)
    ensures var fell := if new_ < 0x8000_0000_0000_0000 <==> old_ < 0x8000_0000_0000_0000 then new_ < old_
                        else new_ >= 0x8000_0000_0000_0000;
            TransferDiff(new_, old_) == (new_ - old_ + if fell then 0x1_0000_0000 else 0) % 0x1_0000_0000_0000_0000
  {}

  /** A counter that does not fall and stays below 2^63 is reported as it is, however wide it is. */
  lemma TransferIsPlain(new_: U64, old_: U64)
    requires old_ <= new_ < 0x8000_0000_0000_0000
    ensures TransferDiff(new_, old_) == new_ - old_
  {}

  /** A register of width w that has turned over: the step reported is the true one if and only if w is
      2^32. */
  lemma TransferAfterTurn(w: nat, a: nat, b: nat)
    requires 0 < w <= 0x8000_0000_0000_0000 && a <= b && b - a < w && b % w < a % w
    ensures TransferDiff(b % w, a % w) == (0x1_0000_0000 + b % w - a % w) % 0x1_0000_0000_0000_0000
    ensures TransferDiff(b % w, a % w) == b - a <==> w == 0x1_0000_0000
  {
    StepModulo(w, a, b);
    ModuloAtMost(b - a, w);
  }

  /** A difference function that is plain for readings that do not fall and are below this bound. */
  ghost predicate IsPlainBelow(diff: (U64, U64) -> U64, bound: nat) {
    forall x: U64, y: U64 | y <= x < bound :: diff(x, y) == x - y
  }

  /** Over any run of such readings the differences add up to the truth, whatever the steps are. */
  lemma {:induction false} PlainTotal(diff: (U64, U64) -> U64, bound: nat, truth: seq<U64>)
    requires IsPlainBelow(diff, bound) && |truth| > 0
    requires (forall i | 0 <= i < |truth| :: truth[i] < bound) && forall i | 0 < i < |truth| :: truth[i - 1] <= truth[i]
    ensures truth[0] + TotalOf(diff, truth) == truth[|truth| - 1]
  {
    var n := |truth| - 1;
    if n > 0 {
      PlainTotal(diff, bound, truth[..n]);
    }
  }

  /** counter_diff's VM_METER branch on any two readings. */
  lemma CounterValue(new_: U64, old_: U64)
    ensures old_ <= new_ ==> CounterDiff(new_, old_) == new_ - old_
    ensures new_ < old_ ==> CounterDiff(new_, old_) == (new_ - old_ + 0x8000_0000) % 0x1_0000_0000_0000_0000
  {}

  /** A register of width w that has turned over: the step reported is the true one if and only if w is
      2^31. */
  lemma CounterAfterTurn(w: nat, a: nat, b: nat)
    requires 0 < w <= 0x1_0000_0000_0000_0000 && a <= b && b - a < w && b % w < a % w
    ensures CounterDiff(b % w, a % w) == b - a <==> w == 0x8000_0000
  {
    StepModulo(w, a, b);
    ModuloAtMost(b - a, w);
  }

  /** Virtual-memory meter counters, if they turn over at INT_MAX. */
  lemma CounterTotalIsExact(truth: seq<nat>)
    requires |truth| > 0 && Monotone(truth)
    ensures truth[0] + TotalOf(CounterDiff, Register(TWO31, truth)) == truth[|truth| - 1]
            <==> StepsBelow(TWO31, truth)
  {
    TotalIsExact(CounterDiff, TWO31, truth);
  }

  /** The comment beside counter_diff speaks of 32-bit quantities. On a register of that width
      the branch is right exactly when the register did not turn over between the readings. */
  lemma CounterOn32BitRegister(a: nat, b: nat)
    requires a <= b && b - a < TWO32
    ensures CounterDiff(b % TWO32, a % TWO32) == b - a <==> b % TWO32 >= a % TWO32
  {}

  /** A 32-bit register that turns over: 3 events are reported as 2^64 - 2^31 + 3. */
  lemma CounterTurnsOver()
    ensures CounterDiff((TWO32 + 1) % TWO32, (TWO32 - 2) % TWO32) == TWO64 - TWO31 + 3
  {}
}
