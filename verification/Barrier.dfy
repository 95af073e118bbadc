/** The start barrier and the completion protocol of tests/multi_threaded/full_stats.c, with the
    counters of tests/testlib/routines.c, step by step for any number of workers. */
module Barrier {

  /** numthreads is |assign|; worker i runs function assign[i]; `sequential` is the -s option. */
  datatype Config = Config(assign: seq<nat>, nfuncs: nat, sequential: bool)

  datatype Owner = Nobody | Main | Worker(i: nat)

  /** threadfunc */
  datatype PC =
    | Absent    // not created yet
    | Start     // before the first lock
    | CheckIn   // before ++test_counter
    | Test      // before `while (!conditionMet)`
    | Waiting   // asleep in pthread_cond_wait
    | Woken     // woken, before the mutex is taken again
    | LetGo     // past the loop, before the unlock that -s leaves out
    | Running   // inside run_func
    | Relock    // before the lock that -s leaves out
    | Finish    // before done_func
    | Release   // before the last unlock
    | Signal    // before pthread_cond_signal
    | Exited

  /** main, from the first lock on */
  datatype MainPC =
    | Enter | Create | Open       // lock, create all workers, unlock
    | Spin                        // while( test_counter < numthreads )
    | Take | Set | Wake | Give    // lock, conditionMet = 1, broadcast, unlock
    | LoopLock | LoopWait         // lock, before pthread_cond_timedwait
    | Asleep | LoopRelock         // in it, and before the mutex is taken again
    | Report | LoopUnlock(ok: nat) // before report_testable_functions, before the unlock
    | Left

  datatype State = State(owner: Owner, testCounter: nat, conditionMet: bool,
                         needed: seq<nat>, done: seq<nat>, created: nat, main: MainPC, workers: seq<PC>,
                         runs: seq<nat>)   // how often run_func has returned to each worker

  // ---- the steps -------------------------------------------------------------------------------

  predicate WellSized(c: Config, s: State) {
    && |s.workers| == |s.runs| == |c.assign| && |s.needed| == |s.done| == c.nfuncs && s.created <= |c.assign|
    && forall i | 0 <= i < |c.assign| :: c.assign[i] < c.nfuncs
  }

  function Bump(counts: seq<nat>, f: nat): seq<nat>
    requires f < |counts|
  {
    counts[f := counts[f] + 1]
  }

  function Go(s: State, i: nat, pc: PC): State
    requires i < |s.workers|
  {
    s.(workers := s.workers[i := pc])
  }

  function WakeAll(workers: seq<PC>): (r: seq<PC>)
    ensures |r| == |workers|
    ensures forall i | 0 <= i < |r| :: r[i] == if workers[i] == Waiting then Woken else workers[i]
  {
    seq(|workers|, i requires 0 <= i < |workers| => if workers[i] == Waiting then Woken else workers[i])
  }

  /** A step of worker i. */
  predicate WorkerStep(c: Config, s: State, i: nat, s': State) {
    && WellSized(c, s) && i < |s.workers|
    && match s.workers[i]
       case Absent => false
       case Start => s.owner == Nobody && s' == Go(s, i, CheckIn).(owner := Worker(i))
       case CheckIn => s' == Go(s, i, Test).(testCounter := s.testCounter + 1)
       case Test =>
         if s.conditionMet then s' == Go(s, i, if c.sequential then Running else LetGo)
         else s' == Go(s, i, Waiting).(owner := Nobody)
       case Waiting => s' == Go(s, i, Woken)   // spuriously, or by a signal
       case Woken => s.owner == Nobody && s' == Go(s, i, Test).(owner := Worker(i))
       case LetGo => s' == Go(s, i, Running).(owner := Nobody)
       case Running => s' == Go(s, i, if c.sequential then Finish else Relock).(runs := Bump(s.runs, i))
       case Relock => s.owner == Nobody && s' == Go(s, i, Finish).(owner := Worker(i))
       case Finish => s' == Go(s, i, Release).(done := Bump(s.done, c.assign[i]))
       case Release => s' == Go(s, i, Signal).(owner := Nobody)
       case Signal => s' == Go(s, i, Exited)
       case Exited => false
  }

  /** How many functions have been done as often as needed: report_testable_functions. */
  function Agreeing(needed: seq<nat>, done: seq<nat>): nat
    requires |needed| == |done|
  {
    if |needed| == 0 then 0
    else
      var n := |needed| - 1;
      Agreeing(needed[..n], done[..n]) + if needed[n] == done[n] then 1 else 0
  }

  predicate MainStep(c: Config, s: State, s': State) {
    && WellSized(c, s)
    && match s.main
       case Enter => s.owner == Nobody && s' == s.(main := Create, owner := Main)
       case Create =>
         if s.created < |c.assign|
         then s' == Go(s, s.created, Start).(needed := Bump(s.needed, c.assign[s.created]), created := s.created + 1)
         else s' == s.(main := Open)
       case Open => s' == s.(main := Spin, owner := Nobody)
       case Spin => s' == s.(main := if s.testCounter < |c.assign| then Spin else Take)
       case Take => s.owner == Nobody && s' == s.(main := Set, owner := Main)
       case Set => s' == s.(main := Wake, conditionMet := true)
       case Wake => s' == s.(main := Give, workers := WakeAll(s.workers))
       case Give => s' == s.(main := LoopLock, owner := Nobody)
       case LoopLock => s.owner == Nobody && s' == s.(main := LoopWait, owner := Main)
       case LoopWait => s' == s.(main := Asleep, owner := Nobody)
       case Asleep => s' == s.(main := LoopRelock)   // signal, timeout or spuriously
       case LoopRelock => s.owner == Nobody && s' == s.(main := Report, owner := Main)
       case Report => s' == s.(main := LoopUnlock(Agreeing(s.needed, s.done)))
       case LoopUnlock(ok) => s' == s.(main := if ok != c.nfuncs then LoopLock else Left, owner := Nobody)
       case Left => false
  }

  ghost predicate Next(c: Config, s: State, s': State) {
    MainStep(c, s, s') || exists i :: WorkerStep(c, s, i, s')
  }

  ghost predicate Initial(c: Config, s: State) {
    && WellSized(c, s)
    && s.owner == Nobody && s.testCounter == 0 && !s.conditionMet && s.created == 0 && s.main == Enter
    && (forall f | 0 <= f < c.nfuncs :: s.needed[f] == s.done[f] == 0)
    && forall i | 0 <= i < |s.workers| :: s.workers[i] == Absent && s.runs[i] == 0
  }

  ghost predicate Run(c: Config, states: seq<State>) {
    && |states| > 0 && Initial(c, states[0])
    && forall k | 0 <= k < |states| - 1 :: Next(c, states[k], states[k + 1])
  }

  // ---- counting --------------------------------------------------------------------------------

  /** How many of these workers run function f and satisfy p. */
  ghost function Count(workers: seq<PC>, assign: seq<nat>, f: nat, p: PC -> bool): nat
    requires |workers| == |assign|
  {
    if |workers| == 0 then 0
    else
      var n := |workers| - 1;
      Count(workers[..n], assign[..n], f, p) + if assign[n] == f && p(workers[n]) then 1 else 0
  }

  /** How many workers satisfy p. */
  ghost function CountAll(workers: seq<PC>, p: PC -> bool): nat {
    if |workers| == 0 then 0
    else CountAll(workers[..|workers| - 1], p) + if p(workers[|workers| - 1]) then 1 else 0
  }

  lemma {:induction false} CountUpdate(workers: seq<PC>, assign: seq<nat>, f: nat, p: PC -> bool, i: nat, pc: PC)
    requires |workers| == |assign| && i < |workers|
    ensures Count(workers[i := pc], assign, f, p)
         == Count(workers, assign, f, p)
            + (if assign[i] == f && p(pc) then 1 else 0) - (if assign[i] == f && p(workers[i]) then 1 else 0)
  {
    var n := |workers| - 1;
    if i == n {
      assert workers[i := pc][..n] == workers[..n];
    } else {
      assert workers[i := pc][..n] == workers[..n][i := pc];
      CountUpdate(workers[..n], assign[..n], f, p, i, pc);
    }
  }

  lemma {:induction false} CountAllUpdate(workers: seq<PC>, p: PC -> bool, i: nat, pc: PC)
    requires i < |workers|
    ensures CountAll(workers[i := pc], p)
         == CountAll(workers, p) + (if p(pc) then 1 else 0) - (if p(workers[i]) then 1 else 0)
  {
    var n := |workers| - 1;
    if i == n {
      assert workers[i := pc][..n] == workers[..n];
    } else {
      assert workers[i := pc][..n] == workers[..n][i := pc];
      CountAllUpdate(workers[..n], p, i, pc);
    }
  }

  lemma {:induction false} CountSame(a: seq<PC>, b: seq<PC>, assign: seq<nat>, f: nat, p: PC -> bool)
    requires |a| == |b| == |assign|
    requires forall i | 0 <= i < |a| :: p(a[i]) <==> p(b[i])
    ensures Count(a, assign, f, p) == Count(b, assign, f, p) && CountAll(a, p) == CountAll(b, p)
  {
    if |a| > 0 {
      CountSame(a[..|a| - 1], b[..|a| - 1], assign[..|a| - 1], f, p);
    }
  }

  /** A count that has reached the number of workers counts them all. */
  lemma {:induction false} CountAllFull(workers: seq<PC>, p: PC -> bool)
    ensures CountAll(workers, p) <= |workers|
    ensures CountAll(workers, p) == |workers| <==> forall i | 0 <= i < |workers| :: p(workers[i])
  {
    if |workers| > 0 {
      var n := |workers| - 1;
      CountAllFull(workers[..n], p);
      assert workers == workers[..n] + [workers[n]];
    }
  }

  /** If as many are q as are p, and only p's are q, then every p is q. */
  lemma {:induction false} CountTight(workers: seq<PC>, assign: seq<nat>, f: nat, p: PC -> bool, q: PC -> bool)
    requires |workers| == |assign|
    requires forall i | 0 <= i < |workers| :: q(workers[i]) ==> p(workers[i])
    ensures Count(workers, assign, f, q) <= Count(workers, assign, f, p)
    ensures Count(workers, assign, f, q) == Count(workers, assign, f, p) ==>
              forall i | 0 <= i < |workers| && assign[i] == f && p(workers[i]) :: q(workers[i])
  {
    if |workers| > 0 {
      var n := |workers| - 1;
      CountTight(workers[..n], assign[..n], f, p, q);
      if Count(workers, assign, f, q) == Count(workers, assign, f, p) {
        forall i | 0 <= i < |workers| && assign[i] == f && p(workers[i]) ensures q(workers[i]) {
          if i < n {
            assert workers[..n][i] == workers[i] && assign[..n][i] == assign[i];
          }
        }
      }
    }
  }

  lemma {:induction false} AgreeingAll(needed: seq<nat>, done: seq<nat>)
    requires |needed| == |done|
    ensures Agreeing(needed, done) <= |needed|
    ensures Agreeing(needed, done) == |needed| <==> needed == done
  {
    if |needed| > 0 {
      var n := |needed| - 1;
      AgreeingAll(needed[..n], done[..n]);
      assert needed == needed[..n] + [needed[n]] && done == done[..n] + [done[n]];
    }
  }

  /** report_testable_functions */
  method ReportFunctions(needed: seq<nat>, done: seq<nat>) returns (ok: nat)
    requires |needed| == |done|
    ensures ok == Agreeing(needed, done)
    ensures ok == |needed| <==> needed == done
  {
    ok := 0;
    var i := 0;
    while i < |needed|
      invariant 0 <= i <= |needed| && ok == Agreeing(needed[..i], done[..i])
    {
      assert needed[..i + 1][..i] == needed[..i] && done[..i + 1][..i] == done[..i];
      if needed[i] == done[i] {
        ok := ok + 1;
      }
      i := i + 1;
    }
    assert needed[..i] == needed && done[..i] == done;
    AgreeingAll(needed, done);
  }

  // ---- the invariant ---------------------------------------------------------------------------

  predicate Exists(pc: PC) { !pc.Absent? }

  predicate CheckedIn(pc: PC) { !pc.Absent? && !pc.Start? && !pc.CheckIn? }

  /** Past the barrier loop. */
  predicate Past(pc: PC) { CheckedIn(pc) && !pc.Test? && !pc.Waiting? && !pc.Woken? }

  predicate HasRun(pc: PC) { pc.Relock? || pc.Finish? || pc.Release? || pc.Signal? || pc.Exited? }

  predicate HasDone(pc: PC) { pc.Release? || pc.Signal? || pc.Exited? }

  predicate Holds(c: Config, pc: PC) {
    pc.CheckIn? || pc.Test? || pc.LetGo? || pc.Finish? || pc.Release? || (c.sequential && pc.Running?)
  }

  predicate MainHolds(m: MainPC) {
    m.Create? || m.Open? || m.Set? || m.Wake? || m.Give? || m.LoopWait? || m.Report? || m.LoopUnlock?
  }

  predicate MainSawAll(m: MainPC) {
    !m.Enter? && !m.Create? && !m.Open? && !m.Spin?
  }

  predicate MainHasSet(m: MainPC) {
    MainSawAll(m) && !m.Take? && !m.Set?
  }

  ghost predicate PlaceInv(c: Config, s: State, i: nat)
    requires i < |s.workers|
  {
    var pc := s.workers[i];
    && (Exists(pc) <==> i < s.created)
    && (Holds(c, pc) <==> s.owner == Worker(i))
    && (Past(pc) ==> s.conditionMet)
    && (c.sequential ==> !pc.LetGo? && !pc.Relock?)
    && (pc.Waiting? ==> !s.conditionMet || s.main == Wake)
  }

  ghost predicate RunsInv(s: State, i: nat)
    requires i < |s.workers|
  {
    i < |s.runs| && s.runs[i] == if HasRun(s.workers[i]) then 1 else 0
  }

  ghost predicate WorkerInv(c: Config, s: State, i: nat)
    requires i < |s.workers|
  {
    PlaceInv(c, s, i) && RunsInv(s, i)
  }

  ghost predicate CountInv(c: Config, s: State) {
    && WellSized(c, s)
    && s.testCounter == CountAll(s.workers, CheckedIn)
    && forall f | 0 <= f < c.nfuncs ::
         && s.needed[f] == Count(s.workers, c.assign, f, Exists)
         && s.done[f] == Count(s.workers, c.assign, f, HasDone)
  }

  ghost predicate MainInv(c: Config, s: State) {
    && (MainHolds(s.main) <==> s.owner == Main)
    && (s.main.Enter? || s.main.Create? || s.created == |c.assign|)
    && (MainSawAll(s.main) ==> s.testCounter == |c.assign|)
    && (s.conditionMet <==> MainHasSet(s.main))
    && (s.main.Left? || s.main == LoopUnlock(c.nfuncs) ==> s.needed == s.done)
  }

  ghost predicate Inv(c: Config, s: State) {
    && (s.owner.Worker? ==> s.owner.i < |s.workers|)
    && (forall i | 0 <= i < |s.workers| :: WorkerInv(c, s, i))
    && CountInv(c, s)
    && MainInv(c, s)
  }

  /** When every function is done as often as needed, every worker there is has done its own. */
  lemma AllDone(c: Config, s: State)
    requires CountInv(c, s) && s.needed == s.done
    ensures forall i | 0 <= i < |s.workers| && Exists(s.workers[i]) :: HasDone(s.workers[i])
  {
    forall i | 0 <= i < |s.workers| && Exists(s.workers[i]) ensures HasDone(s.workers[i]) {
      CountTight(s.workers, c.assign, c.assign[i], Exists, HasDone);
    }
  }

  /** What a worker's step does to the counters. */
  ghost predicate WorkerEffect(c: Config, s: State, i: nat, s': State) {
    && WellSized(c, s) && i < |s.workers|
    && s'.main == s.main && s'.created == s.created && s'.needed == s.needed && s'.conditionMet == s.conditionMet
    && |s'.workers| == |s.workers| && s'.workers == s.workers[i := s'.workers[i]] && |s'.runs| == |s.runs|
    && var pc, pc' := s.workers[i], s'.workers[i];
       && Exists(pc) && Exists(pc')
       && s'.testCounter == s.testCounter + (if CheckedIn(pc') then 1 else 0) - (if CheckedIn(pc) then 1 else 0)
       && (CheckedIn(pc) ==> CheckedIn(pc')) && (HasDone(pc) ==> HasDone(pc'))
       && s'.done == if HasDone(pc') && !HasDone(pc) then Bump(s.done, c.assign[i]) else s.done
  }

  /** Only its own entry of the worker table, and no other shared variable of main's. */
  lemma WorkerStepShape(c: Config, s: State, i: nat, s': State)
    requires WorkerStep(c, s, i, s')
    ensures s'.main == s.main && s'.created == s.created && s'.needed == s.needed && s'.conditionMet == s.conditionMet
    ensures |s'.workers| == |s.workers| && s'.workers == s.workers[i := s'.workers[i]]
    ensures |s'.runs| == |s.runs| && forall k | 0 <= k < |s.runs| && k != i :: s'.runs[k] == s.runs[k]
  {}

  lemma WorkerStepEffect(c: Config, s: State, i: nat, s': State)
    requires WorkerStep(c, s, i, s')
    ensures WorkerEffect(c, s, i, s')
  {
    WorkerStepShape(c, s, i, s');
  }

  lemma WorkerKeepsCounts(c: Config, s: State, i: nat, s': State)
    requires CountInv(c, s) && WorkerEffect(c, s, i, s')
    ensures CountInv(c, s')
  {
    var pc := s'.workers[i];
    CountAllUpdate(s.workers, CheckedIn, i, pc);
    forall f | 0 <= f < c.nfuncs
      ensures s'.needed[f] == Count(s'.workers, c.assign, f, Exists)
      ensures s'.done[f] == Count(s'.workers, c.assign, f, HasDone)
    {
      CountUpdate(s.workers, c.assign, f, Exists, i, pc);
      CountUpdate(s.workers, c.assign, f, HasDone, i, pc);
    }
  }

  lemma WorkerKeepsMain(c: Config, s: State, i: nat, s': State)
    requires CountInv(c, s) && MainInv(c, s)
    requires WorkerEffect(c, s, i, s') && CountInv(c, s')
    requires s'.owner == Main <==> s.owner == Main
    ensures MainInv(c, s')
  {
    if s.needed == s.done {
      AllDone(c, s);
    }
    CountAllFull(s'.workers, CheckedIn);
    CountAllFull(s.workers, CheckedIn);
  }

  lemma WorkerKeepsPlace(c: Config, s: State, i: nat, s': State)
    requires WorkerStep(c, s, i, s') && PlaceInv(c, s, i) && |s'.workers| == |s.workers|
    ensures PlaceInv(c, s', i)
  {}

  lemma WorkerKeepsRuns(c: Config, s: State, i: nat, s': State)
    requires WorkerStep(c, s, i, s') && RunsInv(s, i) && |s'.workers| == |s.workers|
    ensures RunsInv(s', i)
  {}

  lemma WorkerKeepsOwn(c: Config, s: State, i: nat, s': State)
    requires WorkerStep(c, s, i, s') && WorkerInv(c, s, i) && |s'.workers| == |s.workers|
    ensures WorkerInv(c, s', i)
  {
    WorkerKeepsPlace(c, s, i, s');
    WorkerKeepsRuns(c, s, i, s');
  }

  /** A worker takes the mutex only when it is free and gives only its own away. */
  lemma WorkerFrame(c: Config, s: State, i: nat, s': State)
    requires WorkerStep(c, s, i, s') && WorkerInv(c, s, i)
    ensures s'.owner == s.owner || (s.owner == Nobody && s'.owner == Worker(i)) || (s.owner == Worker(i) && s'.owner == Nobody)
  {}

  lemma WorkerKeepsWorkers(c: Config, s: State, i: nat, s': State)
    requires Inv(c, s) && WorkerStep(c, s, i, s') && WorkerEffect(c, s, i, s')
    ensures s'.owner.Worker? ==> s'.owner.i < |s'.workers|
    ensures forall k | 0 <= k < |s'.workers| :: WorkerInv(c, s', k)
  {
    assert WorkerInv(c, s, i);
    WorkerKeepsOwn(c, s, i, s');
    WorkerFrame(c, s, i, s');
    WorkerStepShape(c, s, i, s');
    forall k | 0 <= k < |s'.workers| && k != i ensures WorkerInv(c, s', k) {
      assert WorkerInv(c, s, k);
    }
  }

  lemma MainCreateKeepsCounts(c: Config, s: State, s': State, k: nat)
    requires CountInv(c, s) && k < |c.assign| && s.workers[k] == Absent
    requires s' == Go(s, k, Start).(needed := Bump(s.needed, c.assign[k]), created := s'.created) && s'.created <= |c.assign|
    ensures CountInv(c, s')
  {
    CountAllUpdate(s.workers, CheckedIn, k, Start);
    forall f | 0 <= f < c.nfuncs
      ensures s'.needed[f] == Count(s'.workers, c.assign, f, Exists)
      ensures s'.done[f] == Count(s'.workers, c.assign, f, HasDone)
    {
      CountUpdate(s.workers, c.assign, f, Exists, k, Start);
      CountUpdate(s.workers, c.assign, f, HasDone, k, Start);
    }
  }

  lemma MainWakeKeepsCounts(c: Config, s: State, s': State)
    requires CountInv(c, s) && s' == s.(main := s'.main, workers := WakeAll(s.workers))
    ensures CountInv(c, s')
  {
    CountSame(s.workers, s'.workers, c.assign, 0, CheckedIn);
    forall f | 0 <= f < c.nfuncs
      ensures s'.needed[f] == Count(s'.workers, c.assign, f, Exists)
      ensures s'.done[f] == Count(s'.workers, c.assign, f, HasDone)
    {
      CountSame(s.workers, s'.workers, c.assign, f, Exists);
      CountSame(s.workers, s'.workers, c.assign, f, HasDone);
    }
  }

  /** Every other step of main leaves the workers and the counters alone. */
  lemma MainStepEffect(c: Config, s: State, s': State)
    requires MainStep(c, s, s') && !s.main.Wake? && !(s.main.Create? && s.created < |c.assign|)
    ensures s' == s.(main := s'.main, owner := s'.owner, conditionMet := s'.conditionMet)
  {}

  lemma MainKeepsCounts(c: Config, s: State, s': State)
    requires CountInv(c, s) && MainStep(c, s, s')
    requires s.created < |s.workers| ==> WorkerInv(c, s, s.created)
    ensures CountInv(c, s')
  {
    if s.main.Create? && s.created < |c.assign| {
      MainCreateKeepsCounts(c, s, s', s.created);
    } else if s.main.Wake? {
      MainWakeKeepsCounts(c, s, s');
    } else {
      MainStepEffect(c, s, s');
    }
  }

  /** main's own place: the mutex, the flag, the workers created. */
  lemma MainKeepsPlace(c: Config, s: State, s': State)
    requires MainInv(c, s) && MainStep(c, s, s')
    ensures MainHolds(s'.main) <==> s'.owner == Main
    ensures s'.main.Enter? || s'.main.Create? || s'.created == |c.assign|
    ensures s'.conditionMet <==> MainHasSet(s'.main)
  {}

  lemma MainKeepsMain(c: Config, s: State, s': State)
    requires CountInv(c, s) && MainInv(c, s) && MainStep(c, s, s')
    ensures MainInv(c, s')
  {
    MainKeepsPlace(c, s, s');
    CountAllFull(s.workers, CheckedIn);
    AgreeingAll(s.needed, s.done);
  }

  lemma MainKeepsWorkers(c: Config, s: State, s': State)
    requires Inv(c, s) && MainStep(c, s, s')
    ensures s'.owner.Worker? ==> s'.owner.i < |s'.workers|
    ensures forall k | 0 <= k < |s'.workers| :: WorkerInv(c, s', k)
  {
    forall k | 0 <= k < |s'.workers| ensures WorkerInv(c, s', k) {
      assert WorkerInv(c, s, k);
    }
  }

  lemma StepKeepsInv(c: Config, s: State, s': State)
    requires Inv(c, s) && Next(c, s, s')
    ensures Inv(c, s')
  {
    if MainStep(c, s, s') {
      MainKeepsCounts(c, s, s');
      MainKeepsMain(c, s, s');
      MainKeepsWorkers(c, s, s');
    } else {
      var i :| WorkerStep(c, s, i, s');
      assert WorkerInv(c, s, i);
      WorkerStepEffect(c, s, i, s');
      WorkerFrame(c, s, i, s');
      WorkerKeepsCounts(c, s, i, s');
      WorkerKeepsMain(c, s, i, s');
      WorkerKeepsWorkers(c, s, i, s');
    }
  }

  lemma {:induction false} RunKeepsInv(c: Config, states: seq<State>, k: nat)
    requires Run(c, states) && k < |states|
    ensures Inv(c, states[k])
  {
    if k == 0 {
      InitialInv(c, states[0]);
    } else {
      RunKeepsInv(c, states, k - 1);
      assert Next(c, states[k - 1], states[k]);
      StepKeepsInv(c, states[k - 1], states[k]);
    }
  }

  lemma {:induction false} NoneCounted(workers: seq<PC>, assign: seq<nat>, f: nat, p: PC -> bool)
    requires |workers| == |assign|
    requires forall i | 0 <= i < |workers| :: !p(workers[i])
    ensures Count(workers, assign, f, p) == 0 && CountAll(workers, p) == 0
  {
    if |workers| > 0 {
      NoneCounted(workers[..|workers| - 1], assign[..|workers| - 1], f, p);
    }
  }

  lemma InitialInv(c: Config, s: State)
    requires Initial(c, s)
    ensures Inv(c, s)
  {
    NoneCounted(s.workers, c.assign, 0, CheckedIn);
    forall f | 0 <= f < c.nfuncs
      ensures s.needed[f] == Count(s.workers, c.assign, f, Exists)
      ensures s.done[f] == Count(s.workers, c.assign, f, HasDone)
    {
      NoneCounted(s.workers, c.assign, f, Exists);
      NoneCounted(s.workers, c.assign, f, HasDone);
    }
  }

  // ---- the theorems ----------------------------------------------------------------------------

  /** In every interleaving: while any worker is in run_func, or past it, all workers have been
      created and have checked in. */
  lemma NobodyRunsEarly(c: Config, states: seq<State>, k: nat, i: nat)
    requires Run(c, states) && k < |states| && i < |states[k].workers|
    requires states[k].workers[i] == Running || Past(states[k].workers[i])
    ensures forall j | 0 <= j < |states[k].workers| :: CheckedIn(states[k].workers[j])
    ensures states[k].testCounter == |c.assign| == |states[k].workers|
  {
    RunKeepsInv(c, states, k);
    assert WorkerInv(c, states[k], i);
    CountAllFull(states[k].workers, CheckedIn);
  }

  /** With -s at most one worker is in run_func. */
  lemma SequentialMeansOneAtATime(c: Config, states: seq<State>, k: nat, i: nat, j: nat)
    requires Run(c, states) && k < |states| && c.sequential
    requires i < |states[k].workers| && j < |states[k].workers|
    requires states[k].workers[i] == states[k].workers[j] == Running
    ensures i == j
  {
    RunKeepsInv(c, states, k);
    assert WorkerInv(c, states[k], i) && WorkerInv(c, states[k], j);
  }

  /** When main leaves its report loop every worker has called run_func once and has executed done_func,
      and every function has been done exactly as often as it was marked: as often as it was assigned. */
  lemma LeavingMeansAllDone(c: Config, states: seq<State>, k: nat)
    requires Run(c, states) && k < |states| && states[k].main == Left
    ensures |states[k].workers| == |c.assign|
    ensures forall i | 0 <= i < |states[k].workers| :: HasDone(states[k].workers[i])
    ensures |states[k].runs| == |c.assign| && forall i | 0 <= i < |states[k].runs| :: states[k].runs[i] == 1
    ensures states[k].needed == states[k].done && |states[k].done| == c.nfuncs
    ensures forall f | 0 <= f < c.nfuncs :: states[k].done[f] == Assigned(c.assign, f)
  {
    RunKeepsInv(c, states, k);
    AllDone(c, states[k]);
    forall i | 0 <= i < |states[k].workers| ensures Exists(states[k].workers[i]) && (HasDone(states[k].workers[i]) ==> states[k].runs[i] == 1) {
      assert WorkerInv(c, states[k], i);
    }
    forall f | 0 <= f < c.nfuncs ensures states[k].done[f] == Assigned(c.assign, f) {
      AllAssigned(states[k].workers, c.assign, f, HasDone);
    }
  }

  /** How many workers are to run function f. */
  ghost function Assigned(assign: seq<nat>, f: nat): nat {
    if |assign| == 0 then 0 else Assigned(assign[..|assign| - 1], f) + if assign[|assign| - 1] == f then 1 else 0
  }

  lemma {:induction false} AllAssigned(workers: seq<PC>, assign: seq<nat>, f: nat, p: PC -> bool)
    requires |workers| == |assign| && forall i | 0 <= i < |workers| :: p(workers[i])
    ensures Count(workers, assign, f, p) == Assigned(assign, f)
  {
    if |workers| > 0 {
      AllAssigned(workers[..|workers| - 1], assign[..|workers| - 1], f, p);
    }
  }

  /** No wake-up is lost: once main has broadcast, no worker sleeps on the condition. */
  lemma NoLostWakeup(c: Config, states: seq<State>, k: nat, i: nat)
    requires Run(c, states) && k < |states| && i < |states[k].workers|
    requires MainHasSet(states[k].main) && states[k].main != Wake
    ensures states[k].workers[i] != Waiting
  {
    RunKeepsInv(c, states, k);
    assert WorkerInv(c, states[k], i);
  }

  // ---- the program can always end ----------------------------------------------------------------

  /** How far a worker is from its end. */
  function WorkerRank(pc: PC): nat {
    match pc
    case Absent => 12
    case Start => 11
    case CheckIn => 10
    case Woken => 9
    case Test => 8
    case Waiting => 7
    case LetGo => 6
    case Running => 5
    case Relock => 4
    case Finish => 3
    case Release => 2
    case Signal => 1
    case Exited => 0
  }

  function Ranks(workers: seq<PC>): nat {
    if |workers| == 0 then 0 else Ranks(workers[..|workers| - 1]) + WorkerRank(workers[|workers| - 1])
  }

  /** How far main is from its report loop, and from the end. */
  function Phase(main: MainPC): nat {
    match main
    case Enter => 9
    case Create => 8
    case Open => 7
    case Spin => 6
    case Take => 5
    case Set => 4
    case Wake => 3
    case Give => 2
    case Left => 0
    case _ => 1
  }

  /** How far main is, inside the loop, from leaving it, or from letting the workers go on. */
  function LoopRank(c: Config, s: State): nat {
    if s.needed == s.done then
      match s.main
      case LoopUnlock(ok) => if ok == c.nfuncs then 0 else 6
      case LoopLock => 5
      case LoopWait => 4
      case Asleep => 3
      case LoopRelock => 2
      case Report => 1
      case _ => 0
    else
      match s.main
      case Report => 6
      case LoopUnlock(_) => 5
      case LoopLock => 4
      case LoopWait => 3
      case Asleep => 2
      case LoopRelock => 1
      case _ => 0
  }

  /** Nearer to the end. */
  predicate Nearer(c: Config, s': State, s: State) {
    || Phase(s'.main) < Phase(s.main)
    || (Phase(s'.main) == Phase(s.main)
        && (Ranks(s'.workers) < Ranks(s.workers)
            || (Ranks(s'.workers) == Ranks(s.workers) && LoopRank(c, s') < LoopRank(c, s))))
  }

  lemma {:induction false} RanksUpdate(workers: seq<PC>, i: nat, pc: PC)
    requires i < |workers|
    ensures Ranks(workers[i := pc]) == Ranks(workers) - WorkerRank(workers[i]) + WorkerRank(pc)
  {
    var n := |workers| - 1;
    if i == n {
      assert workers[i := pc][..n] == workers[..n];
    } else {
      assert workers[i := pc][..n] == workers[..n][i := pc];
      RanksUpdate(workers[..n], i, pc);
    }
  }

  /** Every step of a worker that was not asleep brings it nearer. */
  lemma WorkerComesNearer(c: Config, s: State, i: nat, s': State)
    requires WorkerStep(c, s, i, s') && s.workers[i] != Waiting
    ensures Nearer(c, s', s)
  {
    WorkerStepShape(c, s, i, s');
    RanksUpdate(s.workers, i, s'.workers[i]);
  }

  /** A worker that has the mutex can step, and so can one that waits for nothing but a free mutex. */
  lemma WorkerCanStep(c: Config, s: State, i: nat) returns (s': State)
    requires WellSized(c, s) && i < |s.workers|
    requires Exists(s.workers[i]) && s.workers[i] != Exited && s.workers[i] != Waiting
    requires s.workers[i] in {Start, Woken, Relock} ==> s.owner == Nobody
    ensures WorkerStep(c, s, i, s') && Nearer(c, s', s)
  {
    s' := match s.workers[i]
      case Start => Go(s, i, CheckIn).(owner := Worker(i))
      case CheckIn => Go(s, i, Test).(testCounter := s.testCounter + 1)
      case Test =>
        if s.conditionMet then Go(s, i, if c.sequential then Running else LetGo) else Go(s, i, Waiting).(owner := Nobody)
      case Woken => Go(s, i, Test).(owner := Worker(i))
      case LetGo => Go(s, i, Running).(owner := Nobody)
      case Running => Go(s, i, if c.sequential then Finish else Relock).(runs := Bump(s.runs, i))
      case Relock => Go(s, i, Finish).(owner := Worker(i))
      case Finish => Go(s, i, Release).(done := Bump(s.done, c.assign[i]))
      case Release => Go(s, i, Signal).(owner := Nobody)
      case Signal => Go(s, i, Exited);
    WorkerComesNearer(c, s, i, s');
  }

  /** main with the mutex, or with no need of it, comes nearer: on the way to its report loop, */
  lemma MainCanStepBefore(c: Config, s: State) returns (s': State)
    requires WellSized(c, s) && Phase(s.main) > 1
    requires s.main == Create && s.created < |s.workers| ==> s.workers[s.created] == Absent
    requires MainHolds(s.main) || s.owner == Nobody
    requires s.main == Spin ==> s.testCounter == |c.assign|
    ensures MainStep(c, s, s') && Nearer(c, s', s)
  {
    match s.main {
      case Enter => s' := s.(main := Create, owner := Main);
      case Create =>
        if s.created < |c.assign| {
          s' := Go(s, s.created, Start).(needed := Bump(s.needed, c.assign[s.created]), created := s.created + 1);
          RanksUpdate(s.workers, s.created, Start);
        } else {
          s' := s.(main := Open);
        }
      case Open => s' := s.(main := Spin, owner := Nobody);
      case Spin => s' := s.(main := Take);
      case Take => s' := s.(main := Set, owner := Main);
      case Set => s' := s.(main := Wake, conditionMet := true);
      case Wake => s' := s.(main := Give, workers := WakeAll(s.workers));
      case Give => s' := s.(main := LoopLock, owner := Nobody);
    }
  }

  /** and inside it. */
  lemma MainCanStepInside(c: Config, s: State) returns (s': State)
    requires WellSized(c, s) && Phase(s.main) == 1
    requires s.main == LoopUnlock(c.nfuncs) ==> s.needed == s.done
    requires if MainHolds(s.main) then s.owner == Main else s.owner == Nobody && s.needed == s.done
    ensures MainStep(c, s, s') && Nearer(c, s', s)
  {
    AgreeingAll(s.needed, s.done);
    match s.main {
      case LoopLock => s' := s.(main := LoopWait, owner := Main);
      case LoopWait => s' := s.(main := Asleep, owner := Nobody);
      case Asleep => s' := s.(main := LoopRelock);
      case LoopRelock => s' := s.(main := Report, owner := Main);
      case Report => s' := s.(main := LoopUnlock(Agreeing(s.needed, s.done)));
      case LoopUnlock(ok) => s' := s.(main := if ok != c.nfuncs then LoopLock else Left, owner := Nobody);
    }
  }

  /** While main spins somebody has yet to check in; while not all is done somebody has yet to do it. */
  lemma SomebodyIsBehind(c: Config, s: State) returns (i: nat)
    requires Inv(c, s) && s.owner == Nobody
    requires (s.main == Spin && s.testCounter < |c.assign|) || (Phase(s.main) == 1 && s.needed != s.done)
    ensures i < |s.workers| && s.workers[i] in {Start, Woken, Running, Relock}
  {
    CountAllFull(s.workers, CheckedIn);
    if s.main == Spin {
      i :| 0 <= i < |s.workers| && !CheckedIn(s.workers[i]);
    } else {
      if forall k | 0 <= k < |s.workers| :: HasDone(s.workers[k]) {
        AllDoneMeansEqual(c, s);
      }
      i :| 0 <= i < |s.workers| && !HasDone(s.workers[i]);
    }
    assert WorkerInv(c, s, i);
  }

  lemma {:induction false} DoneAreThere(workers: seq<PC>, assign: seq<nat>, f: nat)
    requires |workers| == |assign| && forall k | 0 <= k < |workers| :: HasDone(workers[k])
    ensures Count(workers, assign, f, Exists) == Count(workers, assign, f, HasDone)
  {
    if |workers| > 0 {
      DoneAreThere(workers[..|workers| - 1], assign[..|workers| - 1], f);
    }
  }

  lemma AllDoneMeansEqual(c: Config, s: State)
    requires CountInv(c, s) && forall k | 0 <= k < |s.workers| :: HasDone(s.workers[k])
    ensures s.needed == s.done
  {
    forall f | 0 <= f < c.nfuncs ensures s.needed[f] == s.done[f] {
      DoneAreThere(s.workers, c.assign, f);
    }
  }

  /** In every state before the end somebody can come nearer to it: whoever has the mutex; otherwise
      whoever main is waiting for; otherwise main. */
  lemma SomebodyCanStep(c: Config, s: State) returns (s': State)
    requires Inv(c, s) && s.main != Left
    ensures Next(c, s, s') && Nearer(c, s', s)
  {
    if s.owner.Worker? {
      assert WorkerInv(c, s, s.owner.i);
      s' := WorkerCanStep(c, s, s.owner.i);
    } else if s.owner == Nobody
              && ((s.main == Spin && s.testCounter < |c.assign|) || (Phase(s.main) == 1 && s.needed != s.done)) {
      var i := SomebodyIsBehind(c, s);
      s' := WorkerCanStep(c, s, i);
    } else if Phase(s.main) > 1 {
      assert s.created < |s.workers| ==> WorkerInv(c, s, s.created);
      CountAllFull(s.workers, CheckedIn);
      s' := MainCanStepBefore(c, s);
    } else {
      s' := MainCanStepInside(c, s);
    }
  }

  /** A way to the end. */
  ghost predicate Ends(c: Config, path: seq<State>, s: State) {
    && |path| > 0 && path[0] == s && path[|path| - 1].main == Left
    && forall k | 0 <= k < |path| - 1 :: Next(c, path[k], path[k + 1])
  }

  lemma {:induction false} WayToTheEnd(c: Config, s: State) returns (path: seq<State>)
    requires Inv(c, s)
    ensures Ends(c, path, s)
    decreases Phase(s.main), Ranks(s.workers), LoopRank(c, s)
  {
    if s.main == Left {
      path := [s];
    } else {
      var s' := SomebodyCanStep(c, s);
      StepKeepsInv(c, s, s');
      var rest := WayToTheEnd(c, s');
      path := [s] + rest;
      forall k | 0 <= k < |path| - 1 ensures Next(c, path[k], path[k + 1]) {
        if k > 0 {
          assert path[k] == rest[k - 1] && path[k + 1] == rest[k];
        }
      }
    }
  }

  /** No deadlock, and no livelock without a way out: every run, however far it has gone, can be
      continued until main leaves its loop. */
  lemma EveryRunCanEnd(c: Config, states: seq<State>, s: State)
    requires Run(c, states) && s == states[|states| - 1]
    ensures exists path :: Ends(c, path, s)
  {
    RunKeepsInv(c, states, |states| - 1);
    var path := WayToTheEnd(c, s);
  }
}
