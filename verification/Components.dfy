/** sg_comp_init and sg_comp_destroy of src/libstatgrab/globals.c called by any number of threads,
    step by step: a reference count under the global mutex, the components started in table order by
    the first caller and stopped in reverse by the last. */
module Components {
  import opened Counters

  datatype PC =
    | Idle              // in neither call
    | UpLock            // sg_comp_init, before sg_global_lock
    | UpCount           // before `0 != initialized++`
    | Starting(i: nat)  // first caller, before component i's init_fn
    | UpUnlock          // before sg_global_unlock
    | DownLock          // sg_comp_destroy, before sg_global_lock
    | DownCount         // before `0 != --initialized`
    | Stopping(i: nat)  // last caller, components i and up stopped
    | DownUnlock        // before sg_global_unlock
    | Leaked            // in neither call, sg_comp_init having returned early from the component loop

  /** pc, and how many of the thread's calls have come back through sg_global_unlock. */
  datatype Thread = Thread(pc: PC, completed: nat)

  /** `initialized` is the unsigned counter. `granted` is the number of sg_init calls that have
      returned and whose sg_shutdown has not been begun: what callers keep balanced. */
  datatype State = State(holder: int, initialized: nat, granted: nat,
                         inits: seq<nat>, destroys: seq<nat>, threads: seq<Thread>)

  const NOBODY := -1

  // ---- the steps -------------------------------------------------------------------------------

  function Move(s: State, t: nat, pc: PC): State
    requires t < |s.threads|
  {
    s.(threads := s.threads[t := s.threads[t].(pc := pc)])
  }

  function Return(s: State, t: nat): State
    requires t < |s.threads|
  {
    s.(threads := s.threads[t := Thread(Idle, s.threads[t].completed + 1)], holder := NOBODY)
  }

  function Bump(counts: seq<nat>, i: nat): seq<nat>
    requires i < |counts|
  {
    counts[i := counts[i] + 1]
  }

  /** sg_global_lock waits while anybody holds the mutex, the caller included: it is initialised without
      attributes, hence neither recursive nor error-checking. */
  predicate Blocked(s: State, t: nat)
    requires t < |s.threads|
  {
    (s.threads[t].pc.UpLock? || s.threads[t].pc.DownLock?) && s.holder != NOBODY
  }

  predicate WellSized(s: State) {
    && |s.inits| == |s.destroys|
    && forall t | 0 <= t < |s.threads| :: s.threads[t].pc.Stopping? ==> s.threads[t].pc.i <= |s.destroys|
  }

  /** A step inside a call. */
  function Advance(s: State, t: nat): State
    requires WellSized(s) && t < |s.threads| && !s.threads[t].pc.Idle? && !s.threads[t].pc.Leaked?
  {
    match s.threads[t].pc
    case UpLock => Move(s, t, UpCount).(holder := t)
    case UpCount =>
      Move(s, t, if s.initialized != 0 then UpUnlock else Starting(0)).(initialized := (s.initialized + 1) % TWO32)
    case Starting(i) =>
      if i < |s.inits| then Move(s, t, Starting(i + 1)).(inits := Bump(s.inits, i)) else Move(s, t, UpUnlock)
    case UpUnlock => Return(s, t).(granted := s.granted + 1)
    case DownLock => Move(s, t, DownCount).(holder := t)
    case DownCount =>
      var count := (s.initialized - 1) % TWO32;
      Move(s, t, if count != 0 then DownUnlock else Stopping(|s.destroys|)).(initialized := count)
    case Stopping(i) =>
      if i > 0 then Move(s, t, Stopping(i - 1)).(destroys := Bump(s.destroys, i - 1)) else Move(s, t, DownUnlock)
    case DownUnlock => Return(s, t)
  }

  /** A step of thread t: it moves on in its call, begins sg_init, or begins an sg_shutdown that
      matches an sg_init which has returned; a thread whose sg_init failed may begin either. */
  predicate Step(s: State, t: nat, s': State) {
    && WellSized(s) && t < |s.threads| && !Blocked(s, t)
    && match s.threads[t].pc
       case Idle => s' == Move(s, t, UpLock) || (s.granted > 0 && s' == Move(s, t, DownLock).(granted := s.granted - 1))
       case Leaked => s' == Move(s, t, UpLock) || s' == Move(s, t, DownLock)
       case _ => s' == Advance(s, t)
  }

  /** sg_comp_init returns on the spot, without unlocking: because init_fn of the next component reports
      an error that is not to be ignored; or, between two components, because the lock table cannot be
      allocated or enlarged; or, after the last one, because the mutex attributes cannot be had. */
  predicate EarlyReturn(s: State, t: nat, s': State) {
    && t < |s.threads| && s.threads[t].pc.Starting?
    && var i := s.threads[t].pc.i;
       || s' == Move(s, t, Leaked)
       || (i < |s.inits| && s' == Move(s, t, Leaked).(inits := Bump(s.inits, i)))
  }

  ghost predicate Next(s: State, s': State) {
    exists t :: Step(s, t, s')
  }

  function Total(f: PC -> nat, threads: seq<Thread>): nat {
    if |threads| == 0 then 0
    else Total(f, threads[..|threads| - 1]) + f(threads[|threads| - 1].pc)
  }

  /** sg_init calls counted in or about to be, minus sg_shutdown calls counted out: the true
      reference count. */
  function Weight(pc: PC): nat {
    if pc.Starting? || pc.UpUnlock? || pc.DownLock? || pc.DownCount? then 1 else 0
  }

  function Nesting(s: State): nat {
    s.granted + Total(Weight, s.threads)
  }

  /** Nobody has called anything yet. */
  ghost predicate Initial(s: State) {
    && s.holder == NOBODY && s.initialized == s.granted == 0
    && |s.inits| == |s.destroys|
    && (forall c | 0 <= c < |s.inits| :: s.inits[c] == s.destroys[c] == 0)
    && (forall t | 0 <= t < |s.threads| :: s.threads[t].pc == Idle)
  }

  /** A run without early returns in which fewer than 2^32 references are ever held. */
  ghost predicate Run(states: seq<State>) {
    && |states| > 0 && Initial(states[0])
    && (forall i | 0 <= i < |states| :: Nesting(states[i]) < TWO32)
    && forall i | 0 <= i < |states| - 1 :: Next(states[i], states[i + 1])
  }

  // ---- the invariant ---------------------------------------------------------------------------

  predicate Inside(pc: PC) {
    !pc.Idle? && !pc.UpLock? && !pc.DownLock?
  }

  /** How many components, from the first, are up. */
  ghost function Up(s: State): nat {
    if 0 <= s.holder < |s.threads| && s.threads[s.holder].pc.Starting? then s.threads[s.holder].pc.i
    else if 0 <= s.holder < |s.threads| && s.threads[s.holder].pc.Stopping? then s.threads[s.holder].pc.i
    else if s.initialized > 0 then |s.inits|
    else 0
  }

  ghost predicate ThreadInv(s: State, t: nat)
    requires t < |s.threads|
  {
    var pc := s.threads[t].pc;
    && (Inside(pc) <==> s.holder == t)
    && !pc.Leaked?
    && (pc.Starting? ==> pc.i <= |s.inits| && s.initialized == 1)
    && (pc.Stopping? ==> pc.i <= |s.destroys| && s.initialized == 0)
    && (pc.UpUnlock? ==> s.initialized > 0)
  }

  ghost predicate CountsInv(s: State) {
    && |s.inits| == |s.destroys|
    && forall c | 0 <= c < |s.inits| :: s.inits[c] == s.destroys[c] + if c < Up(s) then 1 else 0
  }

  ghost predicate Inv(s: State) {
    && (s.holder == NOBODY || 0 <= s.holder < |s.threads|)
    && (forall t | 0 <= t < |s.threads| :: ThreadInv(s, t))
    && s.initialized == Nesting(s)
    && CountsInv(s)
  }

  lemma {:induction false} TotalUpdate(f: PC -> nat, threads: seq<Thread>, t: nat, me: Thread)
    requires t < |threads|
    ensures Total(f, threads[t := me]) == Total(f, threads) - f(threads[t].pc) + f(me.pc)
  {
    var n := |threads| - 1;
    if t == n {
      assert threads[t := me][..n] == threads[..n];
    } else {
      assert threads[t := me][..n] == threads[..n][t := me];
      TotalUpdate(f, threads[..n], t, me);
    }
  }

  lemma {:induction false} TotalAtLeast(f: PC -> nat, threads: seq<Thread>, t: nat)
    requires t < |threads|
    ensures Total(f, threads) >= f(threads[t].pc)
  {
    var n := |threads| - 1;
    if t < n {
      TotalAtLeast(f, threads[..n], t);
    }
  }

  lemma {:induction false} IdleWeighsNothing(threads: seq<Thread>)
    requires forall t | 0 <= t < |threads| :: threads[t].pc == Idle
    ensures Total(Weight, threads) == 0
  {
    if |threads| > 0 {
      IdleWeighsNothing(threads[..|threads| - 1]);
    }
  }

  /** Until it wraps, the counter moves exactly as the true reference count does. */
  lemma StepKeepsCount(s: State, t: nat, s': State)
    requires Inv(s) && Step(s, t, s') && Nesting(s') < TWO32
    ensures s'.initialized == Nesting(s')
  {
    assert ThreadInv(s, t);
    TotalUpdate(Weight, s.threads, t, s'.threads[t]);
    TotalAtLeast(Weight, s.threads, t);
  }

  lemma StepKeepsOwn(s: State, t: nat, s': State)
    requires Step(s, t, s') && ThreadInv(s, t) && s'.initialized == Nesting(s') && s.initialized == Nesting(s) < TWO32
    ensures |s'.threads| == |s.threads| && ThreadInv(s', t)
  {
    TotalAtLeast(Weight, s'.threads, t);
    TotalAtLeast(Weight, s.threads, t);
  }

  /** What a step leaves alone: the other threads; and, from outside the lock, all but the lock. */
  lemma StepFrame(s: State, t: nat, s': State)
    requires Step(s, t, s') && !s.threads[t].pc.Leaked?
    ensures |s'.threads| == |s.threads| && forall u | 0 <= u < |s.threads| && u != t :: s'.threads[u] == s.threads[u]
    ensures !Inside(s.threads[t].pc) ==>
              && s'.initialized == s.initialized && s'.inits == s.inits && s'.destroys == s.destroys
              && (s'.holder == s.holder || (s.holder == NOBODY && s'.holder == t))
    ensures Inside(s.threads[t].pc) ==> s'.holder == s.holder || s'.holder == NOBODY
    ensures |s'.inits| == |s.inits| && |s'.destroys| == |s.destroys|
  {}

  lemma StepKeepsThreads(s: State, t: nat, s': State)
    requires Inv(s) && Step(s, t, s') && s'.initialized == Nesting(s') < TWO32 && Nesting(s) < TWO32
    ensures |s'.threads| == |s.threads|
    ensures forall u | 0 <= u < |s'.threads| :: ThreadInv(s', u)
  {
    assert ThreadInv(s, t);
    StepKeepsOwn(s, t, s');
    StepFrame(s, t, s');
    forall u | 0 <= u < |s'.threads| && u != t ensures ThreadInv(s', u) {
      assert ThreadInv(s, u);
    }
  }

  /** Steps outside the lock change no component. */
  lemma OutsideKeepsComponents(s: State, t: nat, s': State)
    requires CountsInv(s) && Step(s, t, s') && ThreadInv(s, t) && !Inside(s.threads[t].pc)
    requires 0 <= s.holder < |s.threads| ==> Inside(s.threads[s.holder].pc)
    ensures CountsInv(s')
  {}

  /** Steps under the lock start or stop the one component that is next. */
  lemma InsideKeepsComponents(s: State, t: nat, s': State)
    requires CountsInv(s) && Step(s, t, s') && ThreadInv(s, t) && Inside(s.threads[t].pc)
    requires s.threads[t].pc.UpCount? ==> s.initialized + 1 < TWO32
    requires s.threads[t].pc.DownCount? ==> 0 < s.initialized < TWO32
    requires s'.initialized == s'.initialized % TWO32
    ensures CountsInv(s')
  {}

  lemma StepKeepsComponents(s: State, t: nat, s': State)
    requires Inv(s) && Step(s, t, s') && s'.initialized == Nesting(s') < TWO32 && Nesting(s) < TWO32
    ensures CountsInv(s')
  {
    assert ThreadInv(s, t);
    TotalAtLeast(Weight, s.threads, t);
    if Inside(s.threads[t].pc) {
      if s.threads[t].pc.UpCount? {
        TotalUpdate(Weight, s.threads, t, s'.threads[t]);
      }
      InsideKeepsComponents(s, t, s');
    } else {
      if 0 <= s.holder < |s.threads| {
        assert ThreadInv(s, s.holder);
      }
      OutsideKeepsComponents(s, t, s');
    }
  }

  lemma StepKeepsInv(s: State, t: nat, s': State)
    requires Inv(s) && Step(s, t, s') && Nesting(s) < TWO32 && Nesting(s') < TWO32
    ensures Inv(s')
  {
    StepKeepsCount(s, t, s');
    StepKeepsThreads(s, t, s');
    StepKeepsComponents(s, t, s');
  }

  lemma {:induction false} RunKeepsInv(states: seq<State>, i: nat)
    requires Run(states) && i < |states|
    ensures Inv(states[i])
  {
    if i == 0 {
      IdleWeighsNothing(states[0].threads);
    } else {
      RunKeepsInv(states, i - 1);
      assert Next(states[i - 1], states[i]);
      var t :| Step(states[i - 1], t, states[i]);
      StepKeepsInv(states[i - 1], t, states[i]);
    }
  }

  // ---- the theorems ----------------------------------------------------------------------------

  /** Component c has been started once more than it has been stopped. */
  ghost predicate IsUp(s: State, c: nat)
    requires c < |s.inits| == |s.destroys|
  {
    s.inits[c] == s.destroys[c] + 1
  }

  ghost predicate IsDown(s: State, c: nat)
    requires c < |s.inits| == |s.destroys|
  {
    s.inits[c] == s.destroys[c]
  }

  /** In every interleaving of balanced calls, whenever the global lock is free: every component is
      up if the counter is positive, and every component is down if it is zero. */
  lemma LockFreeMeansAllOrNone(states: seq<State>, i: nat)
    requires Run(states) && i < |states| && states[i].holder == NOBODY
    ensures |states[i].inits| == |states[i].destroys|
    ensures forall c | 0 <= c < |states[i].inits| ::
              if states[i].initialized > 0 then IsUp(states[i], c) else IsDown(states[i], c)
  {
    RunKeepsInv(states, i);
  }

  /** At every moment, whoever holds the lock: from the return of an sg_init until its sg_shutdown is
      begun, all components are up. */
  lemma GrantedMeansReady(states: seq<State>, i: nat)
    requires Run(states) && i < |states| && states[i].granted > 0
    ensures |states[i].inits| == |states[i].destroys|
    ensures forall c | 0 <= c < |states[i].inits| :: IsUp(states[i], c)
  {
    RunKeepsInv(states, i);
    var s := states[i];
    if s.holder != NOBODY {
      assert ThreadInv(s, s.holder);
      TotalAtLeast(Weight, s.threads, s.holder);
    }
  }

  /** At every moment a component that is up has all earlier components of the table up with it; so
      the error component, first in the table, is there for all the others. */
  lemma EarlierComponentsFirst(states: seq<State>, i: nat)
    requires Run(states) && i < |states|
    ensures |states[i].inits| == |states[i].destroys|
    ensures forall c, d | 0 <= c < d < |states[i].inits| :: IsUp(states[i], d) ==> IsUp(states[i], c)
    ensures forall c | 0 <= c < |states[i].inits| :: IsUp(states[i], c) || IsDown(states[i], c)
  {
    RunKeepsInv(states, i);
  }

  /** The bound on references is exact: the counter agrees with the true count after a step if and
      only if that count is below 2^32. */
  lemma CounterIsExact(s: State, t: nat, s': State)
    requires Inv(s) && Nesting(s) < TWO32 && Step(s, t, s')
    ensures s'.initialized == Nesting(s') <==> Nesting(s') < TWO32
  {
    assert ThreadInv(s, t);
    TotalUpdate(Weight, s.threads, t, s'.threads[t]);
    TotalAtLeast(Weight, s.threads, t);
  }

  /** 2^32 - 1 references held and one more taken: the counter is back at zero, so that the next caller
      would start all components again. */
  lemma CounterWraps(s: State)
    requires s == State(0, TWO32 - 1, TWO32 - 1, [1], [0], [Thread(UpCount, 0)])
    ensures Inv(s) && Step(s, 0, Advance(s, 0))
    ensures Advance(s, 0).initialized == 0 && Nesting(Advance(s, 0)) == TWO32
  {
    TotalOfOne(Weight, Thread(UpCount, 0));
    TotalOfOne(Weight, Thread(UpUnlock, 0));
    assert ThreadInv(s, 0);
    assert Advance(s, 0).threads == [Thread(UpUnlock, 0)];
  }

  lemma TotalOfOne(f: PC -> nat, me: Thread)
    ensures Total(f, [me]) == f(me.pc)
  {
    assert [me][..0] == [];
  }

  // ---- without early returns calls come back -----------------------------------------------------

  /** Thread t is in a call and can go on with it. */
  predicate CanGoOn(s: State, t: nat) {
    WellSized(s) && t < |s.threads| && !s.threads[t].pc.Idle? && !s.threads[t].pc.Leaked? && !Blocked(s, t)
  }

  /** A step of some call under way. */
  ghost predicate GoesOn(s: State, s': State) {
    exists t: nat :: CanGoOn(s, t) && s' == Advance(s, t)
  }

  /** How many steps of its own a call of n components is from its return, at most. */
  function Rank(n: nat): PC -> nat {
    (pc: PC) =>
      match pc
      case Idle => 0
      case Leaked => 0
      case UpLock => n + 5
      case DownLock => n + 5
      case UpCount => n + 4
      case DownCount => n + 4
      case Starting(i) => (if i < n then n - i else 0) + 2
      case Stopping(i) => i + 2
      case UpUnlock => 1
      case DownUnlock => 1
  }

  function Remaining(s: State): nat {
    Total(Rank(|s.inits|), s.threads)
  }

  lemma GoingOnLowersRank(s: State, t: nat)
    requires CanGoOn(s, t)
    ensures Rank(|s.inits|)(Advance(s, t).threads[t].pc) < Rank(|s.inits|)(s.threads[t].pc)
  {}

  lemma GoingOnIsShorter(s: State, t: nat)
    requires CanGoOn(s, t)
    ensures |Advance(s, t).threads| == |s.threads| && |Advance(s, t).inits| == |s.inits|
    ensures Remaining(Advance(s, t)) < Remaining(s)
  {
    var s' := Advance(s, t);
    assert s'.threads == s.threads[t := s'.threads[t]];
    GoingOnLowersRank(s, t);
    TotalUpdate(Rank(|s.inits|), s.threads, t, s'.threads[t]);
  }

  /** Whatever the scheduler does, the calls under way are over after so many steps. */
  lemma {:induction false} GoingOnEnds(path: seq<State>)
    requires |path| > 0 && forall k | 0 <= k < |path| - 1 :: GoesOn(path[k], path[k + 1])
    ensures |path| - 1 + Remaining(path[|path| - 1]) <= Remaining(path[0])
  {
    if |path| > 1 {
      var n := |path| - 1;
      GoingOnEnds(path[..n]);
      assert GoesOn(path[n - 1], path[n]);
      var t: nat :| CanGoOn(path[n - 1], t) && path[n] == Advance(path[n - 1], t);
      GoingOnIsShorter(path[n - 1], t);
    }
  }

  /** And they are over only when all have returned: while one is under way one can go on. */
  lemma SomeCallCanGoOn(s: State, t: nat) returns (u: nat)
    requires Inv(s) && t < |s.threads| && !s.threads[t].pc.Idle?
    ensures CanGoOn(s, u)
  {
    u := if s.holder == NOBODY then t else s.holder;
    assert ThreadInv(s, t) && ThreadInv(s, u);
    forall v | 0 <= v < |s.threads| ensures s.threads[v].pc.Stopping? ==> s.threads[v].pc.i <= |s.destroys| {
      assert ThreadInv(s, v);
    }
  }

  /** A reference that a thread has or is about to have. */
  function Claim(pc: PC): nat {
    if pc.UpLock? || pc.UpCount? || Weight(pc) == 1 then 1 else 0
  }

  /** The references that there will be at most if no further call is begun. */
  function Claims(s: State): nat {
    s.granted + Total(Claim, s.threads)
  }

  lemma {:induction false} ClaimsBound(threads: seq<Thread>)
    ensures Total(Weight, threads) <= Total(Claim, threads) <= |threads|
  {
    if |threads| > 0 {
      ClaimsBound(threads[..|threads| - 1]);
    }
  }

  lemma GoingOnClaimsNoMore(s: State, t: nat)
    requires CanGoOn(s, t)
    ensures Claims(Advance(s, t)) <= Claims(s)
  {
    var s' := Advance(s, t);
    assert s'.threads == s.threads[t := s'.threads[t]];
    TotalUpdate(Claim, s.threads, t, s'.threads[t]);
  }

  lemma GoingOnKeepsInv(s: State, t: nat)
    requires Inv(s) && CanGoOn(s, t) && Claims(s) < TWO32
    ensures Inv(Advance(s, t)) && Claims(Advance(s, t)) < TWO32 && Next(s, Advance(s, t))
  {
    GoingOnClaimsNoMore(s, t);
    ClaimsBound(s.threads);
    ClaimsBound(Advance(s, t).threads);
    assert Step(s, t, Advance(s, t));
    StepKeepsInv(s, t, Advance(s, t));
  }

  /** A continuation, in which early returns may happen too. */
  ghost predicate Path(path: seq<State>, s: State) {
    && |path| > 0 && path[0] == s
    && forall k | 0 <= k < |path| - 1 :: Next(path[k], path[k + 1]) || Fails(path[k], path[k + 1])
  }

  ghost predicate Fails(s: State, s': State) {
    exists t :: EarlyReturn(s, t, s')
  }

  /** At rest, with one more call of every thread that was in one. */
  ghost predicate AllBack(s: State, r: State) {
    && |r.threads| == |s.threads|
    && forall u | 0 <= u < |s.threads| ::
         r.threads[u].pc.Idle? && r.threads[u].completed >= s.threads[u].completed + if s.threads[u].pc.Idle? then 0 else 1
  }

  lemma AllBackEarlier(s: State, t: nat, r: State)
    requires CanGoOn(s, t) && AllBack(Advance(s, t), r)
    ensures AllBack(s, r)
  {}

  /** From every such state all calls under way can come back. */
  lemma {:induction false} WayToRest(s: State) returns (path: seq<State>)
    requires Inv(s) && Claims(s) < TWO32
    ensures Path(path, s) && AllBack(s, path[|path| - 1])
    decreases Remaining(s)
  {
    if forall t | 0 <= t < |s.threads| :: s.threads[t].pc.Idle? {
      path := [s];
    } else {
      var t :| 0 <= t < |s.threads| && !s.threads[t].pc.Idle?;
      var u := SomeCallCanGoOn(s, t);
      GoingOnKeepsInv(s, u);
      GoingOnIsShorter(s, u);
      var rest := WayToRest(Advance(s, u));
      path := [s] + rest;
      PathExtends(s, rest);
      AllBackEarlier(s, u, rest[|rest| - 1]);
    }
  }

  lemma PathExtends(s: State, rest: seq<State>)
    requires |rest| > 0 && Path(rest, rest[0]) && (Next(s, rest[0]) || Fails(s, rest[0]))
    ensures Path([s] + rest, s)
  {
    var path := [s] + rest;
    forall k | 0 <= k < |path| - 1 ensures Next(path[k], path[k + 1]) || Fails(path[k], path[k + 1]) {
      if k > 0 {
        assert path[k] == rest[k - 1] && path[k + 1] == rest[k];
      }
    }
  }

  // ---- early returns ---------------------------------------------------------------------------

  /** After an early return thread t has the lock without being in a call that would give it back, and
      every other thread is outside. */
  ghost predicate Locked(s: State, t: nat) {
    && t < |s.threads| && s.holder == t
    && (s.threads[t].pc.Leaked? || s.threads[t].pc.UpLock? || s.threads[t].pc.DownLock?)
    && forall u | 0 <= u < |s.threads| && u != t :: !Inside(s.threads[u].pc)
  }

  lemma EarlyReturnLocks(s: State, t: nat, s': State)
    requires Inv(s) && EarlyReturn(s, t, s')
    ensures Locked(s', t)
  {
    forall u | 0 <= u < |s.threads| ensures ThreadInv(s, u) {
    }
    assert ThreadInv(s, t);
    forall u | 0 <= u < |s'.threads| && u != t ensures !Inside(s'.threads[u].pc) {
      assert ThreadInv(s, u);
    }
  }

  /** A step while the lock is kept: somebody begins a call. */
  lemma OutsideStays(s: State, t: nat, s': State)
    requires Locked(s, t) && (Next(s, s') || Fails(s, s'))
    ensures Locked(s', t) && |s'.threads| == |s.threads|
    ensures forall u | 0 <= u < |s.threads| :: s'.threads[u].completed == s.threads[u].completed
  {
    if Next(s, s') {
      var u :| Step(s, u, s');
    }
  }

  /** The early returns of sg_comp_init keep the lock: in every continuation no call of any thread, the
      one that got the error included, ever comes back. Whoever makes a call waits for ever. */
  lemma {:induction false} NothingReturnsAfterwards(path: seq<State>, s: State, t: nat, i: nat)
    requires Locked(s, t) && Path(path, s) && i < |path|
    ensures Locked(path[i], t) && |path[i].threads| == |s.threads|
    ensures forall u | 0 <= u < |s.threads| ::
              && path[i].threads[u].completed == s.threads[u].completed
              && (path[i].threads[u].pc.Idle? || path[i].threads[u].pc.Leaked? || Blocked(path[i], u))
  {
    if i > 0 {
      NothingReturnsAfterwards(path, s, t, i - 1);
      OutsideStays(path[i - 1], t, path[i]);
    }
  }

  /** A run in which early returns may happen. */
  ghost predicate MixedRun(states: seq<State>) {
    && |states| > 0 && Initial(states[0]) && Path(states, states[0])
    && forall i | 0 <= i < |states| :: Nesting(states[i]) < TWO32
  }

  /** One of the first n steps was an early return. */
  ghost predicate FailedBefore(states: seq<State>, n: nat)
    requires n < |states|
  {
    exists k | 0 <= k < n :: Fails(states[k], states[k + 1])
  }

  lemma FailedExtends(states: seq<State>, i: nat)
    requires 0 < i < |states|
    ensures FailedBefore(states, i) <==> FailedBefore(states, i - 1) || Fails(states[i - 1], states[i])
  {
    if FailedBefore(states, i) {
      var k :| 0 <= k < i && Fails(states[k], states[k + 1]);
      assert k < i - 1 ==> FailedBefore(states, i - 1);
    }
  }

  ghost predicate SomebodyLocked(s: State) {
    exists t :: Locked(s, t)
  }

  /** One step from a state as it should be. */
  lemma MixedStep(s: State, s': State)
    requires Inv(s) && (Next(s, s') || Fails(s, s')) && Nesting(s) < TWO32 && Nesting(s') < TWO32
    ensures if Fails(s, s') then SomebodyLocked(s') else Inv(s')
  {
    if Fails(s, s') {
      var t :| EarlyReturn(s, t, s');
      EarlyReturnLocks(s, t, s');
    } else {
      var t :| Step(s, t, s');
      StepKeepsInv(s, t, s');
    }
  }

  lemma LockedStep(s: State, s': State)
    requires SomebodyLocked(s) && (Next(s, s') || Fails(s, s'))
    ensures SomebodyLocked(s')
  {
    var t :| Locked(s, t);
    OutsideStays(s, t, s');
  }

  /** Every run is as it should be, or locked. */
  lemma {:induction false} MixedRunState(states: seq<State>, i: nat)
    requires MixedRun(states) && i < |states|
    ensures if FailedBefore(states, i) then SomebodyLocked(states[i]) else Inv(states[i])
  {
    if i == 0 {
      IdleWeighsNothing(states[0].threads);
    } else {
      MixedRunState(states, i - 1);
      FailedExtends(states, i);
      if FailedBefore(states, i - 1) {
        LockedStep(states[i - 1], states[i]);
      } else {
        MixedStep(states[i - 1], states[i]);
      }
    }
  }

  /** Thread u can have another call come back. */
  ghost predicate CanReturn(s: State, u: nat) {
    exists path :: Path(path, s) && Returned(path, u)
  }

  ghost predicate Returned(path: seq<State>, u: nat) {
    && |path| > 0 && u < |path[0].threads| && u < |path[|path| - 1].threads|
    && path[|path| - 1].threads[u].completed > path[0].threads[u].completed
  }

  /** A thread that is in no call can begin one, and it will come back. */
  lemma WayBack(s: State, u: nat)
    requires Inv(s) && u < |s.threads| && s.granted + |s.threads| < TWO32
    ensures CanReturn(s, u)
  {
    if s.threads[u].pc.Idle? {
      var s' := Move(s, u, UpLock);
      assert ThreadInv(s, u);
      BeginKeepsInv(s, u, s');
      ClaimsBound(s'.threads);
      var rest := WayToRest(s');
      PathExtends(s, rest);
      assert Returned([s] + rest, u);
    } else {
      ClaimsBound(s.threads);
      assert ThreadInv(s, u);
      var path := WayToRest(s);
      assert Returned(path, u);
    }
  }

  lemma BeginKeepsInv(s: State, u: nat, s': State)
    requires Inv(s) && u < |s.threads| && s.threads[u].pc.Idle? && s' == Move(s, u, UpLock) && s.granted + |s.threads| < TWO32
    ensures Inv(s') && Next(s, s')
  {
    forall v | 0 <= v < |s.threads| ensures s.threads[v].pc.Stopping? ==> s.threads[v].pc.i <= |s.destroys| {
      assert ThreadInv(s, v);
    }
    assert Step(s, u, s');
    ClaimsBound(s.threads);
    ClaimsBound(s'.threads);
    StepKeepsInv(s, u, s');
  }

  /** The two sides: after any run, of any thread, a call can come back if and only if the run had no early
      return. */
  lemma CallsReturnUnlessFailed(states: seq<State>, s: State, u: nat)
    requires MixedRun(states) && s == states[|states| - 1] && u < |s.threads| && s.granted + |s.threads| < TWO32
    ensures CanReturn(s, u) <==> !FailedBefore(states, |states| - 1)
  {
    MixedRunState(states, |states| - 1);
    if FailedBefore(states, |states| - 1) {
      var t :| Locked(s, t);
      forall path | Path(path, s) ensures !Returned(path, u) {
        NothingReturnsAfterwards(path, s, t, |path| - 1);
      }
    } else {
      WayBack(s, u);
    }
  }

  /** The shortest way there: one thread, one component, whose init_fn fails. */
  lemma FirstInitFails(states: seq<State>)
    requires states == [
      State(NOBODY, 0, 0, [0], [0], [Thread(Idle, 0)]),
      State(NOBODY, 0, 0, [0], [0], [Thread(UpLock, 0)]),
      State(0, 0, 0, [0], [0], [Thread(UpCount, 0)]),
      State(0, 1, 0, [0], [0], [Thread(Starting(0), 0)]),
      State(0, 1, 0, [1], [0], [Thread(Leaked, 0)])]
    ensures MixedRun(states) && FailedBefore(states, 4) && !CanReturn(states[4], 0)
  {
    assert Step(states[0], 0, states[1]) && Step(states[1], 0, states[2]) && Step(states[2], 0, states[3]);
    assert EarlyReturn(states[3], 0, states[4]);
    assert Fails(states[3], states[4]);
    forall i | 0 <= i < 5 ensures Nesting(states[i]) < TWO32 {
      ClaimsBound(states[i].threads);
    }
    CallsReturnUnlessFailed(states, states[4], 0);
  }
}
