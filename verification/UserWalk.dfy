/** sg_get_user_stats of src/libstatgrab/user_stats.c called by any number of threads, step by step:
    one process-wide utmp cursor, one static entry buffer, and the named mutex "utmp" of
    src/libstatgrab/globals.c between them. */
module UserWalk {

  /** A utmp or utmpx record. */
  datatype Entry = Entry(isUserProcess: bool, data: nat)

  /** The two record files; many systems use one file for both. */
  datatype Database = Database(utmpx: seq<Entry>, utmp: seq<Entry>)

  /** Which of the two loops a thread is in. */
  datatype Pass = Utmpx | Utmp

  datatype PC =
    | Idle                    // not in the call
    | Locking                 // vector cleared, before sg_lock_mutex
    | Rewinding(pass: Pass)   // before setutxent / setutent
    | Fetching(pass: Pass)    // before getutxent / getutent
    | Testing(pass: Pass)     // entry returned, before ut_type is read from the buffer
    | Storing(pass: Pass)     // before the buffer is copied into the vector
    | Closing(pass: Pass)     // loop ended, before endutxent / endutent
    | Aborting(pass: Pass)    // a copy failed, before endutxent / endutent
    | Unlocking(ok: bool)     // before sg_unlock_mutex

  /** What a call returned: the entries, or an error. */
  datatype Reply = Users(entries: seq<Entry>) | Failed

  /** A thread: where it is, its own vector and num_users, and everything its calls returned. */
  datatype Thread = Thread(pc: PC, vector: seq<Entry>, numUsers: nat, replies: seq<Reply>)

  /** The shared part: who holds the mutex, the cursor, the static buffer. */
  datatype State = State(holder: int, cursor: nat, buffer: Entry, threads: seq<Thread>)

  const NOBODY := -1

  function Records(db: Database, pass: Pass): seq<Entry> {
    if pass.Utmpx? then db.utmpx else db.utmp
  }

  /** VECTOR_UPDATE(n + 1) and the copy into slot n. */
  function Append(vector: seq<Entry>, n: nat, e: Entry): seq<Entry> {
    if n < |vector| then vector[..n] + [e]
    else vector + seq(n - |vector|, _ => Entry(false, 0)) + [e]
  }

  /** pthread_mutex_lock returns only when nobody holds the mutex. */
  predicate Blocked(s: State, t: nat)
    requires t < |s.threads|
  {
    s.threads[t].pc == Locking && s.holder != NOBODY
  }

  function Move(s: State, t: nat, me: Thread): State
    requires t < |s.threads|
  {
    s.(threads := s.threads[t := me])
  }

  /** One step of thread t. */
  function Advance(db: Database, s: State, t: nat): State
    requires t < |s.threads|
  {
    var me := s.threads[t];
    match me.pc
    case Idle =>
      Move(s, t, me.(pc := Locking, vector := [], numUsers := 0))
    case Locking =>
      Move(s, t, me.(pc := Rewinding(Utmpx))).(holder := t)
    case Rewinding(pass) =>
      Move(s, t, me.(pc := Fetching(pass))).(cursor := 0)
    case Fetching(pass) =>
      if s.cursor < |Records(db, pass)|
      then Move(s, t, me.(pc := Testing(pass))).(cursor := s.cursor + 1, buffer := Records(db, pass)[s.cursor])
      else Move(s, t, me.(pc := Closing(pass)))
    case Testing(pass) =>
      Move(s, t, me.(pc := if s.buffer.isUserProcess then Storing(pass) else Fetching(pass)))
    case Storing(pass) =>
      Move(s, t, me.(pc := Fetching(pass), vector := Append(me.vector, me.numUsers, s.buffer), numUsers := me.numUsers + 1))
    case Closing(pass) =>
      Move(s, t, me.(pc := if pass.Utmpx? && me.numUsers == 0 then Rewinding(Utmp) else Unlocking(true))).(cursor := 0)
    case Aborting(pass) =>
      Move(s, t, me.(pc := Unlocking(false))).(cursor := 0)
    case Unlocking(ok) =>
      Move(s, t, me.(pc := Idle, replies := me.replies + [if ok then Users(me.vector) else Failed])).(holder := NOBODY)
  }

  /** A step of thread t; copying an entry may also fail. */
  predicate Step(db: Database, s: State, t: nat, s': State) {
    && t < |s.threads| && !Blocked(s, t)
    && var me := s.threads[t];
       (s' == Advance(db, s, t) || (me.pc.Storing? && s' == Move(s, t, me.(pc := Aborting(me.pc.pass)))))
  }

  ghost predicate Next(db: Database, s: State, s': State) {
    exists t :: Step(db, s, t, s')
  }

  /** A run: any interleaving of the threads' steps, all threads outside the call at first. The
      cursor and the buffer may hold anything. */
  ghost predicate Run(db: Database, states: seq<State>) {
    && |states| > 0
    && states[0].holder == NOBODY
    && (forall t | 0 <= t < |states[0].threads| ::
          states[0].threads[t].pc == Idle && states[0].threads[t].replies == [])
    && forall i | 0 <= i < |states| - 1 :: Next(db, states[i], states[i + 1])
  }

  // ---- what a call should return ---------------------------------------------------------------

  /** The user processes, in file order. */
  ghost function UsersOf(entries: seq<Entry>): seq<Entry> {
    if |entries| == 0 then []
    else
      var n := |entries| - 1;
      var before := UsersOf(entries[..n]);
      if entries[n].isUserProcess then before + [entries[n]] else before
  }

  /** utmp is consulted only when utmpx names nobody. */
  ghost function Expected(db: Database): seq<Entry> {
    if UsersOf(db.utmpx) != [] then UsersOf(db.utmpx) else UsersOf(db.utmp)
  }

  // ---- the invariant ---------------------------------------------------------------------------

  predicate InCall(pc: PC) {
    !pc.Idle? && !pc.Locking?
  }

  /** Where the holder is in its walk, in terms of the shared cursor and buffer. */
  ghost predicate Walking(db: Database, s: State, me: Thread) {
    && (me.pc.Unlocking? || me.numUsers == |me.vector|)
    && match me.pc
       case Idle => true
       case Locking => me.vector == []
       case Rewinding(pass) => me.vector == [] && (pass.Utmp? ==> UsersOf(db.utmpx) == [])
       case Fetching(pass) =>
         && s.cursor <= |Records(db, pass)| && me.vector == UsersOf(Records(db, pass)[..s.cursor])
         && (pass.Utmp? ==> UsersOf(db.utmpx) == [])
       case Testing(pass) =>
         && 0 < s.cursor <= |Records(db, pass)| && s.buffer == Records(db, pass)[s.cursor - 1]
         && me.vector == UsersOf(Records(db, pass)[..s.cursor - 1])
         && (pass.Utmp? ==> UsersOf(db.utmpx) == [])
       case Storing(pass) =>
         && 0 < s.cursor <= |Records(db, pass)| && s.buffer == Records(db, pass)[s.cursor - 1]
         && s.buffer.isUserProcess
         && me.vector == UsersOf(Records(db, pass)[..s.cursor - 1])
         && (pass.Utmp? ==> UsersOf(db.utmpx) == [])
       case Closing(pass) =>
         me.vector == UsersOf(Records(db, pass)) && (pass.Utmp? ==> UsersOf(db.utmpx) == [])
       case Aborting(_) => true
       case Unlocking(ok) => ok ==> me.vector == Expected(db)
  }

  ghost predicate ThreadInv(db: Database, s: State, t: nat)
    requires t < |s.threads|
  {
    var me := s.threads[t];
    && (InCall(me.pc) <==> s.holder == t)
    && (me.pc.Locking? || InCall(me.pc) ==> Walking(db, s, me))
    && forall k | 0 <= k < |me.replies| :: me.replies[k] == Users(Expected(db)) || me.replies[k] == Failed
  }

  ghost predicate Inv(db: Database, s: State) {
    && (s.holder == NOBODY || 0 <= s.holder < |s.threads|)
    && forall t | 0 <= t < |s.threads| :: ThreadInv(db, s, t)
  }

  lemma UsersOfExtends(entries: seq<Entry>, c: nat)
    requires c < |entries|
    ensures UsersOf(entries[..c + 1])
         == if entries[c].isUserProcess then UsersOf(entries[..c]) + [entries[c]] else UsersOf(entries[..c])
  {
    assert entries[..c + 1][..c] == entries[..c];
  }

  /** The stepping thread keeps its place in the walk. */
  lemma StepKeepsWalking(db: Database, s: State, t: nat, s': State)
    requires Step(db, s, t, s')
    requires s.threads[t].pc.Locking? || InCall(s.threads[t].pc) ==> Walking(db, s, s.threads[t])
    ensures s'.threads[t].pc.Locking? || InCall(s'.threads[t].pc) ==> Walking(db, s', s'.threads[t])
  {
    var me := s.threads[t];
    match me.pc
    case Fetching(pass) =>
      assert Records(db, pass)[..|Records(db, pass)|] == Records(db, pass);
    case Testing(pass) =>
      UsersOfExtends(Records(db, pass), s.cursor - 1);
    case Storing(pass) =>
      UsersOfExtends(Records(db, pass), s.cursor - 1);
    case _ =>
  }

  /** The stepping thread keeps its own part of the invariant. */
  lemma StepKeepsOwn(db: Database, s: State, t: nat, s': State)
    requires Inv(db, s) && Step(db, s, t, s')
    ensures |s'.threads| == |s.threads| && ThreadInv(db, s', t)
  {
    assert ThreadInv(db, s, t);
    StepKeepsWalking(db, s, t, s');
  }

  /** Every step of every thread keeps the invariant. */
  lemma StepKeepsInv(db: Database, s: State, t: nat, s': State)
    requires Inv(db, s) && Step(db, s, t, s')
    ensures Inv(db, s')
  {
    StepKeepsOwn(db, s, t, s');
    forall u | 0 <= u < |s'.threads| ensures ThreadInv(db, s', u) {
      if u != t {
        assert ThreadInv(db, s, u) && ThreadInv(db, s, t);
      }
    }
  }

  lemma {:induction false} RunKeepsInv(db: Database, states: seq<State>, i: nat)
    requires Run(db, states) && i < |states|
    ensures Inv(db, states[i]) && |states[i].threads| == |states[0].threads|
  {
    if i > 0 {
      RunKeepsInv(db, states, i - 1);
      assert Next(db, states[i - 1], states[i]);
      var t :| Step(db, states[i - 1], t, states[i]);
      StepKeepsInv(db, states[i - 1], t, states[i]);
    }
  }

  // ---- the theorems ----------------------------------------------------------------------------

  /** Every successful call so far returned exactly the user processes, in file order. */
  ghost predicate RepliesAreRight(db: Database, s: State) {
    forall t, k | 0 <= t < |s.threads| && 0 <= k < |s.threads[t].replies| ::
      s.threads[t].replies[k] == Failed || s.threads[t].replies[k] == Users(Expected(db))
  }

  /** At most one thread is between lock and unlock. */
  ghost predicate OneInside(s: State) {
    forall t, u | 0 <= t < |s.threads| && 0 <= u < |s.threads| && InCall(s.threads[t].pc) && InCall(s.threads[u].pc) :: t == u
  }

  /** When no call is under way the mutex is free. */
  ghost predicate FreeWhenAllReturned(s: State) {
    (forall t | 0 <= t < |s.threads| :: s.threads[t].pc == Idle) ==> s.holder == NOBODY
  }

  lemma InvMeans(db: Database, s: State)
    requires Inv(db, s)
    ensures RepliesAreRight(db, s) && OneInside(s) && FreeWhenAllReturned(s)
  {
    forall t, k | 0 <= t < |s.threads| && 0 <= k < |s.threads[t].replies|
      ensures s.threads[t].replies[k] == Failed || s.threads[t].replies[k] == Users(Expected(db))
    {
      assert ThreadInv(db, s, t);
    }
    forall t | 0 <= t < |s.threads| ensures InCall(s.threads[t].pc) <==> s.holder == t {
      assert ThreadInv(db, s, t);
    }
    assert s.holder != NOBODY ==> ThreadInv(db, s, s.holder);
  }

  /** In every interleaving of any number of threads, at every moment, although all of them move one
      cursor and read one buffer; calls that fail on the way included. */
  lemma EveryCallReturnsTheUsers(db: Database, states: seq<State>, i: nat)
    requires Run(db, states) && i < |states|
    ensures RepliesAreRight(db, states[i]) && OneInside(states[i]) && FreeWhenAllReturned(states[i])
  {
    RunKeepsInv(db, states, i);
    InvMeans(db, states[i]);
  }

  /** UsersOf keeps exactly the user processes and their order: it is the file with the other
      entries struck out. */
  lemma {:induction false} UsersOfIsFilter(entries: seq<Entry>, at: seq<nat>)
    requires forall k | 0 <= k < |at| :: at[k] < |entries|
    requires forall j, k | 0 <= j < k < |at| :: at[j] < at[k]
    requires forall i | 0 <= i < |entries| :: entries[i].isUserProcess <==> i in at
    ensures |UsersOf(entries)| == |at|
    ensures forall k | 0 <= k < |at| :: UsersOf(entries)[k] == entries[at[k]]
  {
    assert |at| > 0 ==> at[0] < |entries|;
    if |entries| > 0 {
      var n := |entries| - 1;
      if entries[n].isUserProcess {
        var m := |at| - 1;
        assert at[m] == n by {
          var k :| 0 <= k < |at| && at[k] == n;
        }
        UsersOfIsFilter(entries[..n], at[..m]);
      } else {
        UsersOfIsFilter(entries[..n], at);
      }
    }
  }

  /** In terms of the files alone: whenever a call of any thread has succeeded, it returned exactly the
      entries at those indices of the utmpx file that are user processes, in increasing order; or, if that
      file has none, those of the utmp file. */
  lemma RepliesListTheUsers(db: Database, states: seq<State>, i: nat, t: nat, k: nat, file: seq<Entry>, at: seq<nat>)
    requires Run(db, states) && i < |states| && t < |states[i].threads| && k < |states[i].threads[t].replies|
    requires states[i].threads[t].replies[k].Users?
    requires if exists n | 0 <= n < |db.utmpx| :: db.utmpx[n].isUserProcess then file == db.utmpx else file == db.utmp
    requires forall m | 0 <= m < |at| :: at[m] < |file|
    requires forall m, n | 0 <= m < n < |at| :: at[m] < at[n]
    requires forall n | 0 <= n < |file| :: file[n].isUserProcess <==> n in at
    ensures var entries := states[i].threads[t].replies[k].entries;
            |entries| == |at| && forall m | 0 <= m < |at| :: entries[m] == file[at[m]]
  {
    EveryCallReturnsTheUsers(db, states, i);
    UsersOfIsEmpty(db.utmpx);
    UsersOfIsFilter(file, at);
  }

  lemma {:induction false} UsersOfIsEmpty(entries: seq<Entry>)
    ensures UsersOf(entries) == [] <==> forall n | 0 <= n < |entries| :: !entries[n].isUserProcess
  {
    if |entries| > 0 {
      UsersOfIsEmpty(entries[..|entries| - 1]);
    }
  }

  // ---- every call can come back ------------------------------------------------------------------

  /** How many threads wait for the mutex. */
  function Waiters(threads: seq<Thread>): nat {
    if |threads| == 0 then 0
    else Waiters(threads[..|threads| - 1]) + if threads[|threads| - 1].pc.Locking? then 1 else 0
  }

  lemma {:induction false} WaitersUpdate(threads: seq<Thread>, t: nat, me: Thread)
    requires t < |threads|
    ensures Waiters(threads[t := me])
         == Waiters(threads) - (if threads[t].pc.Locking? then 1 else 0) + if me.pc.Locking? then 1 else 0
  {
    var n := |threads| - 1;
    if t == n {
      assert threads[t := me][..n] == threads[..n];
    } else {
      assert threads[t := me][..n] == threads[..n][t := me];
      WaitersUpdate(threads[..n], t, me);
    }
  }

  function Unread(db: Database, pass: Pass, cursor: nat): nat {
    if cursor < |Records(db, pass)| then |Records(db, pass)| - cursor else 0
  }

  /** How many steps the walk may still take, at most. */
  function WalkRank(db: Database, cursor: nat, pc: PC): nat {
    match pc
    case Idle => 0
    case Locking => 0
    case Rewinding(pass) => After(db, pass) + 3 * |Records(db, pass)| + 5
    case Fetching(pass) => After(db, pass) + 3 * Unread(db, pass, cursor) + 3
    case Testing(pass) => After(db, pass) + 3 * Unread(db, pass, cursor) + 5
    case Storing(pass) => After(db, pass) + 3 * Unread(db, pass, cursor) + 4
    case Closing(pass) => After(db, pass) + 2
    case Aborting(_) => 2
    case Unlocking(_) => 1
  }

  /** What may come after a pass. */
  function After(db: Database, pass: Pass): nat {
    if pass.Utmpx? then 3 * |db.utmp| + 4 else 0
  }

  function HolderRank(db: Database, s: State): nat {
    if 0 <= s.holder < |s.threads| then WalkRank(db, s.cursor, s.threads[s.holder].pc) else 0
  }

  /** In a call and able to go on. */
  predicate CanGoOn(s: State, t: nat) {
    t < |s.threads| && s.threads[t].pc != Idle && !Blocked(s, t)
  }

  /** Going on, either there is one waiting thread less or the walk is shorter. */
  lemma GoingOnIsShorter(db: Database, s: State, t: nat)
    requires Inv(db, s) && CanGoOn(s, t)
    ensures var s' := Advance(db, s, t);
            || Waiters(s'.threads) < Waiters(s.threads)
            || (Waiters(s'.threads) == Waiters(s.threads) && HolderRank(db, s') < HolderRank(db, s))
  {
    assert ThreadInv(db, s, t);
    var s' := Advance(db, s, t);
    assert s'.threads == s.threads[t := s'.threads[t]];
    WaitersUpdate(s.threads, t, s'.threads[t]);
  }

  ghost predicate Path(db: Database, path: seq<State>, s: State) {
    && |path| > 0 && path[0] == s
    && forall k | 0 <= k < |path| - 1 :: Next(db, path[k], path[k + 1])
  }

  /** At rest, with one more reply for every thread that was in a call. */
  ghost predicate AllBack(s: State, r: State) {
    && |r.threads| == |s.threads|
    && forall u | 0 <= u < |s.threads| ::
         && r.threads[u].pc.Idle? && s.threads[u].replies <= r.threads[u].replies
         && (s.threads[u].pc.Idle? || |s.threads[u].replies| < |r.threads[u].replies|)
  }

  lemma AllBackEarlier(db: Database, s: State, t: nat, r: State)
    requires CanGoOn(s, t) && AllBack(Advance(db, s, t), r)
    ensures AllBack(s, r)
  {
    var s' := Advance(db, s, t);
    forall u | 0 <= u < |s.threads| ensures s.threads[u].replies <= s'.threads[u].replies {
    }
  }

  lemma SomeCallCanGoOn(db: Database, s: State, t: nat) returns (u: nat)
    requires Inv(db, s) && t < |s.threads| && s.threads[t].pc != Idle
    ensures CanGoOn(s, u) && Step(db, s, u, Advance(db, s, u))
  {
    u := if s.holder == NOBODY then t else s.holder;
    assert ThreadInv(db, s, t) && ThreadInv(db, s, u);
  }

  /** Nothing blocks for ever: while some call is under way, some thread in a call can step. */
  lemma SomeThreadCanStep(db: Database, states: seq<State>, i: nat, t: nat)
    requires Run(db, states) && i < |states|
    requires t < |states[i].threads| && states[i].threads[t].pc != Idle
    ensures exists u: nat | u < |states[i].threads| ::
              states[i].threads[u].pc != Idle && Step(db, states[i], u, Advance(db, states[i], u))
  {
    RunKeepsInv(db, states, i);
    var u := SomeCallCanGoOn(db, states[i], t);
  }

  lemma {:induction false} WayToRest(db: Database, s: State) returns (path: seq<State>)
    requires Inv(db, s)
    ensures Path(db, path, s) && AllBack(s, path[|path| - 1])
    decreases Waiters(s.threads), HolderRank(db, s)
  {
    if forall t | 0 <= t < |s.threads| :: s.threads[t].pc == Idle {
      path := [s];
    } else {
      var t :| 0 <= t < |s.threads| && s.threads[t].pc != Idle;
      var u := SomeCallCanGoOn(db, s, t);
      StepKeepsInv(db, s, u, Advance(db, s, u));
      GoingOnIsShorter(db, s, u);
      var rest := WayToRest(db, Advance(db, s, u));
      path := [s] + rest;
      PathExtends(db, s, rest);
      AllBackEarlier(db, s, u, rest[|rest| - 1]);
    }
  }

  lemma PathExtends(db: Database, s: State, rest: seq<State>)
    requires |rest| > 0 && Path(db, rest, rest[0]) && Next(db, s, rest[0])
    ensures Path(db, [s] + rest, s)
  {
    var path := [s] + rest;
    forall k | 0 <= k < |path| - 1 ensures Next(db, path[k], path[k + 1]) {
      if k > 0 {
        assert path[k] == rest[k - 1] && path[k + 1] == rest[k];
      }
    }
  }

  ghost predicate ComesToRest(db: Database, path: seq<State>, s: State) {
    Path(db, path, s) && AllBack(s, path[|path| - 1])
  }

  /** Every run, however far it has gone, can be continued until all calls have returned. */
  lemma EveryCallCanReturn(db: Database, states: seq<State>, s: State)
    requires Run(db, states) && s == states[|states| - 1]
    ensures exists path :: ComesToRest(db, path, s)
  {
    RunKeepsInv(db, states, |states| - 1);
    var path := WayToRest(db, s);
    assert ComesToRest(db, path, s);
  }
}
