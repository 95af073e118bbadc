/** The per-thread now/diff slots behind the get and diff calls of src/libstatgrab/globals.h: vectors
    that every call clears, fills, clones and subtracts, over whole runs of calls on one thread. */
module Snapshots {
  import opened Counters
  import opened KeyedDiff
  import opened Options
  import opened Vector
  import opened VectorDiff

  // ---- what a run of calls means ---------------------------------------------------------------

  /** A successful call with the reading the operating system supplied to it:
      fn, fn_diff, fn_r and fn_diff_between. */
  datatype Call<R> = Get(reading: R) | Diff(reading: R) | GetR(reading: R) | Between(cur: R, last: R)

  /** Only fn and fn_diff take a reading into the slots. */
  predicate Records<R>(c: Call<R>) {
    c.Get? || c.Diff?
  }

  /** The latest reading taken by fn or fn_diff, from the history alone. */
  ghost function Latest<R>(calls: seq<Call<R>>): Option<R> {
    if |calls| == 0 then None
    else
      var c := calls[|calls| - 1];
      if Records(c) then Some(c.reading) else Latest(calls[..|calls| - 1])
  }

  /** What call c is to return after this history. */
  ghost function Meaning<R>(history: seq<Call<R>>, c: Call<R>, delta: (R, R) -> R): R {
    match c
    case Get(r) => r
    case GetR(r) => r
    case Between(cur, last) => delta(cur, last)
    case Diff(r) => if Latest(history).None? then r else delta(r, Latest(history).value)
  }

  /** The calls that record a reading, in order. */
  ghost function Recorded<R>(calls: seq<Call<R>>): seq<Call<R>> {
    if |calls| == 0 then []
    else
      var rest := Recorded(calls[..|calls| - 1]);
      if Records(calls[|calls| - 1]) then rest + [calls[|calls| - 1]] else rest
  }

  lemma {:induction false} RecordedKeepsLatest<R>(calls: seq<Call<R>>)
    ensures Latest(Recorded(calls)) == Latest(calls)
  {
    if |calls| > 0 {
      RecordedKeepsLatest(calls[..|calls| - 1]);
    }
  }

  /** What a call means depends on the recorded calls before it alone. */
  lemma BystandersDoNotMatter<R>(history: seq<Call<R>>, c: Call<R>, delta: (R, R) -> R)
    ensures Meaning(history, c, delta) == Meaning(Recorded(history), c, delta)
  {
    RecordedKeepsLatest(history);
  }

  /** Each of these replies is what the recorded calls before it mean: fn_r and fn_diff_between might as
      well not have been made. */
  ghost predicate AsMeant<R>(calls: seq<Call<R>>, replies: seq<R>, delta: (R, R) -> R) {
    && |replies| <= |calls|
    && forall i | 0 <= i < |replies| :: replies[i] == Meaning(Recorded(calls[..i]), calls[i], delta)
  }

  lemma OneMoreReply<R>(calls: seq<Call<R>>, replies: seq<R>, delta: (R, R) -> R, reply: R)
    requires AsMeant(calls, replies, delta) && |replies| < |calls|
    requires reply == Meaning(calls[..|replies|], calls[|replies|], delta)
    ensures AsMeant(calls, replies + [reply], delta)
    ensures calls[..|replies| + 1] == calls[..|replies|] + [calls[|replies|]]
  {
    BystandersDoNotMatter(calls[..|replies|], calls[|replies|], delta);
  }

  lemma {:induction false} LatestIs<R>(calls: seq<Call<R>>, j: nat)
    requires j < |calls| && (calls[j].Get? || calls[j].Diff?)
    requires forall k | j < k < |calls| :: !calls[k].Get? && !calls[k].Diff?
    ensures Latest(calls) == Some(calls[j].reading)
  {
    var n := |calls| - 1;
    if j < n {
      LatestIs(calls[..n], j);
    }
  }

  lemma {:induction false} LatestIsNone<R>(calls: seq<Call<R>>)
    requires forall k | 0 <= k < |calls| :: !calls[k].Get? && !calls[k].Diff?
    ensures Latest(calls) == None
  {
    if |calls| > 0 {
      LatestIsNone(calls[..|calls| - 1]);
    }
  }

  /** The replies of a run, spelled out: fn and fn_r return the reading, fn_diff_between the difference of
      its arguments, newer first; fn_diff the reading against the one of the last fn or fn_diff before it,
      or the reading if there was none. */
  lemma RepliesSpelledOut<R>(calls: seq<Call<R>>, replies: seq<R>, delta: (R, R) -> R, i: nat)
    requires AsMeant(calls, replies, delta) && i < |replies|
    ensures calls[i].Get? || calls[i].GetR? ==> replies[i] == calls[i].reading
    ensures calls[i].Between? ==> replies[i] == delta(calls[i].cur, calls[i].last)
    ensures calls[i].Diff? && (forall k | 0 <= k < i :: !calls[k].Get? && !calls[k].Diff?) ==> replies[i] == calls[i].reading
    ensures forall j | 0 <= j < i && calls[i].Diff? && (calls[j].Get? || calls[j].Diff?) ::
              (forall k | j < k < i :: !calls[k].Get? && !calls[k].Diff?) ==> replies[i] == delta(calls[i].reading, calls[j].reading)
  {
    BystandersDoNotMatter(calls[..i], calls[i], delta);
    if forall k | 0 <= k < i :: !calls[k].Get? && !calls[k].Diff? {
      LatestIsNone(calls[..i]);
    }
    forall j | 0 <= j < i && calls[i].Diff? && (calls[j].Get? || calls[j].Diff?) && forall k | j < k < i :: !calls[k].Get? && !calls[k].Diff?
      ensures replies[i] == delta(calls[i].reading, calls[j].reading)
    {
      LatestIs(calls[..i], j);
    }
  }

  // ---- components with one item ----------------------------------------------------------------

  /** sg_vector_create(1, 1, 1), filled by the reader */
  method OneItem<R>(val: R, cb: Callbacks<R>) returns (v: SgVector<R>)
    modifies cb
    ensures fresh(v) && fresh(v.slots) && v.Valid() && v.Items() == [val]
  {
    v := new SgVector<R>.CreateInt(0, 1, 1, cb);
    v.slots[0] := v.slots[0].(val := val);
  }

  /** The item overwritten in place */
  method SetItem<R>(v: SgVector<R>, val: R)
    requires v.Valid() && v.used == 1
    modifies v.slots
    ensures v.Valid() && v.Items() == [val]
  {
    v.slots[0] := v.slots[0].(val := val);
  }

  /** The difference functions of these components take pointers: nothing is left of a reading that is
      missing, and against a missing one the other passes through. */
  function PointerDelta<S>(delta: (S, S) -> S, zero: S): (Option<S>, Option<S>) -> Option<S> {
    (cur: Option<S>, last: Option<S>) =>
      if cur.None? then Some(zero) else if last.None? then cur else Some(delta(cur.value, last.value))
  }

  /** EASY_COMP_ACCESS and EASY_COMP_DIFF over one component: `vectors[nowidx]` and
      `vectors[diffidx]`, each NULL or a vector of one item. */
  class EasyComponent<S> {
    var now: SgVector?<S>
    var diff: SgVector?<S>
    const cb: Callbacks<S>
    const delta: (S, S) -> S
    const zero: S
    ghost var history: seq<Call<Option<S>>>

    /** What the slots are made of. */
    ghost function Repr(): set<object>
      reads this`now, this`diff, now, diff
    {
      Footprint(now) + Footprint(diff)
    }

    /** Two slots, each empty or with one item, that share nothing. */
    ghost predicate Slots()
      reads this`now, this`diff, now, diff, Repr()
    {
      && (now != null ==> now.Valid() && now.used == 1)
      && (diff != null ==> diff.Valid() && diff.used == 1)
      && Footprint(now) !! Footprint(diff)
    }

    /** The item of the now slot. */
    ghost function View(): Option<S>
      requires Slots()
      reads this`now, this`diff, now, diff, Repr()
    {
      if now == null then None else Some(now.Items()[0])
    }

    ghost predicate Valid()
      reads this, now, diff, Repr()
    {
      Slots() && Latest(history) == if now == null then None else Some(View())
    }

    constructor (delta: (S, S) -> S, zero: S, cb: Callbacks<S>)
      ensures Valid() && Repr() == {} && history == [] && this.delta == delta && this.zero == zero && this.cb == cb
    {
      now, diff, history := null, null, [];
      this.delta, this.zero, this.cb := delta, zero, cb;
    }

    /** The difference function as its callers see it. */
    ghost function Delta(): (Option<S>, Option<S>) -> Option<S> {
      PointerDelta(delta, zero)
    }

    /** The reader overwrites the item in place. */
    method Put(reading: S) returns (r: SgVector<S>)
      requires Slots()
      modifies this`now, Footprint(now), cb
      ensures Slots() && View() == Some(reading) && fresh(Footprint(now) - old(Footprint(now)))
      ensures r == now && r.Items() == [reading]
    {
      if now == null {
        now := OneItem(reading, cb);
      } else {
        SetItem(now, reading);
      }
      r := now;
    }

    /** The old item is copied out before the get call overwrites it. */
    method Subtract(reading: S) returns (r: SgVector<S>)
      requires Slots() && now != null
      modifies this`now, this`diff, Footprint(now), Footprint(diff), cb
      ensures Slots() && View() == Some(reading) && (forall o | o in Repr() :: o in old(Repr()) || fresh(o))
      ensures r == diff && r.Items() == [delta(reading, old(View().value))]
    {
      if diff == null {
        diff := OneItem(cb.blank, cb);
      }
      var last := now.Items()[0];
      var cur := Put(reading);
      SetItem(diff, delta(cur.Items()[0], last));
      r := diff;
    }

    /** fn */
    method Get(reading: S) returns (r: SgVector<S>)
      requires Valid()
      modifies this`now, this`history, Footprint(now), cb
      ensures Valid() && (forall o | o in Repr() :: o in old(Repr()) || fresh(o)) && history == old(history) + [Call.Get(Some(reading))]
      ensures r == now && r.Valid() && Holds(r, Meaning(old(history), Call.Get(Some(reading)), Delta()))
      ensures r.Items() == [reading]
    {
      r := Put(reading);
      history := history + [Call.Get(Some(reading))];
    }

    /** fn_diff */
    method Diff(reading: S) returns (r: SgVector<S>)
      requires Valid()
      modifies this, Repr(), cb
      ensures Valid() && (forall o | o in Repr() :: o in old(Repr()) || fresh(o)) && history == old(history) + [Call.Diff(Some(reading))]
      ensures r in {now, diff} && r.Valid() && Holds(r, Meaning(old(history), Call.Diff(Some(reading)), Delta()))
      ensures r.Items() == [if old(now) == null then reading else delta(reading, old(View().value))]
    {
      history := history + [Call.Diff(Some(reading))];
      if now == null {
        r := Put(reading);
      } else {
        r := Subtract(reading);
      }
    }

    /** fn_r: a vector of the caller's own; the slots stay as they are */
    method GetR(reading: S) returns (r: SgVector<S>)
      requires Valid()
      modifies this`history, cb
      ensures Valid() && View() == old(View()) && history == old(history) + [Call.GetR(Some(reading))]
      ensures fresh(r) && fresh(r.slots) && r.Valid() && Holds(r, Meaning(old(history), Call.GetR(Some(reading)), Delta()))
      ensures r.Items() == [reading]
    {
      r := OneItem(reading, cb);
      history := history + [Call.GetR(Some(reading))];
    }

    /** fn_diff_between; either argument may be NULL */
    method Between(cur: Option<S>, last: Option<S>) returns (r: SgVector<S>)
      requires Valid()
      modifies this`history, cb
      ensures Valid() && View() == old(View()) && history == old(history) + [Call.Between(cur, last)]
      ensures fresh(r) && fresh(r.slots) && r.Valid() && Holds(r, Meaning(old(history), Call.Between(cur, last), Delta()))
      ensures cur.Some? && last.Some? ==> r.Items() == [delta(cur.value, last.value)]
      ensures cur.Some? && last.None? ==> r.Items() == [cur.value]
      ensures cur.None? ==> r.Items() == [zero]
    {
      r := OneItem(PointerDelta(delta, zero)(cur, last).value, cb);
      history := history + [Call.Between(cur, last)];
    }
  }

  /** The vector's one item is this. */
  ghost predicate Holds<S>(r: SgVector<S>, val: Option<S>)
    requires r.Valid()
    reads r, r.slots
  {
    val.Some? && r.Items() == [val.value]
  }

  /** Any one call of a component; readers do not supply NULL. */
  method Perform<S>(c: EasyComponent<S>, call: Call<Option<S>>) returns (reply: Option<S>)
    requires c.Valid() && (call.Between? || call.reading.Some?)
    modifies c, c.Repr(), c.cb
    ensures c.Valid() && (forall o | o in c.Repr() :: o in old(c.Repr()) || fresh(o))
    ensures c.history == old(c.history) + [call]
    ensures reply == Meaning(old(c.history), call, c.Delta())
  {
    var r;
    match call {
      case Get(reading) => r := c.Get(reading.value);
      case Diff(reading) => r := c.Diff(reading.value);
      case GetR(reading) => r := c.GetR(reading.value);
      case Between(cur, last) => r := c.Between(cur, last);
    }
    reply := Some(r.Items()[0]);
  }

  /** A whole run on a new component */
  method Replay<S>(c: EasyComponent<S>, calls: seq<Call<Option<S>>>) returns (replies: seq<Option<S>>)
    requires c.Valid() && c.history == []
    requires forall i | 0 <= i < |calls| :: calls[i].Between? || calls[i].reading.Some?
    modifies c, c.Repr(), c.cb
    ensures |replies| == |calls| && AsMeant(calls, replies, c.Delta())
    ensures forall i | 0 <= i < |calls| && (calls[i].Get? || calls[i].GetR?) :: replies[i] == calls[i].reading
    ensures forall i | 0 <= i < |calls| && calls[i].Between? && calls[i].cur.Some? && calls[i].last.Some? ::
              replies[i] == Some(c.delta(calls[i].cur.value, calls[i].last.value))
  {
    replies := [];
    while |replies| < |calls|
      invariant c.Valid() && AsMeant(calls, replies, c.Delta()) && c.history == calls[..|replies|]
      invariant forall o | o in c.Repr() :: o in old(c.Repr()) || fresh(o)
    {
      var reply := Perform(c, calls[|replies|]);
      OneMoreReply(calls, replies, c.Delta(), reply);
      replies := replies + [reply];
    }
    forall i | 0 <= i < |calls|
      ensures calls[i].Get? || calls[i].GetR? ==> replies[i] == calls[i].reading
      ensures calls[i].Between? ==> replies[i] == c.Delta()(calls[i].cur, calls[i].last)
    {
      RepliesSpelledOut(calls, replies, c.Delta(), i);
    }
  }

  // ---- telescoping -----------------------------------------------------------------------------

  /** `delta` subtracts this measure for these two readings. */
  ghost predicate AddsUp<R>(delta: (R, R) -> R, measure: R -> nat, cur: R, last: R) {
    Congruent(measure(delta(cur, last)), measure(cur) - measure(last))
  }

  /** It does so whenever the newer reading is one of the run's. */
  ghost predicate Additive<R(!new)>(calls: seq<Call<R>>, delta: (R, R) -> R, measure: R -> nat) {
    forall i, last | 0 <= i < |calls| && Records(calls[i]) :: AddsUp(delta, measure, calls[i].reading, last)
  }

  /** The measure of the latest reading, 0 before there is one. */
  ghost function Level<R>(calls: seq<Call<R>>, measure: R -> nat): nat {
    if Latest(calls).None? then 0 else measure(Latest(calls).value)
  }

  /** The measure summed over everything the diff calls returned. */
  ghost function Returned<R>(calls: seq<Call<R>>, delta: (R, R) -> R, measure: R -> nat): nat {
    if |calls| == 0 then 0
    else
      var before := calls[..|calls| - 1];
      var c := calls[|calls| - 1];
      Returned(before, delta, measure) + if c.Diff? then measure(Meaning(before, c, delta)) else 0
  }

  /** The growth that plain get calls read and no diff call reports. */
  ghost function Skipped<R>(calls: seq<Call<R>>, measure: R -> nat): int {
    if |calls| == 0 then 0
    else
      var before := calls[..|calls| - 1];
      var c := calls[|calls| - 1];
      Skipped(before, measure) + if c.Get? then measure(c.reading) - Level(before, measure) else 0
  }

  lemma AddBoth(a: int, b: int, x: int, y: int)
    requires Congruent(a, b) && Congruent(x, y)
    ensures Congruent(a + x, b + y)
  {}

  /** What the diff calls returned plus what get calls skipped is the latest level, modulo 2^64. */
  ghost predicate Telescoped<R>(calls: seq<Call<R>>, delta: (R, R) -> R, measure: R -> nat) {
    Congruent(Returned(calls, delta, measure) + Skipped(calls, measure), Level(calls, measure))
  }

  lemma AdditivePrefix<R(!new)>(calls: seq<Call<R>>, delta: (R, R) -> R, measure: R -> nat, n: nat)
    requires Additive(calls, delta, measure) && n <= |calls|
    ensures Additive(calls[..n], delta, measure)
  {
    var before := calls[..n];
    forall i, last | 0 <= i < |before| && Records(before[i]) ensures AddsUp(delta, measure, before[i].reading, last) {
      assert before[i] == calls[i];
    }
  }

  /** It is so in any run. */
  lemma {:induction false} Telescopes<R(!new)>(calls: seq<Call<R>>, delta: (R, R) -> R, measure: R -> nat)
    requires Additive(calls, delta, measure)
    ensures Telescoped(calls, delta, measure)
  {
    if |calls| > 0 {
      var n := |calls| - 1;
      var before, c := calls[..n], calls[n];
      AdditivePrefix(calls, delta, measure, n);
      Telescopes(before, delta, measure);
      var sum: int := Returned(before, delta, measure) + Skipped(before, measure);
      var level: int := Level(before, measure);
      if c.Get? {
        AddBoth(sum, level, measure(c.reading) - level, measure(c.reading) - level);
      } else if c.Diff? {
        ReplyAddsUp(calls, delta, measure, n);
        AddBoth(sum, level, measure(Meaning(before, c, delta)), measure(c.reading) - level);
      }
    }
  }

  lemma {:induction false} ReplyAddsUp<R(!new)>(calls: seq<Call<R>>, delta: (R, R) -> R, measure: R -> nat, n: nat)
    requires Additive(calls, delta, measure) && n < |calls| && calls[n].Diff?
    ensures Congruent(measure(Meaning(calls[..n], calls[n], delta)), measure(calls[n].reading) - Level(calls[..n], measure))
  {
    if Latest(calls[..n]).Some? {
      assert AddsUp(delta, measure, calls[n].reading, Latest(calls[..n]).value);
    }
  }

  /** The measure summed over the replies to diff calls. */
  ghost function DiffTotal<R>(calls: seq<Call<R>>, replies: seq<R>, measure: R -> nat): nat
    requires |replies| == |calls|
  {
    if |calls| == 0 then 0
    else
      var n := |calls| - 1;
      DiffTotal(calls[..n], replies[..n], measure) + if calls[n].Diff? then measure(replies[n]) else 0
  }

  lemma {:induction false} RepliesAreReturned<R>(calls: seq<Call<R>>, replies: seq<R>, delta: (R, R) -> R, measure: R -> nat)
    requires |replies| == |calls| && AsMeant(calls, replies, delta)
    ensures DiffTotal(calls, replies, measure) == Returned(calls, delta, measure)
  {
    if |calls| > 0 {
      var n := |calls| - 1;
      forall i | 0 <= i < n ensures calls[..n][..i] == calls[..i] {
      }
      RepliesAreReturned(calls[..n], replies[..n], delta, measure);
      BystandersDoNotMatter(calls[..n], calls[n], delta);
    }
  }

  /** So the replies that a whole run really got telescope. */
  lemma {:induction false} RepliesTelescope<R(!new)>(calls: seq<Call<R>>, replies: seq<R>, delta: (R, R) -> R, measure: R -> nat)
    requires |replies| == |calls| && AsMeant(calls, replies, delta) && Additive(calls, delta, measure)
    ensures Congruent(DiffTotal(calls, replies, measure) + Skipped(calls, measure), Level(calls, measure))
  {
    RepliesAreReturned(calls, replies, delta, measure);
    Telescopes(calls, delta, measure);
  }

  /** The reply of fn_diff_between is what was added from the older argument to the newer one. */
  lemma BetweenAddsUp<R>(calls: seq<Call<R>>, replies: seq<R>, delta: (R, R) -> R, measure: R -> nat, i: nat)
    requires AsMeant(calls, replies, delta) && i < |replies| && calls[i].Between?
    requires AddsUp(delta, measure, calls[i].cur, calls[i].last)
    ensures Congruent(measure(replies[i]), measure(calls[i].cur) - measure(calls[i].last))
  {
    RepliesSpelledOut(calls, replies, delta, i);
  }

  /** The measure summed over replies lo to hi - 1. */
  ghost function SumOfReplies<R>(replies: seq<R>, measure: R -> nat, lo: nat, hi: nat): nat
    requires lo <= hi <= |replies|
  {
    if lo == hi then 0 else SumOfReplies(replies, measure, lo, hi - 1) + measure(replies[hi - 1])
  }

  /** Call i is one of fn_diff_between that adds up and, but for the first, takes over from the one before. */
  ghost predicate TakesOver<R>(calls: seq<Call<R>>, delta: (R, R) -> R, measure: R -> nat, lo: nat, i: nat) {
    && i < |calls| && calls[i].Between? && AddsUp(delta, measure, calls[i].cur, calls[i].last)
    && (lo < i ==> calls[i - 1].Between? && calls[i].last == calls[i - 1].cur)
  }

  /** Calls of fn_diff_between whose arguments follow on one another telescope. */
  lemma {:induction false} BetweenTelescopes<R>(calls: seq<Call<R>>, replies: seq<R>, delta: (R, R) -> R, measure: R -> nat, lo: nat, hi: nat)
    requires AsMeant(calls, replies, delta) && lo < hi <= |replies|
    requires forall i: nat | lo <= i < hi :: TakesOver(calls, delta, measure, lo, i)
    ensures calls[hi - 1].Between? && calls[lo].Between?
    ensures Congruent(SumOfReplies(replies, measure, lo, hi), measure(calls[hi - 1].cur) - measure(calls[lo].last))
  {
    var n := hi - 1;
    assert TakesOver(calls, delta, measure, lo, n) && TakesOver(calls, delta, measure, lo, lo);
    BetweenAddsUp(calls, replies, delta, measure, n);
    if lo < n {
      BetweenTelescopes(calls, replies, delta, measure, lo, n);
      var sum: int, a: int, b: int := SumOfReplies(replies, measure, lo, n), measure(calls[lo].last), measure(calls[n].last);
      Chain(sum, a, b, measure(replies[n]), measure(calls[n].cur));
    } else {
      assert SumOfReplies(replies, measure, lo, lo) == 0;
    }
  }

  lemma Chain(sum: int, a: int, b: int, reply: int, c: int)
    requires Congruent(sum, b - a) && Congruent(reply, c - b)
    ensures Congruent(sum + reply, c - a)
  {}

  /** A run without plain get calls: the differences returned add up to the latest counter. */
  lemma {:induction false} DiffOnlyTelescopes<R(!new)>(calls: seq<Call<R>>, delta: (R, R) -> R, measure: R -> nat)
    requires Additive(calls, delta, measure)
    requires forall i | 0 <= i < |calls| :: !calls[i].Get?
    ensures Congruent(Returned(calls, delta, measure), Level(calls, measure))
  {
    Telescopes(calls, delta, measure);
    NothingSkipped(calls, measure);
  }

  lemma {:induction false} NothingSkipped<R>(calls: seq<Call<R>>, measure: R -> nat)
    requires forall i | 0 <= i < |calls| :: !calls[i].Get?
    ensures Skipped(calls, measure) == 0
  {
    if |calls| > 0 {
      NothingSkipped(calls[..|calls| - 1], measure);
    }
  }
}
