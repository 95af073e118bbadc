/** Components with any number of items: MULTI_COMP_ACCESS and MULTI_COMP_DIFF of
    src/libstatgrab/globals.h on their vectors, and what runs of their calls do. */
module MultiSnapshots {
  import opened Counters
  import opened KeyedDiff
  import opened Options
  import opened Snapshots
  import opened Vector
  import opened VectorDiff

  /** What a successful fn_int makes of the cleared vector it is given: it resizes and fills it, leaves
      it without items, or, having resized it to nothing, leaves NULL. */
  datatype Reading<K, V> = Filled(items: seq<Item<K, V>>) | Emptied

  function ItemsOf<K, V>(r: Reading<K, V>): seq<Item<K, V>> {
    if r.Filled? then r.items else []
  }

  /** What a pointer to a vector stands for; Emptied is NULL. */
  ghost function ReadingAt<K, V>(v: SgVector?<Item<K, V>>): Reading<K, V>
    requires v != null ==> v.Valid()
    reads v, if v == null then {} else {v.slots}
  {
    if v == null then Emptied else Filled(Payloads(v.View()))
  }

  /** The difference of two readings; nothing is left of a new one that is NULL. */
  ghost function DeltaBy<K, V>(sub: (V, V) -> V): (Reading<K, V>, Reading<K, V>) -> Reading<K, V> {
    (cur: Reading<K, V>, last: Reading<K, V>) => if cur.Emptied? then Emptied else Filled(Difference(cur.items, ItemsOf(last), sub))
  }

  /** No more items than an unsigned block size can express. */
  predicate Fits<K, V>(r: Reading<K, V>) {
    |ItemsOf(r)| <= TWO31
  }

  // ---- the slots as numbers --------------------------------------------------------------------

  /** What is in the now slot, and the sizes of the vector in the diff slot. */
  datatype MultiState<K, V> = MultiState(now: Reading<K, V>, diff: Option<Sizes>)

  /** VECTOR_CREATE(type, n) */
  function FreshSizes(n: nat): Sizes {
    NewSizes(ShiftFrom(0, n), n, 0)
  }

  /** The vector that fn_diff copies into: made for as many items as the reading before has. */
  function DiffSlot<K, V>(s: MultiState<K, V>): Sizes
    requires s.now.Filled?
  {
    if s.diff.Some? then s.diff.value else FreshSizes(|s.now.items|)
  }

  /** Copying n items into a vector goes wrong: it is freed and used again, or it is not given the
      slots that it needs. */
  predicate CopyFaults(z: Sizes, n: nat) {
    !CloneIntoIsSafe(z, n, true) || (z.used != n && !HasRoom(z, n))
  }

  predicate DiffFaults<K, V>(s: MultiState<K, V>, r: Reading<K, V>) {
    s.now.Filled? && r.Filled? && CopyFaults(DiffSlot(s), |r.items|)
  }

  /** What fn_diff returns. */
  ghost function DiffReply<K, V>(s: MultiState<K, V>, r: Reading<K, V>, sub: (V, V) -> V): Reading<K, V> {
    if s.now.Emptied? then r else DeltaBy(sub)(r, s.now)
  }

  /** The slots after fn_diff, where it does not fault. */
  function AfterDiff<K, V>(s: MultiState<K, V>, r: Reading<K, V>): MultiState<K, V> {
    if s.now.Emptied? then s.(now := r)
    else if r.Emptied? then MultiState(Emptied, None)
    else MultiState(r, Some(CopiedSizes(DiffSlot(s), |r.items|)))
  }

  /** The slots after a run of calls. */
  ghost function MultiAfter<K, V>(calls: seq<Call<Reading<K, V>>>): MultiState<K, V> {
    if |calls| == 0 then MultiState(Emptied, None)
    else
      var s := MultiAfter(calls[..|calls| - 1]);
      match calls[|calls| - 1]
      case Get(r) => s.(now := r)
      case Diff(r) => AfterDiff(s, r)
      case GetR(_) => s
      case Between(_, _) => s
  }

  ghost predicate Countable<K, V>(calls: seq<Call<Reading<K, V>>>) {
    forall i | 0 <= i < |calls| ::
      if calls[i].Between? then Fits(calls[i].cur) && Fits(calls[i].last) else Fits(calls[i].reading)
  }

  // ---- when diff calls fault -------------------------------------------------------------------

  /** The now slot is not NULL. */
  ghost predicate HasNow<K, V>(calls: seq<Call<Reading<K, V>>>) {
    Latest(calls).Some? && Latest(calls).value.Filled?
  }

  /** What the history says of the diff vector: how many items it holds, and whether it is starved,
      that is, recorded with one slot but allocated with none. */
  datatype Room = Room(items: nat, starved: bool)

  /** The diff vector is created when the first difference is computed, with as many slots as the
      reading before had items, and given up when a reading is NULL. A reading of several items
      replaces a starved buffer. */
  ghost function DiffRoom<K, V>(calls: seq<Call<Reading<K, V>>>): Option<Room>
    decreases |calls|, 0
  {
    if |calls| == 0 then None
    else
      var before := calls[..|calls| - 1];
      var c := calls[|calls| - 1];
      if !c.Diff? || !HasNow(before) then DiffRoom(before)
      else if c.reading.Emptied? then None
      else Some(Room(|c.reading.items|, |c.reading.items| == 0 && RoomBefore(before).starved))
  }

  ghost function RoomBefore<K, V>(calls: seq<Call<Reading<K, V>>>): Room
    decreases |calls|, 1
  {
    if DiffRoom(calls).Some? then DiffRoom(calls).value
    else Room(0, HasNow(calls) && |Latest(calls).value.items| == 0)
  }

  /** A difference goes wrong exactly in two cases: the reading has no items and the last difference had
      some, or it has one item and the buffer is starved. */
  ghost predicate GoesWrong<K, V>(calls: seq<Call<Reading<K, V>>>, r: Reading<K, V>) {
    && HasNow(calls) && r.Filled?
    && ((|r.items| == 0 && RoomBefore(calls).items > 0) || (|r.items| == 1 && RoomBefore(calls).starved))
  }

  /** No call of the run went wrong. */
  ghost predicate NothingWrong<K, V>(calls: seq<Call<Reading<K, V>>>) {
    forall i | 0 <= i < |calls| && calls[i].Diff? :: !GoesWrong(calls[..i], calls[i].reading)
  }

  /** The diff vector is as the history says. */
  ghost predicate AsTold(z: Sizes, room: Room) {
    && z.used == room.items && z.shift <= 31 && SoundSizes(z)
    && if room.starved then z == Sizes(0, 1, 0, 0) else z.cap > 0
  }

  lemma ShiftFromBound(k: nat, n: nat)
    requires k <= 31
    ensures ShiftFrom(k, n) <= 31
    decreases 31 - k
  {}

  lemma SmallBlock(shift: nat, n: nat)
    requires shift <= 31 && n <= TWO31
    ensures n + Pow2(shift) <= TWO64
  {
    Pow2Of31();
    Pow2Splits(shift, 31);
    NonZeroMultiple(Pow2(31 - shift), Pow2(shift));
  }

  lemma FreshAsTold(n: nat)
    requires n <= TWO31
    ensures AsTold(FreshSizes(n), Room(0, n == 0))
  {
    ShiftFromBound(0, n);
    SmallBlock(ShiftFrom(0, n), n);
    NewIsSound(ShiftFrom(0, n), n, 0);
    if n == 0 {
      RoundUpOfZero(0);
    }
  }

  /** The fault of the code is the one the history tells of. */
  lemma CopyFaultsAsTold(z: Sizes, room: Room, n: nat)
    requires AsTold(z, room) && n <= TWO31
    ensures CopyFaults(z, n) <==> (n == 0 && room.items > 0) || (n == 1 && room.starved)
  {
    if n > 0 {
      SmallBlock(z.shift, n);
      RoomIsMissingExactlyIfStarved(z, n);
      RoundUpIsLeastMultiple(n, z.shift);
    }
  }

  lemma CopyAsTold(z: Sizes, room: Room, n: nat)
    requires AsTold(z, room) && n <= TWO31 && !CopyFaults(z, n)
    ensures AsTold(CopiedSizes(z, n), Room(n, n == 0 && room.starved))
  {
    CopyFaultsAsTold(z, room, n);
    if z.used != n {
      SmallBlock(z.shift, n);
      ResizedIsSound(z, n, n);
    }
  }

  lemma PrefixesToo<K, V>(calls: seq<Call<Reading<K, V>>>, n: nat)
    requires Countable(calls) && NothingWrong(calls) && n <= |calls|
    ensures Countable(calls[..n]) && NothingWrong(calls[..n])
  {
    forall i | 0 <= i < n ensures calls[..n][i] == calls[i] && calls[..n][..i] == calls[..i] {
    }
  }

  /** The slots are as the history says: the now slot is the latest reading, and the diff vector has the
      room told of. */
  ghost predicate AsHistory<K, V>(s: MultiState<K, V>, calls: seq<Call<Reading<K, V>>>) {
    && s.now == (if Latest(calls).Some? then Latest(calls).value else Emptied) && Fits(s.now)
    && (s.diff.Some? <==> DiffRoom(calls).Some?)
    && (s.diff.Some? ==> AsTold(s.diff.value, DiffRoom(calls).value))
  }

  lemma SlotAsTold<K, V>(s: MultiState<K, V>, calls: seq<Call<Reading<K, V>>>)
    requires AsHistory(s, calls) && s.now.Filled?
    ensures AsTold(DiffSlot(s), RoomBefore(calls))
  {
    if s.diff.None? {
      FreshAsTold(|s.now.items|);
    }
  }

  /** A diff call that the history does not tell against keeps the slots so. */
  lemma DiffKeepsHistory<K, V>(s: MultiState<K, V>, before: seq<Call<Reading<K, V>>>, calls: seq<Call<Reading<K, V>>>, r: Reading<K, V>)
    requires AsHistory(s, before) && |calls| > 0 && calls[..|calls| - 1] == before && calls[|calls| - 1] == Call.Diff(r)
    requires Fits(r) && !GoesWrong(before, r)
    ensures AsHistory(AfterDiff(s, r), calls)
  {
    if s.now.Filled? && r.Filled? {
      SlotAsTold(s, before);
      CopyFaultsAsTold(DiffSlot(s), RoomBefore(before), |r.items|);
      CopyAsTold(DiffSlot(s), RoomBefore(before), |r.items|);
    }
  }

  /** After any run in which nothing went wrong the slots are as the history says. */
  lemma {:induction false} MultiRunState<K, V>(calls: seq<Call<Reading<K, V>>>)
    requires Countable(calls) && NothingWrong(calls)
    ensures AsHistory(MultiAfter(calls), calls)
    ensures MultiAfter(calls).now.Filled? ==> AsTold(DiffSlot(MultiAfter(calls)), RoomBefore(calls))
  {
    if |calls| > 0 {
      var n := |calls| - 1;
      PrefixesToo(calls, n);
      MultiRunState(calls[..n]);
      if calls[n].Diff? {
        DiffKeepsHistory(MultiAfter(calls[..n]), calls[..n], calls, calls[n].reading);
      }
    }
    if MultiAfter(calls).now.Filled? {
      SlotAsTold(MultiAfter(calls), calls);
    }
  }

  /** After such a run the next diff call faults exactly when the history says so. */
  lemma DiffFaultsAsTold<K, V>(calls: seq<Call<Reading<K, V>>>, r: Reading<K, V>)
    requires Countable(calls) && NothingWrong(calls) && Fits(r)
    ensures DiffFaults(MultiAfter(calls), r) <==> GoesWrong(calls, r)
  {
    MultiRunState(calls);
    var s := MultiAfter(calls);
    if s.now.Filled? && r.Filled? {
      CopyFaultsAsTold(DiffSlot(s), RoomBefore(calls), |r.items|);
    }
  }

  /** What fn_diff makes of the slots is what the history means. */
  lemma DiffMeans<K, V>(calls: seq<Call<Reading<K, V>>>, r: Reading<K, V>, sub: (V, V) -> V)
    requires Countable(calls) && NothingWrong(calls) && Fits(r) && !GoesWrong(calls, r)
    ensures !DiffFaults(MultiAfter(calls), r) && Fits(MultiAfter(calls).now)
    ensures DiffReply(MultiAfter(calls), r, sub) == Meaning(calls, Call.Diff(r), DeltaBy(sub))
    ensures var more := calls + [Call.Diff(r)];
            Countable(more) && NothingWrong(more) && MultiAfter(more) == AfterDiff(MultiAfter(calls), r)
  {
    MultiRunState(calls);
    DiffFaultsAsTold(calls, r);
    DifferenceWithNothing(ItemsOf(r), sub);
    Extend(calls, Call.Diff(r));
  }

  /** A history goes on. */
  lemma Extend<K, V>(history: seq<Call<Reading<K, V>>>, c: Call<Reading<K, V>>)
    requires Countable(history) && NothingWrong(history)
    requires if c.Between? then Fits(c.cur) && Fits(c.last) else Fits(c.reading)
    requires c.Diff? ==> !GoesWrong(history, c.reading)
    ensures Countable(history + [c]) && NothingWrong(history + [c])
    ensures (history + [c])[..|history|] == history && (history + [c])[|history|] == c
  {
    var more := history + [c];
    forall i | 0 <= i < |more| && more[i].Diff? ensures !GoesWrong(more[..i], more[i].reading) {
      assert more[..i] == history[..i];
    }
  }

  /** Where no reading is ever without items no diff call ever faults. */
  lemma {:induction false} NeverEmptyNeverFaults<K, V>(calls: seq<Call<Reading<K, V>>>, r: Reading<K, V>)
    requires Countable(calls) && Fits(r) && r != Filled([])
    requires forall i | 0 <= i < |calls| && Records(calls[i]) :: calls[i].reading != Filled([])
    ensures NothingWrong(calls) && !RoomBefore(calls).starved
    ensures HasNow(calls) ==> Latest(calls).value != Filled([])
    ensures !DiffFaults(MultiAfter(calls), r)
  {
    if |calls| > 0 {
      var n := |calls| - 1;
      NeverEmptyNeverFaults(calls[..n], r);
      forall i | 0 <= i < |calls| && calls[i].Diff? ensures !GoesWrong(calls[..i], calls[i].reading) {
        if i < n {
          assert calls[..n][i] == calls[i] && calls[..n][..i] == calls[..i];
        }
      }
    }
    DiffFaultsAsTold(calls, r);
  }

  /** Readings of two, two and no items: the third diff call uses the vector it has just freed. */
  lemma EmptyReadingFaults<K, V>(r: seq<Item<K, V>>)
    requires |r| == 2
    ensures DiffFaults(MultiAfter([Call.Diff(Filled(r)), Call.Diff(Filled(r))]), Filled([]))
  {
    var calls := [Call.Diff(Filled(r)), Call.Diff(Filled(r))];
    assert calls[..1] == [Call.Diff(Filled(r))];
    DiffFaultsAsTold(calls, Filled([]));
  }

  /** A reading of one item after one of none: the diff vector has no slot for it. */
  lemma StarvedVectorFaults<K, V>(item: Item<K, V>)
    ensures DiffFaults(MultiAfter([Call.Get(Reading<K, V>.Filled([]))]), Filled([item]))
  {
    DiffFaultsAsTold([Call.Get(Reading<K, V>.Filled([]))], Filled([item]));
  }

  // ---- the code --------------------------------------------------------------------------------

  /** VECTOR_CREATE(type, n) */
  method NewVector<T>(n: nat, cb: Callbacks<T>) returns (v: SgVector<T>)
    requires n <= TWO31
    modifies cb
    ensures fresh(v) && fresh(v.slots) && v.Valid() && v.shift <= 31 && v.used == 0
    ensures SizesOf(v.View()) == FreshSizes(n) && (n > 0 ==> WellFormed(v.View()))
  {
    var shift := BlockShift(n);
    SmallBlock(shift, n);
    v := new SgVector<T>.CreateInt(shift, n, 0, cb);
  }

  /** A reader's loop over the items of the vector it has resized */
  method WriteItems<T>(v: SgVector<T>, items: seq<T>)
    requires v.Valid() && v.used == |items|
    modifies v.slots
    ensures v.Valid() && Payloads(v.View()) == items
  {
    var i := 0;
    while i < |items|
      invariant 0 <= i <= |items| && v.Valid()
      invariant forall k | 0 <= k < i :: v.slots[k].val == items[k]
    {
      v.slots[i] := v.slots[i].(val := items[i]);
      i := i + 1;
    }
  }

  /** fn_int on a cleared vector; `out` is what it leaves in the slot */
  method Read<K, V>(v: SgVector<Item<K, V>>, reading: Reading<K, V>, cb: Callbacks<Item<K, V>>) returns (out: SgVector?<Item<K, V>>)
    requires v.Valid() && WellFormed(v.View()) && v.used == 0 && v.shift <= 31 && Fits(reading)
    modifies v, v.slots, cb
    ensures out == null || out == v
    ensures out != null ==> v.Valid() && WellFormed(v.View()) && (v.slots == old(v.slots) || fresh(v.slots))
    ensures ReadingAt(out) == reading
  {
    var n := |ItemsOf(reading)|;
    SmallBlock(v.shift, n);
    if n > 0 {
      RoomIsMissingExactlyIfStarved(SizesOf(v.View()), n);
    }
    if reading == Filled([]) {
      return v;
    }
    var alive := v.Resize(n, true, cb);
    if !alive {
      return null;
    }
    WriteItems(v, reading.items);
    return v;
  }

  /** A vector of the caller's own, as the first half of fn_r makes it */
  method ReadNew<K, V>(reading: Reading<K, V>, cb: Callbacks<Item<K, V>>) returns (v: SgVector?<Item<K, V>>)
    requires Fits(reading)
    modifies cb
    ensures fresh(Footprint(v)) && (v != null ==> v.Valid() && WellFormed(v.View()) && v.shift <= 31)
    ensures ReadingAt(v) == reading
  {
    var made := NewVector(16, cb);
    v := Read(made, reading, cb);
  }

  /** sg_vector_clone, where memory can be had */
  method Duplicate<T>(v: SgVector<T>, cb: Callbacks<T>) returns (w: SgVector<T>)
    requires v.Valid()
    modifies cb
    ensures fresh(w) && fresh(w.slots) && w.Valid() && Payloads(w.View()) == Payloads(v.View())
  {
    w := Clone(v, true, v.used, cb);
  }

  /** sg_vector_free */
  method Discard<T>(v: SgVector<T>, cb: Callbacks<T>)
    requires v.Valid()
    modifies v`used, v.slots, cb
    ensures Freed(old(v.View()), old(cb.ledger), cb.ledger)
  {
    v.Clear(cb);
  }

  /** sg_vector_compute_diff, where memory can be had and the copy does not fault */
  method DifferenceInto<K(==), V>(dest: SgVector<Item<K, V>>, cur: SgVector?<Item<K, V>>, last: SgVector?<Item<K, V>>,
                                  sub: (V, V) -> V, cb: Callbacks<Item<K, V>>)
    returns (out: SgVector?<Item<K, V>>)
    requires dest.Valid() && (cur != null ==> cur.Valid() && dest != cur && dest.slots != cur.slots)
    requires last != null ==> last.Valid() && dest != last && dest.slots != last.slots
    requires cur != null ==> cur.used + Pow2(dest.shift) <= TWO64 && !CopyFaults(SizesOf(dest.View()), cur.used)
    modifies dest, dest.slots, cb
    ensures out == (if cur == null then null else dest)
    ensures out != null ==> out.Valid() && SizesOf(out.View()) == CopiedSizes(old(SizesOf(dest.View())), cur.used)
    ensures dest.slots == old(dest.slots) || fresh(dest.slots)
    ensures ReadingAt(out) == DeltaBy(sub)(old(ReadingAt(cur)), old(ReadingAt(last)))
  {
    var good := if cur == null then 0 else cur.used;
    var outcome;
    out, outcome := ComputeDiff(dest, cur, last, sub, true, good, cb);
  }

  /** The vectors `vectors[nowidx]` and `vectors[diffidx]` of one component on one thread. */
  class MultiComponent<K(==), V> {
    var now: SgVector?<Item<K, V>>
    var diff: SgVector?<Item<K, V>>
    const cb: Callbacks<Item<K, V>>
    const sub: (V, V) -> V
    ghost var history: seq<Call<Reading<K, V>>>

    /** What the slots are made of. */
    ghost function Repr(): set<object>
      reads this`now, this`diff, now, diff
    {
      Footprint(now) + Footprint(diff)
    }

    /** Two vectors, or NULL, that share nothing. */
    ghost predicate Slots()
      reads this`now, this`diff, now, diff, Repr()
    {
      && (now != null ==> now.Valid() && WellFormed(now.View()) && now.shift <= 31)
      && (diff != null ==> diff.Valid() && diff.shift <= 31)
      && Footprint(now) !! Footprint(diff)
    }

    ghost function View(): MultiState<K, V>
      requires Slots()
      reads this`now, this`diff, now, diff, Repr()
    {
      MultiState(ReadingAt(now), if diff == null then None else Some(SizesOf(diff.View())))
    }

    /** The slots are what the calls so far make of them. */
    ghost predicate Valid()
      reads this, now, diff, Repr()
    {
      Slots() && Countable(history) && NothingWrong(history) && View() == MultiAfter(history)
    }

    /** Changes elsewhere do not concern the slots. */
    twostate lemma SlotsKept()
      requires old(Slots()) && now == old(now) && diff == old(diff) && unchanged(old(Footprint(now)), old(Footprint(diff)))
      ensures Slots() && View() == old(View()) && Repr() == old(Repr())
      ensures ReadingAt(now) == old(ReadingAt(now)) && ReadingAt(diff) == old(ReadingAt(diff))
    {}

    constructor (sub: (V, V) -> V, cb: Callbacks<Item<K, V>>)
      ensures Valid() && Repr() == {} && history == [] && this.sub == sub && this.cb == cb
    {
      now, diff, history := null, null, [];
      this.sub, this.cb := sub, cb;
    }

    /** The slot is created or cleared, and filled. */
    method Refill(reading: Reading<K, V>)
      requires Slots() && Fits(reading)
      modifies this`now, Footprint(now), cb
      ensures Slots() && View() == old(View()).(now := reading) && fresh(Footprint(now) - old(Footprint(now)))
    {
      if now == null {
        now := ReadNew(reading, cb);
      } else {
        now.Clear(cb);
        now := Read(now, reading, cb);
      }
    }

    /** sg_vector_compute_diff into the diff slot, from the now slot and the clone of what was in it */
    method StoreDifference(last: SgVector<Item<K, V>>)
      requires Slots() && Fits(ReadingAt(now)) && diff != null && last.Valid() && Footprint(last) !! Footprint(diff)
      requires now != null ==> !CopyFaults(SizesOf(diff.View()), now.used)
      modifies this`diff, Footprint(diff), cb
      ensures Slots() && fresh(Footprint(diff) - old(Footprint(diff)))
      ensures View().diff == if now == null then None else Some(CopiedSizes(old(SizesOf(diff.View())), now.used))
      ensures ReadingAt(diff) == DeltaBy(sub)(ReadingAt(now), Filled(old(Payloads(last.View()))))
    {
      if now == null {
        diff := DifferenceInto(diff, null, last, sub, cb);
      } else {
        SmallBlock(diff.shift, now.used);
        diff := DifferenceInto(diff, now, last, sub, cb);
      }
    }

    /** The get call, and the difference to the items that were there before */
    method Replace(last: SgVector<Item<K, V>>, reading: Reading<K, V>)
      requires Slots() && now != null && diff != null && Fits(reading)
      requires last.Valid() && Footprint(last) !! Repr()
      requires !DiffFaults(View(), reading)
      modifies this`now, this`diff, Footprint(now), Footprint(diff), cb
      ensures Slots() && View() == AfterDiff(old(View()), reading) && (forall o | o in Repr() :: o in old(Repr()) || fresh(o))
      ensures ReadingAt(diff) == DeltaBy(sub)(reading, old(Filled(Payloads(last.View()))))
      ensures last.View() == old(last.View()) && Footprint(last) !! Repr()
    {
      Refill(reading);
      StoreDifference(last);
    }

    /** The same, and the clone is freed */
    method ReplaceAndFree(last: SgVector<Item<K, V>>, reading: Reading<K, V>)
      requires Slots() && now != null && diff != null && Fits(reading)
      requires last.Valid() && Footprint(last) !! Repr()
      requires !DiffFaults(View(), reading)
      modifies this`now, this`diff, Footprint(now), Footprint(diff), cb, Footprint(last)
      ensures Slots() && View() == AfterDiff(old(View()), reading) && (forall o | o in Repr() :: o in old(Repr()) || fresh(o))
      ensures ReadingAt(diff) == DeltaBy(sub)(reading, old(Filled(Payloads(last.View()))))
    {
      Replace(last, reading);
      label Replaced:
      Discard(last, cb);
      SlotsKept@Replaced();
    }

    /** fn_diff once both slots have a vector: the old items are cloned before the get call overwrites
        them. */
    method Subtract(reading: Reading<K, V>)
      requires Slots() && now != null && diff != null && Fits(reading)
      requires !DiffFaults(View(), reading)
      modifies this`now, this`diff, Footprint(now), Footprint(diff), cb
      ensures Slots() && View() == AfterDiff(old(View()), reading) && (forall o | o in Repr() :: o in old(Repr()) || fresh(o))
      ensures ReadingAt(diff) == DeltaBy(sub)(reading, old(ReadingAt(now)))
    {
      var last := Duplicate(now, cb);
      SlotsKept();
      ReplaceAndFree(last, reading);
    }

    /** fn */
    method Get(reading: Reading<K, V>) returns (r: SgVector?<Item<K, V>>)
      requires Valid() && Fits(reading)
      modifies this`now, this`history, Footprint(now), cb
      ensures Valid() && (forall o | o in Repr() :: o in old(Repr()) || fresh(o))
      ensures history == old(history) + [Call.Get(reading)]
      ensures r == now && ReadingAt(r) == Meaning(old(history), Call.Get(reading), DeltaBy(sub))
      ensures ReadingAt(r) == reading
    {
      Extend(history, Call.Get(reading));
      history := history + [Call.Get(reading)];
      SlotsKept();
      Refill(reading);
      r := now;
    }

    /** fn_diff. Where the history says that the call goes wrong, it does. */
    method Diff(reading: Reading<K, V>) returns (r: SgVector?<Item<K, V>>)
      requires Valid() && Fits(reading)
      requires !GoesWrong(history, reading)
      modifies this, Repr(), cb
      ensures Valid() && (forall o | o in Repr() :: o in old(Repr()) || fresh(o))
      ensures history == old(history) + [Call.Diff(reading)]
      ensures r in {now, diff} && ReadingAt(r) == Meaning(old(history), Call.Diff(reading), DeltaBy(sub))
      ensures ReadingAt(r) == if old(now) == null || reading.Emptied? then reading
                              else Filled(Difference(reading.items, old(View().now.items), sub))
    {
      DiffMeans(history, reading, sub);
      history := history + [Call.Diff(reading)];
      SlotsKept();
      r := Renew(reading);
    }

    /** What fn_diff does to the slots */
    method Renew(reading: Reading<K, V>) returns (r: SgVector?<Item<K, V>>)
      requires Slots() && Fits(ReadingAt(now)) && Fits(reading) && !DiffFaults(View(), reading)
      modifies this`now, this`diff, Footprint(now), Footprint(diff), cb
      ensures Slots() && View() == AfterDiff(old(View()), reading) && (forall o | o in Repr() :: o in old(Repr()) || fresh(o))
      ensures r in {now, diff} && ReadingAt(r) == DiffReply(old(View()), reading, sub)
    {
      if now == null {
        Refill(reading);
        r := now;
      } else {
        Prepare();
        Subtract(reading);
        r := diff;
      }
    }

    /** The diff slot gets its vector. */
    method Prepare()
      requires Slots() && now != null && Fits(ReadingAt(now))
      modifies this`diff, cb
      ensures Slots() && View() == old(View()).(diff := Some(DiffSlot(old(View())))) && diff != null
      ensures if old(diff) == null then fresh(Footprint(diff)) else diff == old(diff)
    {
      if diff == null {
        diff := NewVector(now.used, cb);
      }
    }

    /** A call that leaves the slots alone goes into the history. */
    ghost method Note(c: Call<Reading<K, V>>)
      requires Valid() && !Records(c) && Countable([c])
      modifies this`history
      ensures Valid() && View() == old(View()) && history == old(history) + [c]
    {
      assert Countable([c]) ==> if c.Between? then Fits([c][0].cur) && Fits([c][0].last) else Fits([c][0].reading);
      Extend(history, c);
      history := history + [c];
      SlotsKept();
    }

    /** fn_r: a vector of the caller's own; the slots stay as they are */
    method GetR(reading: Reading<K, V>) returns (r: SgVector?<Item<K, V>>)
      requires Valid() && Fits(reading)
      modifies this`history, cb
      ensures Valid() && View() == old(View()) && history == old(history) + [Call.GetR(reading)]
      ensures fresh(Footprint(r)) && (r != null ==> r.Valid())
      ensures ReadingAt(r) == Meaning(old(history), Call.GetR(reading), DeltaBy(sub))
      ensures ReadingAt(r) == reading
    {
      Note(Call.GetR(reading));
      label Noted:
      r := ReadNew(reading, cb);
      SlotsKept@Noted();
    }

    /** fn_diff_between: the arguments may be any vectors, those in the slots included */
    method Between(cur: SgVector?<Item<K, V>>, last: SgVector?<Item<K, V>>, ghost call: Call<Reading<K, V>>)
      returns (r: SgVector?<Item<K, V>>)
      requires Valid() && (cur != null ==> cur.Valid()) && (last != null ==> last.Valid())
      requires call == Call.Between(ReadingAt(cur), ReadingAt(last)) && Fits(call.cur) && Fits(call.last)
      modifies this`history, cb
      ensures Valid() && View() == old(View()) && history == old(history) + [call]
      ensures fresh(Footprint(r)) && (r != null ==> r.Valid())
      ensures ReadingAt(r) == Meaning(old(history), call, DeltaBy(sub))
      ensures r == null <==> cur == null
      ensures r != null ==> Payloads(r.View()) == old(Difference(ItemsAt(cur), ItemsAt(last), sub))
    {
      r := DiffBetween(cur, last, sub, cb);
      SlotsKept();
      Note(call);
    }
  }

  /** The difference in a vector of its own */
  method DiffBetween<K(==), V>(cur: SgVector?<Item<K, V>>, last: SgVector?<Item<K, V>>, sub: (V, V) -> V, cb: Callbacks<Item<K, V>>)
    returns (r: SgVector?<Item<K, V>>)
    requires (cur != null ==> cur.Valid()) && (last != null ==> last.Valid()) && Fits(ReadingAt(cur))
    modifies cb
    ensures fresh(Footprint(r)) && (r != null ==> r.Valid())
    ensures ReadingAt(r) == DeltaBy(sub)(old(ReadingAt(cur)), old(ReadingAt(last)))
  {
    var v := NewVector(1, cb);
    if cur != null {
      SmallBlock(v.shift, cur.used);
      CopyIntoFreshIsSafe(SizesOf(v.View()), cur.used);
    }
    r := DifferenceInto(v, cur, last, sub, cb);
  }

  lemma CopyIntoFreshIsSafe(z: Sizes, n: nat)
    requires SoundSizes(z) && z.used == 0 && z.cap > 0 && n + Pow2(z.shift) <= TWO64
    ensures !CopyFaults(z, n)
  {
    if n > 0 {
      RoomIsMissingExactlyIfStarved(z, n);
    }
  }

  // ---- whole runs ------------------------------------------------------------------------------

  /** Any one call of a component; the arguments of fn_diff_between are vectors of the caller's own. */
  method Perform<K(==), V>(c: MultiComponent<K, V>, call: Call<Reading<K, V>>) returns (reply: Reading<K, V>)
    requires c.Valid() && Countable([call])
    requires call.Diff? ==> !GoesWrong(c.history, call.reading)
    modifies c, c.Repr(), c.cb
    ensures c.Valid() && (forall o | o in c.Repr() :: o in old(c.Repr()) || fresh(o))
    ensures c.history == old(c.history) + [call]
    ensures reply == Meaning(old(c.history), call, DeltaBy(c.sub))
  {
    assert [call][0] == call;
    var r;
    match call {
      case Get(reading) => r := c.Get(reading);
      case Diff(reading) => r := c.Diff(reading);
      case GetR(reading) => r := c.GetR(reading);
      case Between(_, _) => r := CompareReadings(c, call);
    }
    reply := if r == null then Emptied else Filled(r.Items());
  }

  method CompareReadings<K(==), V>(c: MultiComponent<K, V>, call: Call<Reading<K, V>>) returns (r: SgVector?<Item<K, V>>)
    requires c.Valid() && call.Between? && Fits(call.cur) && Fits(call.last)
    modifies c`history, c.cb
    ensures c.Valid() && c.View() == old(c.View()) && c.history == old(c.history) + [call]
    ensures (r != null ==> r.Valid()) && ReadingAt(r) == Meaning(old(c.history), call, DeltaBy(c.sub))
  {
    var cur := ReadNew(call.cur, c.cb);
    c.SlotsKept();
    label Read:
    var last := ReadNew(call.last, c.cb);
    c.SlotsKept@Read();
    r := c.Between(cur, last, call);
  }

  /** A whole run on a new component in which, going by its own history, nothing goes wrong */
  method Replay<K(==), V>(c: MultiComponent<K, V>, calls: seq<Call<Reading<K, V>>>) returns (replies: seq<Reading<K, V>>)
    requires c.Valid() && c.history == []
    requires Countable(calls) && NothingWrong(calls)
    modifies c, c.Repr(), c.cb
    ensures |replies| == |calls| && AsMeant(calls, replies, DeltaBy(c.sub))
    ensures forall i | 0 <= i < |calls| && (calls[i].Get? || calls[i].GetR?) :: replies[i] == calls[i].reading
    ensures forall i | 0 <= i < |calls| && calls[i].Between? && calls[i].cur.Filled? ::
              replies[i] == Filled(Difference(calls[i].cur.items, ItemsOf(calls[i].last), c.sub))
  {
    replies := [];
    while |replies| < |calls|
      invariant c.Valid() && AsMeant(calls, replies, DeltaBy(c.sub)) && c.history == calls[..|replies|]
      invariant forall o | o in c.Repr() :: o in old(c.Repr()) || fresh(o)
    {
      var reply := Perform(c, calls[|replies|]);
      OneMoreReply(calls, replies, DeltaBy(c.sub), reply);
      replies := replies + [reply];
    }
    forall i | 0 <= i < |calls|
      ensures calls[i].Get? || calls[i].GetR? ==> replies[i] == calls[i].reading
      ensures calls[i].Between? ==> replies[i] == DeltaBy(c.sub)(calls[i].cur, calls[i].last)
    {
      RepliesSpelledOut(calls, replies, DeltaBy(c.sub), i);
    }
  }

  // ---- telescoping -----------------------------------------------------------------------------

  /** The traffic of one item in one reading. */
  ghost function TrafficOf<K, V>(key: K, counter: V -> U64): Reading<K, V> -> nat {
    (r: Reading<K, V>) => SumOf(key, ItemsOf(r), counter)
  }

  /** Whatever else a run does, it telescopes for every key present in all its readings, for any
      multiplicities. */
  lemma {:induction false} KeyedRunTelescopes<K(!new), V(!new)>(calls: seq<Call<Reading<K, V>>>, key: K, sub: (V, V) -> V, counter: V -> U64)
    requires Subtracts(sub, counter)
    requires forall i | 0 <= i < |calls| && Records(calls[i]) :: !Absent(key, ItemsOf(calls[i].reading))
    ensures Telescoped(calls, DeltaBy(sub), TrafficOf(key, counter))
  {
    KeyedIsAdditive(calls, key, sub, counter);
    Telescopes(calls, DeltaBy(sub), TrafficOf(key, counter));
  }

  lemma {:induction false} KeyedIsAdditive<K(!new), V(!new)>(calls: seq<Call<Reading<K, V>>>, key: K, sub: (V, V) -> V, counter: V -> U64)
    requires Subtracts(sub, counter)
    requires forall i | 0 <= i < |calls| && Records(calls[i]) :: !Absent(key, ItemsOf(calls[i].reading))
    ensures Additive(calls, DeltaBy(sub), TrafficOf(key, counter))
  {
    forall i, last | 0 <= i < |calls| && Records(calls[i])
      ensures AddsUp(DeltaBy(sub), TrafficOf(key, counter), calls[i].reading, last)
    {
      KeyedDeltaSubtracts(key, calls[i].reading, last, sub, counter);
    }
  }

  lemma {:induction false} KeyedDeltaSubtracts<K(!new), V(!new)>(key: K, cur: Reading<K, V>, last: Reading<K, V>, sub: (V, V) -> V, counter: V -> U64)
    requires Subtracts(sub, counter) && !Absent(key, ItemsOf(cur))
    ensures AddsUp(DeltaBy(sub), TrafficOf(key, counter), cur, last)
  {
    Conserved(key, cur.items, ItemsOf(last), sub, counter);
    assert TrafficOf(key, counter)(DeltaBy(sub)(cur, last)) == SumOf(key, Difference(cur.items, ItemsOf(last), sub), counter);
  }
}
