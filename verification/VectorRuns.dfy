/** Any sequence of vector operations on any number of vectors: capacity stays sufficient, and every
    item is set up once and taken down once. */
module VectorRuns {
  import opened Counters
  import opened KeyedDiff
  import opened Rearrange
  import opened Vector

  /** All vectors that exist, by the handle their owner holds, and the calls of init_fn and
      destroy_fn so far. */
  datatype World<V> = World(vecs: map<nat, Vec<V>>, ledger: Ledger)

  /** A call that fails on the way is one of these followed by Free: a clone that cannot be finished is
      Create and Free, a copy that cannot be is Resize and Free. */
  datatype Op<V> =
    | Create(h: nat, shift: nat, allocCount: nat, initialUsed: nat)
    | Resize(h: nat, n: nat, ok: bool)
    | Clear(h: nat)
    | Free(h: nat)
    | Clone(h: nat, src: nat)
    | CloneInto(h: nat, src: nat, ok: bool)
    | ComputeDiff(h: nat, cur: nat, last: nat, ok: bool)
    | Write(h: nat, i: nat, val: V)

  /** The copy of src into h may be made. */
  ghost predicate CopyPermitted<V>(w: World<V>, h: nat, src: nat, ok: bool) {
    && h in w.vecs && src in w.vecs && h != src
    && w.vecs[src].used + Pow2(w.vecs[h].shift) <= TWO64
    && CloneIntoIsSafe(SizesOf(w.vecs[h]), w.vecs[src].used, ok)
    && (w.vecs[h].used == w.vecs[src].used || HasRoom(SizesOf(w.vecs[h]), w.vecs[src].used))
  }

  /** What callers must see to. */
  ghost predicate Permitted<V>(w: World<V>, op: Op<V>) {
    match op
    case Create(h, shift, allocCount, initialUsed) =>
      h !in w.vecs && shift < 64 && Max(allocCount, initialUsed) + Pow2(shift) <= TWO64
    case Resize(h, n, _) => h in w.vecs && n + Pow2(w.vecs[h].shift) <= TWO64 && HasRoom(SizesOf(w.vecs[h]), n)
    case Clear(h) => h in w.vecs
    case Free(h) => h in w.vecs
    case Clone(h, src) => h !in w.vecs && src in w.vecs
    case CloneInto(h, src, ok) => CopyPermitted(w, h, src, ok)
    case ComputeDiff(h, cur, last, ok) => CopyPermitted(w, h, cur, ok) && last in w.vecs && last != h
    case Write(h, i, _) => h in w.vecs && i < w.vecs[h].used
  }

  /** Only handle h is touched. */
  ghost predicate OthersKept<V>(w: World<V>, w': World<V>, h: nat) {
    forall k | k != h :: (k in w'.vecs <==> k in w.vecs) && (k in w.vecs ==> w'.vecs[k] == w.vecs[k])
  }

  ghost predicate AllSound<V>(w: World<V>) {
    forall h | h in w.vecs :: Sound(w.vecs[h])
  }

  /** One operation, as the methods of SgVector leave it. */
  ghost predicate Step<K, V>(w: World<Item<K, V>>, op: Op<Item<K, V>>, w': World<Item<K, V>>, blank: Item<K, V>, sub: (V, V) -> V)
    requires AllSound(w) && Permitted(w, op)
  {
    && OthersKept(w, w', op.h)
    && match op
       case Create(h, shift, allocCount, initialUsed) =>
         h in w'.vecs && Created(w'.vecs[h], shift, allocCount, initialUsed, blank, w.ledger, w'.ledger)
       case Resize(h, n, ok) =>
         var v := w.vecs[h];
         if n == 0 || (RoundUp(n, v.shift) != v.alloc && !ok)
         then h !in w'.vecs && Freed(v, w.ledger, w'.ledger)
         else h in w'.vecs && Resized(v, w'.vecs[h], n, blank, w.ledger, w'.ledger)
       case Clear(h) =>
         h in w'.vecs && Cleared(w.vecs[h], w'.vecs[h]) && Freed(w.vecs[h], w.ledger, w'.ledger)
       case Free(h) => h !in w'.vecs && Freed(w.vecs[h], w.ledger, w'.ledger)
       case Clone(h, src) => h in w'.vecs && Cloned(w.vecs[src], w'.vecs[h], w.ledger, w'.ledger)
       case CloneInto(h, src, _) =>
         h in w'.vecs && FilledInto(w.vecs[h], Payloads(w.vecs[src]), w'.vecs[h], w.ledger, w'.ledger)
       case ComputeDiff(h, cur, last, _) =>
         var d := Difference(Payloads(w.vecs[cur]), Payloads(w.vecs[last]), sub);
         h in w'.vecs && FilledInto(w.vecs[h], d, w'.vecs[h], w.ledger, w'.ledger)
       case Write(h, i, val) =>
         var v := w.vecs[h];
         h in w'.vecs && w'.ledger == w.ledger && w'.vecs[h] == v.(slots := v.slots[i := Live(v.slots[i].id, val)])
  }

  ghost predicate Cleared<V>(v: Vec<V>, w: Vec<V>) {
    && SizesOf(w) == SizesOf(v).(used := 0)
    && forall i | 0 <= i < |w.slots| :: w.slots[i] == Raw
  }

  // ---- the invariant -------------------------------------------------------------------------

  ghost function LiveIds<V>(slots: seq<Slot<V>>): set<nat> {
    set i | 0 <= i < |slots| && slots[i].Live? :: slots[i].id
  }

  /** No item sits in two slots. */
  ghost predicate OneSlotEach<V>(slots: seq<Slot<V>>) {
    forall i, j | 0 <= i < j < |slots| && slots[i].Live? && slots[j].Live? :: slots[i].id != slots[j].id
  }

  /** The item set up by the id-th init_fn call sits in vector h. */
  ghost predicate LivesIn<V>(w: World<V>, id: nat, h: nat) {
    h in w.vecs && id in LiveIds(w.vecs[h].slots)
  }

  /** Every item ever set up is either destroyed, once, or sits in exactly one slot of exactly one
      vector. */
  ghost predicate Accounts<V>(w: World<V>) {
    && (forall h | h in w.vecs :: OneSlotEach(w.vecs[h].slots))
    && Distinct(w.ledger.dead)
    && (forall id | id in w.ledger.dead :: id < w.ledger.born)
    && (forall id: nat, h: nat | LivesIn(w, id, h) :: id < w.ledger.born && id !in w.ledger.dead)
    && (forall id: nat, h: nat, k: nat | LivesIn(w, id, h) && LivesIn(w, id, k) :: h == k)
    && (forall id: nat | id < w.ledger.born && id !in w.ledger.dead :: exists h :: LivesIn(w, id, h))
  }

  ghost predicate Inv<V>(w: World<V>) {
    AllSound(w) && Accounts(w)
  }

  /** The change in one vector's items and in the ledger, as sets: some of the items are destroyed,
      each once, and freshly numbered ones are set up. */
  ghost predicate Effect(live: set<nat>, live': set<nat>, l: Ledger, l': Ledger, gone: seq<nat>) {
    && l.born <= l'.born
    && l'.dead == l.dead + gone && Distinct(gone)
    && (forall id | id in gone :: id in live)
    && (forall id :: id in live' <==> (id in live && id !in gone) || l.born <= id < l'.born)
  }

  /** The slots under handle h; none if there is no such vector. */
  ghost function SlotsAt<V>(w: World<V>, h: nat): seq<Slot<V>> {
    if h in w.vecs then w.vecs[h].slots else []
  }

  ghost function LiveAt<V>(w: World<V>, h: nat): set<nat> {
    LiveIds(SlotsAt(w, h))
  }

  lemma AppendKeepsDistinct(a: seq<nat>, b: seq<nat>)
    requires Distinct(a) && Distinct(b)
    requires forall x | x in b :: x !in a
    ensures Distinct(a + b)
  {
    forall i, j | 0 <= i < j < |a + b| ensures (a + b)[i] != (a + b)[j] {
      if i < |a| <= j {
        assert b[j - |a|] in b;
      }
    }
  }

  /** Where one item is before and after. */
  lemma LivesAfter<V>(w: World<V>, w': World<V>, h: nat, gone: seq<nat>, id: nat, k: nat)
    requires OthersKept(w, w', h) && Effect(LiveAt(w, h), LiveAt(w', h), w.ledger, w'.ledger, gone)
    ensures k != h ==> (LivesIn(w', id, k) <==> LivesIn(w, id, k))
    ensures LivesIn(w', id, h) <==> (LivesIn(w, id, h) && id !in gone) || w.ledger.born <= id < w'.ledger.born
    ensures id in w'.ledger.dead <==> id in w.ledger.dead || id in gone
    ensures id in gone ==> LivesIn(w, id, h)
  {
    assert LivesIn(w, id, h) <==> id in LiveAt(w, h);
    assert LivesIn(w', id, h) <==> id in LiveAt(w', h);
  }

  /** An operation with such an effect on one vector keeps the whole account. */
  lemma EffectKeepsAccounts<V>(w: World<V>, w': World<V>, h: nat, gone: seq<nat>)
    requires Accounts(w) && OthersKept(w, w', h)
    requires OneSlotEach(SlotsAt(w', h))
    requires Effect(LiveAt(w, h), LiveAt(w', h), w.ledger, w'.ledger, gone)
    ensures Accounts(w')
  {
    forall k | k in w'.vecs ensures OneSlotEach(w'.vecs[k].slots) {
      assert k != h ==> w'.vecs[k] == w.vecs[k];
    }
    forall id | id in gone ensures id !in w.ledger.dead {
      LivesAfter(w, w', h, gone, id, h);
    }
    AppendKeepsDistinct(w.ledger.dead, gone);
    forall id | id in w'.ledger.dead ensures id < w'.ledger.born {
      LivesAfter(w, w', h, gone, id, h);
    }
    forall id: nat, k: nat | LivesIn(w', id, k) ensures id < w'.ledger.born && id !in w'.ledger.dead {
      LivesAfter(w, w', h, gone, id, k);
    }
    forall id: nat, j: nat, k: nat | LivesIn(w', id, j) && LivesIn(w', id, k) ensures j == k {
      LivesAfter(w, w', h, gone, id, j);
      LivesAfter(w, w', h, gone, id, k);
    }
    forall id: nat | id < w'.ledger.born && id !in w'.ledger.dead ensures exists k :: LivesIn(w', id, k) {
      LivesAfter(w, w', h, gone, id, h);
      if id < w.ledger.born {
        var k :| LivesIn(w, id, k);
        LivesAfter(w, w', h, gone, id, k);
        assert LivesIn(w', id, k);
      }
    }
  }

  // ---- the effect of each operation ------------------------------------------------------------

  /** Doomed lists exactly the items of the slots it names, each once. */
  lemma {:induction false} DoomedIsThoseSlots<V>(slots: seq<Slot<V>>, n: nat, used: nat)
    requires used <= |slots|
    requires forall i | n <= i < used :: slots[i].Live?
    requires forall i, j | n <= i < j < used :: slots[i].id != slots[j].id
    ensures Distinct(Doomed(slots, n, used))
    ensures forall id :: id in Doomed(slots, n, used) <==> exists i :: n <= i < used && slots[i].id == id
  {
    if n < used {
      DoomedIsThoseSlots(slots, n, used - 1);
      var rest := Doomed(slots, n, used - 1);
      assert Doomed(slots, n, used) == [slots[used - 1].id] + rest;
      assert slots[used - 1].id !in rest;
      AppendKeepsDistinct([slots[used - 1].id], rest);
    }
  }

  /** From `used` items to `n`: slots kept below both, destroyed from n up, set up from used up. */
  lemma ReshapeEffect<V>(a: seq<Slot<V>>, used: nat, b: seq<Slot<V>>, n: nat, l: Ledger, l': Ledger)
    requires LiveBelow(a, used) && LiveBelow(b, n) && OneSlotEach(a)
    requires forall id | id in LiveIds(a) :: id < l.born
    requires forall i | 0 <= i < n :: b[i].id == if i < used then a[i].id else l.born + (i - used)
    requires l' == Ledger(l.born + if n > used then n - used else 0, l.dead + Doomed(a, n, used))
    ensures OneSlotEach(b)
    ensures Effect(LiveIds(a), LiveIds(b), l, l', Doomed(a, n, used))
  {
    DoomedIsThoseSlots(a, n, used);
    assert forall i | 0 <= i < used :: a[i].id in LiveIds(a);
    var gone := Doomed(a, n, used);
    forall id | id in LiveIds(b) ensures (id in LiveIds(a) && id !in gone) || l.born <= id < l'.born {
      var i :| 0 <= i < |b| && b[i].Live? && b[i].id == id;
    }
    forall id | l.born <= id < l'.born ensures id in LiveIds(b) {
      assert b[used + (id - l.born)].id == id;
    }
    forall id | id in LiveIds(a) && id !in gone ensures id in LiveIds(b) {
      var i :| 0 <= i < |a| && a[i].Live? && a[i].id == id;
      assert b[i].id == id;
    }
  }

  /** The same, for a whole world in which only handle h changed. */
  lemma ReshapeKeepsAccounts<V>(w: World<V>, w': World<V>, h: nat, used: nat, n: nat)
    requires Accounts(w) && OthersKept(w, w', h) && Reshaped(w, w', h, used, n)
    ensures Accounts(w')
  {
    forall id | id in LiveIds(SlotsAt(w, h)) ensures id < w.ledger.born {
      assert LivesIn(w, id, h);
    }
    assert OneSlotEach(SlotsAt(w, h));
    ReshapeEffect(SlotsAt(w, h), used, SlotsAt(w', h), n, w.ledger, w'.ledger);
    EffectKeepsAccounts(w, w', h, Doomed(SlotsAt(w, h), n, used));
  }

  /** Exactly the requests for at least one item give a well-formed vector: a request for none
      records a whole block over a buffer that was rounded to nothing. */
  lemma CreateIsSafe<V>(v: Vec<V>, shift: nat, allocCount: nat, initialUsed: nat, blank: V, l: Ledger, l': Ledger)
    requires shift < 64 && Max(allocCount, initialUsed) + Pow2(shift) <= TWO64
    requires Created(v, shift, allocCount, initialUsed, blank, l, l')
    ensures Sound(v) && (WellFormed(v) <==> 1 <= Max(allocCount, initialUsed))
  {
    NewIsSound(shift, Max(allocCount, initialUsed), initialUsed);
  }

  /** What follows from such a vector: growing it to one item finds the rounded count equal to the
      recorded one, keeps the buffer, and the item has no slot. */
  lemma EmptyCreateCannotHoldOne<V>(v: Vec<V>, blank: V, l: Ledger, l': Ledger)
    requires Created(v, 0, 0, 0, blank, l, l')
    ensures Sound(v) && !HasRoom(SizesOf(v), 1)
  {
    CreateIsSafe(v, 0, 0, 0, blank, l, l');
  }

  lemma CloneIsSound<V>(src: Vec<V>, w: Vec<V>, l: Ledger, l': Ledger)
    requires Sound(src) && Cloned(src, w, l, l')
    ensures WellFormed(w)
  {
    NewIsSound(src.shift, Max(src.alloc, src.used), src.used);
  }

  lemma ResizeIsSound<V>(v: Vec<V>, w: Vec<V>, n: nat, blank: V, l: Ledger, l': Ledger)
    requires Sound(v) && 1 <= n && n + Pow2(v.shift) <= TWO64 && HasRoom(SizesOf(v), n)
    requires Resized(v, w, n, blank, l, l')
    ensures WellFormed(w)
  {
    ResizedIsSound(SizesOf(v), n, n);
  }

  lemma FillIsSound<V>(v: Vec<V>, vals: seq<V>, w: Vec<V>, l: Ledger, l': Ledger)
    requires Sound(v) && |vals| + Pow2(v.shift) <= TWO64 && CloneIntoIsSafe(SizesOf(v), |vals|, true)
    requires v.used == |vals| || HasRoom(SizesOf(v), |vals|)
    requires FilledInto(v, vals, w, l, l')
    ensures Sound(w) && (WellFormed(v) ==> WellFormed(w))
  {
    if v.used != |vals| {
      ResizedIsSound(SizesOf(v), |vals|, |vals|);
    }
  }

  lemma ClearIsSound<V>(v: Vec<V>, w: Vec<V>)
    requires Sound(v) && Cleared(v, w)
    ensures Sound(w) && (WellFormed(v) ==> WellFormed(w))
  {}

  lemma WriteIsSound<V>(v: Vec<V>, i: nat, val: V)
    requires Sound(v) && i < v.used
    ensures Sound(v.(slots := v.slots[i := Live(v.slots[i].id, val)]))
    ensures WellFormed(v) ==> WellFormed(v.(slots := v.slots[i := Live(v.slots[i].id, val)]))
  {}

  /** No vector is ever asked for without items. */
  ghost predicate AsksForItems<V>(op: Op<V>) {
    op.Create? ==> 1 <= Max(op.allocCount, op.initialUsed)
  }

  /** What happens to the vector of one operation. */
  lemma StepKeepsOne<K, V>(w: World<Item<K, V>>, op: Op<Item<K, V>>, w': World<Item<K, V>>, blank: Item<K, V>, sub: (V, V) -> V)
    requires AllSound(w) && Permitted(w, op) && Step(w, op, w', blank, sub) && op.h in w'.vecs
    ensures Sound(w'.vecs[op.h])
    ensures AsksForItems(op) && (op.h in w.vecs ==> WellFormed(w.vecs[op.h])) ==> WellFormed(w'.vecs[op.h])
  {
    var h := op.h;
    match op
    case Create(_, shift, allocCount, initialUsed) =>
      CreateIsSafe(w'.vecs[h], shift, allocCount, initialUsed, blank, w.ledger, w'.ledger);
    case Resize(_, n, ok) => ResizeIsSound(w.vecs[h], w'.vecs[h], n, blank, w.ledger, w'.ledger);
    case Clear(_) => ClearIsSound(w.vecs[h], w'.vecs[h]);
    case Free(_) =>
    case Clone(_, src) => CloneIsSound(w.vecs[src], w'.vecs[h], w.ledger, w'.ledger);
    case CloneInto(_, src, _) => FillIsSound(w.vecs[h], Payloads(w.vecs[src]), w'.vecs[h], w.ledger, w'.ledger);
    case ComputeDiff(_, cur, last, _) =>
      FillIsSound(w.vecs[h], Difference(Payloads(w.vecs[cur]), Payloads(w.vecs[last]), sub), w'.vecs[h], w.ledger, w'.ledger);
    case Write(_, i, val) => WriteIsSound(w.vecs[h], i, val);
  }

  /** Every operation keeps every vector sound. */
  lemma StepKeepsSound<K, V>(w: World<Item<K, V>>, op: Op<Item<K, V>>, w': World<Item<K, V>>, blank: Item<K, V>, sub: (V, V) -> V)
    requires AllSound(w) && Permitted(w, op) && Step(w, op, w', blank, sub)
    ensures AllSound(w')
  {
    if op.h in w'.vecs {
      StepKeepsOne(w, op, w', blank, sub);
    }
    forall k | k in w'.vecs ensures Sound(w'.vecs[k]) {
      assert k != op.h ==> w'.vecs[k] == w.vecs[k];
    }
  }

  ghost function UsedAt<V>(w: World<V>, h: nat): nat {
    if h in w.vecs then w.vecs[h].used else 0
  }

  /** From `used` to `n` items at handle h, and the ledger moved accordingly. */
  ghost predicate Reshaped<V>(w: World<V>, w': World<V>, h: nat, used: nat, n: nat) {
    && LiveBelow(SlotsAt(w, h), used) && LiveBelow(SlotsAt(w', h), n)
    && (forall i | 0 <= i < n ::
          SlotsAt(w', h)[i].id == if i < used then SlotsAt(w, h)[i].id else w.ledger.born + (i - used))
    && w'.ledger == Ledger(w.ledger.born + if n > used then n - used else 0,
                           w.ledger.dead + Doomed(SlotsAt(w, h), n, used))
  }

  /** Every operation is a reshaping of the one vector it concerns. */
  lemma StepReshapes<K, V>(w: World<Item<K, V>>, op: Op<Item<K, V>>, w': World<Item<K, V>>, blank: Item<K, V>, sub: (V, V) -> V)
    requires AllSound(w) && Permitted(w, op) && Step(w, op, w', blank, sub) && AllSound(w')
    ensures Reshaped(w, w', op.h, UsedAt(w, op.h), UsedAt(w', op.h))
  {
    var h := op.h;
    match op
    case Create(_, shift, allocCount, initialUsed) =>
      CreateReshapes(w, w', h, shift, allocCount, initialUsed, blank);
    case Resize(_, n, _) =>
      if h in w'.vecs {
        ResizeReshapes(w, w', h, n, blank);
      } else {
        FreeReshapes(w, w', h);
      }
    case Clear(_) => ClearReshapes(w, w', h);
    case Free(_) => FreeReshapes(w, w', h);
    case Clone(_, src) => CloneReshapes(w, w', h, src);
    case CloneInto(_, src, _) => FillReshapes(w, w', h, Payloads(w.vecs[src]));
    case ComputeDiff(_, cur, last, _) => FillReshapes(w, w', h, Difference(Payloads(w.vecs[cur]), Payloads(w.vecs[last]), sub));
    case Write(_, i, val) => WriteReshapes(w, w', h, i, val);
  }

  lemma CreateReshapes<V>(w: World<V>, w': World<V>, h: nat, shift: nat, allocCount: nat, initialUsed: nat, blank: V)
    requires h !in w.vecs && h in w'.vecs && Sound(w'.vecs[h])
    requires Created(w'.vecs[h], shift, allocCount, initialUsed, blank, w.ledger, w'.ledger)
    ensures Reshaped(w, w', h, UsedAt(w, h), UsedAt(w', h))
  {}

  lemma ClearReshapes<V>(w: World<V>, w': World<V>, h: nat)
    requires h in w.vecs && h in w'.vecs && Sound(w.vecs[h])
    requires Cleared(w.vecs[h], w'.vecs[h]) && Freed(w.vecs[h], w.ledger, w'.ledger)
    ensures Reshaped(w, w', h, UsedAt(w, h), UsedAt(w', h))
  {}

  lemma FreeReshapes<V>(w: World<V>, w': World<V>, h: nat)
    requires h in w.vecs && h !in w'.vecs && Sound(w.vecs[h])
    requires Freed(w.vecs[h], w.ledger, w'.ledger)
    ensures Reshaped(w, w', h, UsedAt(w, h), UsedAt(w', h))
  {}

  lemma CloneReshapes<V>(w: World<V>, w': World<V>, h: nat, src: nat)
    requires h !in w.vecs && src in w.vecs && h in w'.vecs && Sound(w.vecs[src]) && Sound(w'.vecs[h])
    requires Cloned(w.vecs[src], w'.vecs[h], w.ledger, w'.ledger)
    ensures Reshaped(w, w', h, UsedAt(w, h), UsedAt(w', h))
  {}

  lemma WriteReshapes<V>(w: World<V>, w': World<V>, h: nat, i: nat, val: V)
    requires h in w.vecs && h in w'.vecs && Sound(w.vecs[h]) && i < w.vecs[h].used
    requires w'.ledger == w.ledger
    requires w'.vecs[h] == w.vecs[h].(slots := w.vecs[h].slots[i := Live(w.vecs[h].slots[i].id, val)])
    ensures Reshaped(w, w', h, UsedAt(w, h), UsedAt(w', h))
  {}

  lemma ResizeReshapes<V>(w: World<V>, w': World<V>, h: nat, n: nat, blank: V)
    requires h in w.vecs && h in w'.vecs && Sound(w.vecs[h]) && Sound(w'.vecs[h])
    requires Resized(w.vecs[h], w'.vecs[h], n, blank, w.ledger, w'.ledger)
    ensures Reshaped(w, w', h, UsedAt(w, h), UsedAt(w', h))
  {}

  lemma FillReshapes<V>(w: World<V>, w': World<V>, h: nat, vals: seq<V>)
    requires h in w.vecs && h in w'.vecs && Sound(w.vecs[h]) && Sound(w'.vecs[h])
    requires FilledInto(w.vecs[h], vals, w'.vecs[h], w.ledger, w'.ledger)
    ensures Reshaped(w, w', h, UsedAt(w, h), UsedAt(w', h))
  {}

  /** Every operation keeps the account of items. */
  lemma StepKeepsAccounts<K, V>(w: World<Item<K, V>>, op: Op<Item<K, V>>, w': World<Item<K, V>>, blank: Item<K, V>, sub: (V, V) -> V)
    requires Inv(w) && Permitted(w, op) && Step(w, op, w', blank, sub) && AllSound(w')
    ensures Accounts(w')
  {
    StepReshapes(w, op, w', blank, sub);
    ReshapeKeepsAccounts(w, w', op.h, UsedAt(w, op.h), UsedAt(w', op.h));
  }

  // ---- runs ----------------------------------------------------------------------------------

  /** A run: worlds linked by permitted operations, from nothing. */
  ghost predicate Run<K, V>(worlds: seq<World<Item<K, V>>>, ops: seq<Op<Item<K, V>>>, blank: Item<K, V>, sub: (V, V) -> V) {
    && |worlds| == |ops| + 1
    && worlds[0] == World(map[], Ledger(0, []))
    && forall i | 0 <= i < |ops| ::
         AllSound(worlds[i]) ==> Permitted(worlds[i], ops[i]) && Step(worlds[i], ops[i], worlds[i + 1], blank, sub)
  }

  /** Soundness of the sizes and the life of items, in every world of every run. */
  lemma {:induction false} RunKeepsInv<K, V>(worlds: seq<World<Item<K, V>>>, ops: seq<Op<Item<K, V>>>, blank: Item<K, V>, sub: (V, V) -> V, i: nat)
    requires Run(worlds, ops, blank, sub) && i < |worlds|
    ensures Inv(worlds[i])
  {
    if i > 0 {
      RunKeepsInv(worlds, ops, blank, sub, i - 1);
      StepKeepsSound(worlds[i - 1], ops[i - 1], worlds[i], blank, sub);
      StepKeepsAccounts(worlds[i - 1], ops[i - 1], worlds[i], blank, sub);
    }
  }

  /** In a run that never asks for a vector without items, the real capacity of every vector always
      covers both its counts, and no resize ever leaves fewer slots than items. */
  lemma {:induction false} CapacityCoversCounts<K, V>(worlds: seq<World<Item<K, V>>>, ops: seq<Op<Item<K, V>>>, blank: Item<K, V>,
                                                      sub: (V, V) -> V, i: nat, h: nat)
    requires Run(worlds, ops, blank, sub) && i < |worlds| && h in worlds[i].vecs
    requires forall k | 0 <= k < |ops| :: AsksForItems(ops[k])
    ensures WellFormed(worlds[i].vecs[h])
    ensures forall n: nat | n + Pow2(worlds[i].vecs[h].shift) <= TWO64 :: HasRoom(SizesOf(worlds[i].vecs[h]), n)
  {
    RunKeepsInv(worlds, ops, blank, sub, i);
    RunKeepsInv(worlds, ops, blank, sub, i - 1);
    var w, op := worlds[i - 1], ops[i - 1];
    if h in w.vecs {
      CapacityCoversCounts(worlds, ops, blank, sub, i - 1, h);
    }
    if h == op.h {
      StepKeepsOne(w, op, worlds[i], blank, sub);
    }
    forall n: nat | n + Pow2(worlds[i].vecs[h].shift) <= TWO64 ensures HasRoom(SizesOf(worlds[i].vecs[h]), n) {
      if n > 0 {
        RoomIsMissingExactlyIfStarved(SizesOf(worlds[i].vecs[h]), n);
      }
    }
  }

  lemma {:induction false} CoveringCount(s: seq<nat>, n: nat)
    requires Distinct(s)
    requires forall x :: x in s <==> 0 <= x < n
    ensures |s| == n
  {
    if |s| == 0 {
      assert 0 !in s;
    } else {
      assert s[0] in s;
      assert n - 1 in s;
      var k :| 0 <= k < |s| && s[k] == n - 1;
      var rest := s[..k] + s[k + 1..];
      forall x ensures x in rest <==> 0 <= x < n - 1 {
        if x in rest {
          assert x in s;
        }
        if 0 <= x < n - 1 {
          assert x in s;
          var j :| 0 <= j < |s| && s[j] == x;
          assert rest[if j < k then j else j - 1] == x;
        }
      }
      CoveringCount(rest, n - 1);
    }
  }

  /** Once every vector has been freed, destroy_fn has run exactly as often as init_fn, once on
      every item. */
  lemma AllFreedIsBalanced<K, V>(worlds: seq<World<Item<K, V>>>, ops: seq<Op<Item<K, V>>>, blank: Item<K, V>, sub: (V, V) -> V)
    requires Run(worlds, ops, blank, sub)
    requires worlds[|ops|].vecs == map[]
    ensures var l := worlds[|ops|].ledger;
            |l.dead| == l.born && Distinct(l.dead) && forall id :: id in l.dead <==> 0 <= id < l.born
  {
    RunKeepsInv(worlds, ops, blank, sub, |ops|);
    var w := worlds[|ops|];
    forall id: nat ensures id in w.ledger.dead <==> id < w.ledger.born {
      assert forall h :: !LivesIn(w, id, h);
    }
    CoveringCount(w.ledger.dead, w.ledger.born);
  }
}
