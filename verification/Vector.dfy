/** The growable item store of src/libstatgrab/vector.c: block-rounded capacity, and the life of
    every item from init_fn to destroy_fn. Everything is in size_t arithmetic modulo 2^64. */
module Vector {
  import opened Counters

  function Pow2(k: nat): (p: nat)
    ensures p >= 1
  {
    if k == 0 then 1 else 2 * Pow2(k - 1)
  }

  /** A size_t. */
  function Wrap(x: int): nat {
    x % TWO64
  }

  function Blocks(x: nat, block: nat): nat
    requires block >= 1
  {
    Wrap(x - 1) / block + 1
  }

  /** NEXT_POWER2_IN: `x - 1` and the final shift wrap. */
  function RoundUp(x: nat, shift: nat): nat {
    Wrap(Blocks(x, Pow2(shift)) * Pow2(shift))
  }

  function Max(a: nat, b: nat): nat {
    if a > b then a else b
  }

  function Min(a: nat, b: nat): nat {
    if a < b then a else b
  }

  // ---- the rounding macro --------------------------------------------------------------------

  lemma {:induction false} Pow2Splits(k: nat, n: nat)
    requires k <= n
    ensures Pow2(n) == Pow2(n - k) * Pow2(k)
  {
    if k > 0 {
      Pow2Splits(k - 1, n);
      assert Pow2(n - k + 1) == 2 * Pow2(n - k);
      Regroup(Pow2(n - k), Pow2(k - 1));
    }
  }

  lemma Regroup(a: nat, b: nat)
    ensures 2 * a * b == a * (2 * b)
  {}

  lemma Pow2Of64()
    ensures Pow2(64) == TWO64
  {
    assert Pow2(8) == 0x100;
    Pow2Splits(8, 16);
    Pow2Splits(16, 32);
    Pow2Splits(32, 64);
  }

  lemma BlockDividesTwo64(shift: nat) returns (c: nat)
    requires shift < 64
    ensures TWO64 == c * Pow2(shift)
  {
    Pow2Of64();
    Pow2Splits(shift, 64);
    c := Pow2(64 - shift);
  }

  lemma LeastMultiple(x: nat, b: nat, c: nat, q: nat)
    requires b >= 1 && 1 <= x && x + b <= c * b
    requires q == (x - 1) / b
    ensures x <= (q + 1) * b < x + b
    ensures (q + 1) * b + b <= c * b
    ensures (q + 1) * b % b == 0
  {
    assert x - 1 == q * b + (x - 1) % b;
    assert (q + 1) * b == q * b + b;
    NonZeroMultiple(c - 1 - (q + 1), b);
    assert (c - 1 - (q + 1)) * b == c * b - b - (q + 1) * b;
    RemainderIsUnique(q + 1, b, 0);
  }

  lemma WrapSmall(x: nat)
    requires x < TWO64
    ensures Wrap(x) == x
  {}

  /** For 1 <= x <= 2^64 - 2^shift the macro gives the least multiple of the block that holds x. */
  lemma RoundUpIsLeastMultiple(x: nat, shift: nat)
    requires shift < 64 && 1 <= x && x + Pow2(shift) <= TWO64
    ensures RoundUp(x, shift) % Pow2(shift) == 0
    ensures x <= RoundUp(x, shift) < x + Pow2(shift)
    ensures RoundUp(x, shift) + Pow2(shift) <= TWO64
  {
    var c := BlockDividesTwo64(shift);
    RoundUpWithin(x, Pow2(shift), c);
  }

  lemma RoundUpWithin(x: nat, b: nat, c: nat)
    requires b >= 1 && 1 <= x && x + b <= TWO64 == c * b
    ensures var r := Wrap(Blocks(x, b) * b);
            r % b == 0 && x <= r < x + b && r + b <= TWO64
  {
    var q := (x - 1) / b;
    LeastMultiple(x, b, c, q);
    WrapSmall(x - 1);
    var r := (q + 1) * b;
    WrapSmall(r);
  }

  /** For x = 0 the macro wraps to 0. */
  lemma RoundUpOfZero(shift: nat)
    requires shift < 64
    ensures RoundUp(0, shift) == 0
  {
    var b := Pow2(shift);
    var c := BlockDividesTwo64(shift);
    QuotientIsUnique(c - 1, b, b - 1);
    assert (c - 1) * b + (b - 1) == TWO64 - 1;
    assert Blocks(0, b) == c;
  }

  /** A rounded request is at least one block. */
  lemma BlockFits(x: nat, shift: nat)
    requires shift < 64 && 1 <= x && x + Pow2(shift) <= TWO64
    ensures Pow2(shift) <= RoundUp(x, shift)
    ensures Pow2(shift) % Pow2(shift) == 0
  {
    RoundUpIsLeastMultiple(x, shift);
    PositiveMultiple(RoundUp(x, shift), Pow2(shift));
    RemainderIsUnique(1, Pow2(shift), 0);
  }

  lemma PositiveMultiple(r: nat, b: nat)
    requires 1 <= b && 1 <= r && r % b == 0
    ensures b <= r
  {}

  lemma QuotientIsUnique(q: nat, w: nat, d: nat)
    requires d < w
    ensures (q * w + d) / w == q
  {
    var x := q * w + d;
    RemainderIsUnique(q, w, d);
    assert x == (x / w) * w + x % w;
    NonZeroMultiple(q - x / w, w);
    assert (q - x / w) * w == q * w - (x / w) * w;
  }

  // ---- one vector ----------------------------------------------------------------------------

  /** An item slot of the buffer: never initialised or already destroyed, or holding the item
      that the id-th call of init_fn set up. */
  datatype Slot<V> = Raw | Live(id: nat, val: V)

  /** struct sg_vector with its buffer; `|slots|` is what was really allocated. */
  datatype Vec<V> = Vec(used: nat, alloc: nat, shift: nat, slots: seq<Slot<V>>)

  /** How often init_fn ran, and which items destroy_fn was called on, in order. */
  datatype Ledger = Ledger(born: nat, dead: seq<nat>)

  /** a is a whole number of b's. */
  ghost predicate IsMultiple(a: nat, b: nat) {
    a == 0 || (1 <= b <= a && IsMultiple(a - b, b))
  }

  lemma {:induction false} MultipleIsModZero(a: nat, b: nat)
    requires b >= 1
    ensures IsMultiple(a, b) <==> a % b == 0
  {
    if a >= b {
      MultipleIsModZero(a - b, b);
      StepModulo(b, b, a);
      RemainderIsUnique(1, b, 0);
    } else {
      RemainderIsUnique(0, b, a);
    }
  }

  // ---- sizes ---------------------------------------------------------------------------------

  /** The numbers of a vector: used_count, alloc_count and block_shift as recorded, and how many
      slots its block really has. */
  datatype Sizes = Sizes(used: nat, alloc: nat, shift: nat, cap: nat)

  /** sg_vector_create_int with `count` the greater of its two counts */
  function NewSizes(shift: nat, count: nat, used: nat): Sizes {
    Sizes(used, Pow2(shift), shift, RoundUp(count, shift))
  }

  /** sg_vector_resize to n > 0, where the buffer is granted */
  function ResizedSizes(z: Sizes, n: nat): Sizes {
    var count := RoundUp(n, z.shift);
    Sizes(n, count, z.shift, if count == z.alloc then z.cap else count)
  }

  /** sg_vector_clone_into of n items: resized only if the counts differ */
  function CopiedSizes(z: Sizes, n: nat): Sizes {
    if z.used == n then z else ResizedSizes(z, n)
  }

  /** The resized vector has a slot for each of its n items. */
  predicate HasRoom(z: Sizes, n: nat) {
    n <= ResizedSizes(z, n).cap
  }

  /** The recorded capacity is a positive number of blocks, and it is really there, unless the
      vector is starved: created for no items, it records a block and has no slot at all. */
  ghost predicate SoundSizes(z: Sizes) {
    && z.shift < 64
    && 0 < z.alloc && z.alloc + Pow2(z.shift) <= TWO64
    && IsMultiple(z.alloc, Pow2(z.shift))
    && z.used <= z.cap && z.cap + Pow2(z.shift) <= TWO64
    && (z.alloc <= z.cap || z.cap == 0)
  }

  function SizesOf<V>(v: Vec<V>): Sizes {
    Sizes(v.used, v.alloc, v.shift, |v.slots|)
  }

  /** Exactly the first n slots hold items. */
  ghost predicate LiveBelow<V>(slots: seq<Slot<V>>, n: nat) {
    n <= |slots| && forall i | 0 <= i < |slots| :: slots[i].Live? <==> i < n
  }

  /** What every vector is: its numbers agree, and exactly the used slots hold items. */
  ghost predicate Sound<V>(v: Vec<V>) {
    SoundSizes(SizesOf(v)) && LiveBelow(v.slots, v.used)
  }

  /** A sound vector that has slots: the real capacity covers the used items and the recorded
      capacity. */
  ghost predicate WellFormed<V>(v: Vec<V>) {
    Sound(v) && v.alloc <= |v.slots|
  }

  /** What the items hold. */
  ghost function Payloads<V>(v: Vec<V>): (vals: seq<V>)
    requires LiveBelow(v.slots, v.used)
    ensures |vals| == v.used
  {
    seq(v.used, i requires 0 <= i < v.used => v.slots[i].val)
  }

  lemma RoundUpFits(n: nat, shift: nat)
    requires shift < 64 && 1 <= n && n + Pow2(shift) <= TWO64
    ensures n <= RoundUp(n, shift)
    ensures RoundUp(n, shift) + Pow2(shift) <= TWO64 && IsMultiple(RoundUp(n, shift), Pow2(shift))
  {
    RoundUpIsLeastMultiple(n, shift);
    MultipleIsModZero(RoundUp(n, shift), Pow2(shift));
  }

  lemma OneBlockIsSound(shift: nat)
    requires shift < 64
    ensures Pow2(shift) + Pow2(shift) <= TWO64 && IsMultiple(Pow2(shift), Pow2(shift))
  {
    Pow2Of64();
    Pow2Splits(shift + 1, 64);
    NonZeroMultiple(Pow2(63 - shift), Pow2(shift + 1));
    assert IsMultiple(0, Pow2(shift));
  }

  /** A vector is created sound, and with slots exactly if it is for at least one item. */
  lemma NewIsSound(shift: nat, count: nat, used: nat)
    requires shift < 64 && used <= count && count + Pow2(shift) <= TWO64
    ensures SoundSizes(NewSizes(shift, count, used))
    ensures NewSizes(shift, count, used).cap > 0 <==> count > 0
  {
    OneBlockIsSound(shift);
    if count == 0 {
      RoundUpOfZero(shift);
    } else {
      RoundUpFits(count, shift);
      BlockFits(count, shift);
    }
  }

  /** A resize that leaves room leaves a sound vector that has slots, at any moment while it is being
      filled. */
  lemma ResizedIsSound(z: Sizes, n: nat, used: nat)
    requires SoundSizes(z) && 1 <= n && n + Pow2(z.shift) <= TWO64 && HasRoom(z, n) && used <= n
    ensures SoundSizes(ResizedSizes(z, n).(used := used))
    ensures ResizedSizes(z, n).alloc <= ResizedSizes(z, n).cap
  {
    RoundUpFits(n, z.shift);
  }

  /** The test that skips the reallocation goes wrong for starved vectors only, and for those exactly
      on a count that rounds to what they record. */
  lemma RoomIsMissingExactlyIfStarved(z: Sizes, n: nat)
    requires SoundSizes(z) && 1 <= n && n + Pow2(z.shift) <= TWO64
    ensures HasRoom(z, n) <==> z.cap > 0 || RoundUp(n, z.shift) != z.alloc
  {
    RoundUpFits(n, z.shift);
  }

  /** The items of slots n, n+1, ..., used-1, last one first. */
  ghost function Doomed<V>(slots: seq<Slot<V>>, n: nat, used: nat): seq<nat> {
    if used <= n || |slots| < used || slots[used - 1].Raw? then []
    else [slots[used - 1].id] + Doomed(slots, n, used - 1)
  }

  /** What sg_vector_create_int may leave behind. */
  ghost predicate Created<V>(v: Vec<V>, shift: nat, allocCount: nat, initialUsed: nat, blank: V, before: Ledger, after: Ledger) {
    && SizesOf(v) == NewSizes(shift, Max(allocCount, initialUsed), initialUsed)
    && (forall i | 0 <= i < |v.slots| ::
          v.slots[i] == if i < initialUsed then Live(before.born + i, blank) else Raw)
    && after == Ledger(before.born + initialUsed, before.dead)
  }

  /** What sg_vector_resize to n > 0 may leave behind when it returns a vector: the first items
      are kept, the surplus is destroyed, the missing ones are initialised. */
  ghost predicate Resized<V>(v: Vec<V>, w: Vec<V>, n: nat, blank: V, before: Ledger, after: Ledger) {
    && SizesOf(w) == ResizedSizes(SizesOf(v), n)
    && (forall i | 0 <= i < |w.slots| ::
          w.slots[i] == if n <= i then Raw
                        else if i < v.used then (if i < |v.slots| then v.slots[i] else Raw)
                        else Live(before.born + (i - v.used), blank))
    && after == Ledger(before.born + if n > v.used then n - v.used else 0, before.dead + Doomed(v.slots, n, v.used))
  }

  /** sg_vector_free, and sg_vector_resize when it gives the vector up. */
  ghost predicate Freed<V>(v: Vec<V>, before: Ledger, after: Ledger) {
    after == Ledger(before.born, before.dead + Doomed(v.slots, 0, v.used))
  }

  /** New payloads in the same items: what copy_fn and compute_diff_fn do. */
  ghost predicate Rewritten<V>(v: Vec<V>, vals: seq<V>, w: Vec<V>)
    requires LiveBelow(v.slots, v.used) && |vals| == v.used
  {
    && SizesOf(w) == SizesOf(v)
    && forall i | 0 <= i < |w.slots| :: w.slots[i] == if i < v.used then Live(v.slots[i].id, vals[i]) else v.slots[i]
  }

  /** Destroyed one by one from the last item down. */
  lemma {:induction false} DoomedSpelledOut<V>(slots: seq<Slot<V>>, n: nat, used: nat, k: nat)
    requires n <= used <= |slots| && k < used - n && forall i | n <= i < used :: slots[i].Live?
    ensures |Doomed(slots, n, used)| == used - n && Doomed(slots, n, used)[k] == slots[used - 1 - k].id
  {
    if n < used - 1 {
      DoomedSpelledOut(slots, n, used - 1, if k == 0 then 0 else k - 1);
    }
  }

  lemma {:induction false} DoomedSplits<V>(slots: seq<Slot<V>>, n: nat, used: nat)
    requires n <= used <= |slots|
    requires forall i | 0 <= i < used :: slots[i].Live?
    ensures Doomed(slots, 0, used) == Doomed(slots, n, used) + Doomed(slots, 0, n)
  {
    if n < used {
      DoomedSplits(slots, n, used - 1);
    }
  }

  lemma {:induction false} DoomedReadsIds<V>(a: seq<Slot<V>>, b: seq<Slot<V>>, n: nat, used: nat)
    requires used <= |a| && used <= |b|
    requires forall i | n <= i < used :: a[i].Live? && b[i].Live? && a[i].id == b[i].id
    ensures Doomed(a, n, used) == Doomed(b, n, used)
  {
    if n < used {
      DoomedReadsIds(a, b, n, used - 1);
    }
  }

  lemma FreedInTwoSteps<V>(before: Vec<V>, kept: Vec<V>, n: nat, l: Ledger, l': Ledger, l'': Ledger)
    requires Sound(before) && Sound(kept)
    requires kept.used == Min(before.used, n) && |kept.slots| == |before.slots|
    requires forall i | 0 <= i < |kept.slots| :: kept.slots[i] == if n <= i then Raw else before.slots[i]
    requires l' == Ledger(l.born, l.dead + Doomed(before.slots, n, before.used))
    requires Freed(kept, l', l'')
    ensures Freed(before, l, l'')
  {
    DoomedReadsIds(before.slots, kept.slots, 0, kept.used);
    if n < before.used {
      DoomedSplits(before.slots, n, before.used);
    }
  }

  lemma ResizedInTwoSteps<V>(before: Vec<V>, kept: Vec<V>, after: Vec<V>, n: nat, blank: V, l: Ledger, l': Ledger, l'': Ledger)
    requires Sound(before) && Sound(kept)
    requires SizesOf(kept) == SizesOf(before).(used := Min(before.used, n))
    requires forall i | 0 <= i < |kept.slots| :: kept.slots[i] == if n <= i then Raw else before.slots[i]
    requires l' == Ledger(l.born, l.dead + Doomed(before.slots, n, before.used))
    requires Resized(kept, after, n, blank, l', l'')
    ensures Resized(before, after, n, blank, l, l'')
  {}

  /** The item type's init_fn and destroy_fn, keeping account of their calls. */
  class Callbacks<V> {
    const blank: V
    var ledger: Ledger

    constructor (blank: V)
      ensures this.blank == blank && ledger == Ledger(0, [])
    {
      this.blank := blank;
      ledger := Ledger(0, []);
    }
  }

  lemma Pow2Of31()
    ensures Pow2(31) == TWO31
  {
    assert Pow2(8) == 0x100 && Pow2(7) == 0x80;
    Pow2Splits(8, 16);
    Pow2Splits(7, 15);
    Pow2Splits(15, 31);
  }

  /** The block shift that sg_vector_create settles on, starting from k. */
  function ShiftFrom(k: nat, blockSize: nat): nat
    requires k <= 31
    decreases 31 - k
  {
    if k == 31 || blockSize <= Pow2(k) then k else ShiftFrom(k + 1, blockSize)
  }

  /** sg_vector_create: the block size as the least power of two that is not smaller. */
  method BlockShift(blockSize: nat) returns (shift: nat)
    requires blockSize <= TWO31
    ensures shift <= 31 && blockSize <= Pow2(shift)
    ensures forall k: nat | k < shift :: Pow2(k) < blockSize
    ensures shift == ShiftFrom(0, blockSize)
  {
    Pow2Of31();
    shift := 0;
    while Pow2(shift) < blockSize
      invariant shift <= 31
      invariant forall k: nat | k < shift :: Pow2(k) < blockSize
      invariant ShiftFrom(0, blockSize) == ShiftFrom(shift, blockSize)
      decreases 31 - shift
    {
      shift := shift + 1;
    }
  }

  /** struct sg_vector as vector.c changes it in place. */
  class SgVector<V> {
    var used: nat
    var alloc: nat
    const shift: nat
    var slots: array<Slot<V>>

    ghost function View(): Vec<V>
      reads this, slots
    {
      Vec(used, alloc, shift, slots[..])
    }

    ghost predicate Valid()
      reads this, slots
    {
      Sound(View())
    }

    /** VECTOR_DATA, as the values that it points at */
    function Items(): (vals: seq<V>)
      requires Valid()
      reads this, slots
      ensures vals == Payloads(View())
    {
      seq(used, i requires 0 <= i < used && Valid() reads this, slots => slots[i].val)
    }

    /** sg_vector_create_int */
    constructor CreateInt(shift: nat, allocCount: nat, initialUsed: nat, cb: Callbacks<V>)
      requires shift < 64 && Max(allocCount, initialUsed) + Pow2(shift) <= TWO64
      modifies cb
      ensures Valid() && fresh(slots)
      ensures this.shift == shift && (WellFormed(View()) <==> 1 <= Max(allocCount, initialUsed))
      ensures Created(View(), shift, allocCount, initialUsed, cb.blank, old(cb.ledger), cb.ledger)
    {
      var count := RoundUp(Max(allocCount, initialUsed), shift);
      NewIsSound(shift, Max(allocCount, initialUsed), 0);
      NewIsSound(shift, Max(allocCount, initialUsed), initialUsed);
      this.shift := shift;
      alloc := Pow2(shift);
      used := 0;
      slots := new Slot<V>[count](_ => Raw);
      new;
      InitNew(initialUsed, cb);
    }

    /** sg_vector_init_new: there must be a slot for each of the n items. */
    method InitNew(n: nat, cb: Callbacks<V>)
      requires Valid() && n <= slots.Length
      modifies this`used, slots, cb
      ensures Valid() && used == Max(old(used), n)
      ensures forall i | 0 <= i < slots.Length ::
                slots[i] == if old(used) <= i < n then Live(old(cb.ledger.born) + (i - old(used)), cb.blank) else old(slots[i])
      ensures cb.ledger == Ledger(old(cb.ledger.born) + (if n > old(used) then n - old(used) else 0), old(cb.ledger.dead))
    {
      if n > used {
        var i := used;
        while i < n
          invariant used == old(used) && used <= i <= n
          invariant cb.ledger == Ledger(old(cb.ledger.born) + (i - used), old(cb.ledger.dead))
          invariant forall k | 0 <= k < slots.Length ::
                      slots[k] == if used <= k < i then Live(old(cb.ledger.born) + (k - used), cb.blank) else old(slots[k])
        {
          slots[i] := Live(cb.ledger.born, cb.blank);
          cb.ledger := cb.ledger.(born := cb.ledger.born + 1);
          i := i + 1;
        }
        used := n;
      }
    }

    /** sg_vector_destroy_unused, last item first */
    method DestroyUnused(n: nat, cb: Callbacks<V>)
      requires Valid()
      modifies this`used, slots, cb
      ensures Valid() && used == Min(old(used), n)
      ensures forall i | 0 <= i < slots.Length :: slots[i] == if n <= i then Raw else old(slots[i])
      ensures cb.ledger == Ledger(old(cb.ledger.born), old(cb.ledger.dead) + old(Doomed(slots[..], n, used)))
    {
      ghost var before := slots[..];
      if n < used {
        var i := used;
        while i > n
          invariant used == old(used) && n <= i <= used
          invariant forall k | 0 <= k < slots.Length :: slots[k] == if i <= k then Raw else before[k]
          invariant cb.ledger.born == old(cb.ledger.born)
          invariant cb.ledger.dead + Doomed(before, n, i) == old(cb.ledger.dead) + Doomed(before, n, used)
        {
          i := i - 1;
          cb.ledger := cb.ledger.(dead := cb.ledger.dead + [slots[i].id]);
          slots[i] := Raw;
        }
        used := n;
      }
    }

    /** sg_vector_clear, and the part of sg_vector_free that destroys items */
    method Clear(cb: Callbacks<V>)
      requires Valid()
      modifies this`used, slots, cb
      ensures Valid() && used == 0
      ensures Freed(old(View()), old(cb.ledger), cb.ledger)
    {
      DestroyUnused(0, cb);
    }

    /** realloc: the same first slots, the rest uninitialised */
    method Reallocate(count: nat)
      requires used <= slots.Length && used <= count
      requires forall i | used <= i < slots.Length :: slots[i].Raw?
      modifies this`slots
      ensures fresh(slots) && slots.Length == count
      ensures forall i | 0 <= i < count :: slots[i] == if i < used then old(slots[i]) else Raw
    {
      var old_ := slots;
      var keep := used;
      slots := new Slot<V>[count](i requires 0 <= i < count reads old_, this => if i < keep && i < old_.Length then old_[i] else Raw);
    }

    /** sg_vector_resize; `ok` says whether the allocator grants the request. `alive` is false
        when NULL is returned. */
    method Resize(n: nat, ok: bool, cb: Callbacks<V>) returns (alive: bool)
      requires Valid() && n + Pow2(shift) <= TWO64 && HasRoom(SizesOf(View()), n)
      modifies this, slots, cb
      ensures !alive <==> n == 0 || (RoundUp(n, shift) != old(alloc) && !ok)
      ensures alive ==> Valid() && WellFormed(View()) && Resized(old(View()), View(), n, cb.blank, old(cb.ledger), cb.ledger)
      ensures !alive ==> Freed(old(View()), old(cb.ledger), cb.ledger)
      ensures slots == old(slots) || fresh(slots)
    {
      if n == 0 {
        Clear(cb);
        return false;
      }
      ghost var before := View();
      DestroyUnused(n, cb);
      ghost var kept := View();
      ghost var ledger := cb.ledger;
      var count := RoundUp(n, shift);
      if count != alloc {
        if !ok {
          Clear(cb);
          FreedInTwoSteps(before, kept, n, old(cb.ledger), ledger, cb.ledger);
          return false;
        }
      }
      GrowTo(n, count, cb);
      ResizedInTwoSteps(before, kept, View(), n, cb.blank, old(cb.ledger), ledger, cb.ledger);
      return true;
    }

    /** The reallocation in sg_vector_resize, unless the recorded capacity says it can be skipped */
    method Fit(n: nat, count: nat)
      requires Valid() && used <= n && 1 <= n && n + Pow2(shift) <= TWO64
      requires count == RoundUp(n, shift) && HasRoom(SizesOf(View()), n)
      modifies this`slots, this`alloc
      ensures Valid() && WellFormed(View()) && (slots == old(slots) || fresh(slots))
      ensures SizesOf(View()) == ResizedSizes(old(SizesOf(View())), n).(used := used)
      ensures forall i | 0 <= i < slots.Length :: slots[i] == if i < used then old(slots[i]) else Raw
    {
      ResizedIsSound(SizesOf(View()), n, used);
      if count != alloc {
        Reallocate(count);
        alloc := count;
      }
    }

    /** The rest of sg_vector_resize: buffer and items for n >= used */
    method GrowTo(n: nat, count: nat, cb: Callbacks<V>)
      requires Valid() && used <= n && 1 <= n && n + Pow2(shift) <= TWO64
      requires count == RoundUp(n, shift) && HasRoom(SizesOf(View()), n)
      modifies this, slots, cb
      ensures Valid() && WellFormed(View()) && (slots == old(slots) || fresh(slots))
      ensures Resized(old(View()), View(), n, cb.blank, old(cb.ledger), cb.ledger)
    {
      Fit(n, count);
      InitNew(n, cb);
    }

    /** The copy loop of sg_vector_clone_into_int; copy_fn succeeds on the first `good` items. If it
        fails on one the vector is freed. */
    method CopyItems(src: SgVector<V>, good: nat, cb: Callbacks<V>) returns (ok: bool)
      requires Valid() && src.Valid() && used == src.used
      requires slots != src.slots && this != src
      modifies this`used, slots, cb
      ensures Valid() && (ok <==> src.used <= good)
      ensures ok ==> Rewritten(old(View()), Payloads(src.View()), View()) && cb.ledger == old(cb.ledger)
      ensures !ok ==> Freed(old(View()), old(cb.ledger), cb.ledger)
    {
      var i := 0;
      while i < src.used
        invariant 0 <= i <= used == old(used) && i <= good && cb.ledger == old(cb.ledger)
        invariant forall k | 0 <= k < slots.Length ::
                    slots[k] == if k < i then Live(old(slots[k]).id, src.slots[k].val) else old(slots[k])
      {
        if i == good {
          DoomedReadsIds(old(slots[..]), slots[..], 0, used);
          Clear(cb);
          return false;
        }
        slots[i] := slots[i].(val := src.slots[i].val);
        i := i + 1;
      }
      return true;
    }
  }

  /** What sg_vector_clone leaves behind: new items with the same payloads, in a buffer rounded
      from the recorded capacity but itself recorded as one block. */
  ghost predicate Cloned<V>(src: Vec<V>, w: Vec<V>, before: Ledger, after: Ledger)
    requires Sound(src)
  {
    && SizesOf(w) == NewSizes(src.shift, Max(src.alloc, src.used), src.used)
    && (forall i | 0 <= i < |w.slots| ::
          w.slots[i] == if i < src.used then Live(before.born + i, Payloads(src)[i]) else Raw)
    && after == Ledger(before.born + src.used, before.dead)
  }

  /** sg_vector_clone. NULL comes back exactly if the block was refused or an item could not be
      copied; then every new item has been destroyed again. */
  method Clone<V>(src: SgVector<V>, ok: bool, good: nat, cb: Callbacks<V>) returns (dest: SgVector?<V>)
    requires src.Valid()
    modifies cb
    ensures dest == null <==> !ok || good < src.used
    ensures dest != null ==> fresh(dest) && fresh(dest.slots) && dest.Valid() && WellFormed(dest.View())
                             && Cloned(src.View(), dest.View(), old(cb.ledger), cb.ledger)
    ensures dest == null && !ok ==> cb.ledger == old(cb.ledger)
    ensures dest == null && ok ==>
              exists w: Vec<V>, l :: Created(w, src.shift, src.alloc, src.used, cb.blank, old(cb.ledger), l) && Freed(w, l, cb.ledger)
  {
    if !ok {
      return null;
    }
    dest := new SgVector<V>.CreateInt(src.shift, src.alloc, src.used, cb);
    ghost var created, ledger := dest.View(), cb.ledger;
    var copied := dest.CopyItems(src, good, cb);
    if !copied {
      assert Created(created, src.shift, src.alloc, src.used, cb.blank, old(cb.ledger), ledger) && Freed(created, ledger, cb.ledger);
      return null;
    }
  }

  /** How a call of sg_vector_clone_into ends: the copy is in place; the call reports success but
      `*dest` points at the freed vector; `*dest` is freed a second time; or the call fails
      because an item could not be copied or a clone could not be made, and `*dest` is NULL. */
  datatype CloneOutcome = Done | Dangling | FreedTwice | Failed

  /** When the memory of a copy of n items is in order: no resize is needed, or it is to a count that
      is not zero and the buffer either fits or can be had. */
  predicate CloneIntoIsSafe(dest: Sizes, n: nat, ok: bool) {
    dest.used == n || (n != 0 && (RoundUp(n, dest.shift) == dest.alloc || ok))
  }

  /** These payloads are in the destination's own items, topped up with new ones or with the surplus
      destroyed. */
  ghost predicate FilledInto<V>(v: Vec<V>, vals: seq<V>, w: Vec<V>, before: Ledger, after: Ledger)
    requires LiveBelow(v.slots, v.used)
  {
    var n := |vals|;
    && SizesOf(w) == CopiedSizes(SizesOf(v), n)
    && (forall i | 0 <= i < |w.slots| ::
          w.slots[i] == if n <= i then Raw
                        else Live(if i < v.used then v.slots[i].id else before.born + (i - v.used), vals[i]))
    && after == Ledger(before.born + if n > v.used then n - v.used else 0, before.dead + Doomed(v.slots, n, v.used))
  }

  /** sg_vector_clone_into for a destination and a source that both exist */
  method CloneIntoExisting<V>(dest: SgVector<V>, src: SgVector<V>, ok: bool, good: nat, cb: Callbacks<V>)
    returns (outcome: CloneOutcome)
    requires dest.Valid() && src.Valid() && dest != src && dest.slots != src.slots
    requires src.used + Pow2(dest.shift) <= TWO64
    requires dest.used == src.used || HasRoom(SizesOf(dest.View()), src.used)
    modifies dest, dest.slots, cb
    ensures outcome == Done <==> CloneIntoIsSafe(old(SizesOf(dest.View())), src.used, ok) && src.used <= good
    ensures outcome == Dangling <==> old(dest.used) != 0 && src.used == 0
    ensures outcome == FreedTwice <==> src.used != 0 && !CloneIntoIsSafe(old(SizesOf(dest.View())), src.used, ok)
    ensures outcome == Done ==>
              dest.Valid() && FilledInto(old(dest.View()), Payloads(src.View()), dest.View(), old(cb.ledger), cb.ledger)
    ensures outcome == Dangling || outcome == FreedTwice ==> Freed(old(dest.View()), old(cb.ledger), cb.ledger)
    ensures outcome == Failed ==>
              if old(dest.used) == src.used then Freed(old(dest.View()), old(cb.ledger), cb.ledger)
              else exists w: Vec<V>, l :: Resized(old(dest.View()), w, src.used, cb.blank, old(cb.ledger), l) && Freed(w, l, cb.ledger)
    ensures dest.slots == old(dest.slots) || fresh(dest.slots)
    ensures src.View() == old(src.View())
  {
    ghost var before := dest.View();
    if dest.used != src.used {
      var alive := dest.Resize(src.used, ok, cb);
      if !alive {
        return if src.used == 0 then Dangling else FreedTwice;
      }
    }
    ghost var room, ledger := dest.View(), cb.ledger;
    var copied := dest.CopyItems(src, good, cb);
    if !copied {
      return Failed;
    }
    FilledInTwoSteps(before, room, Payloads(src.View()), dest.View(), cb.blank, old(cb.ledger), ledger);
    return Done;
  }

  lemma FilledInTwoSteps<V>(v: Vec<V>, room: Vec<V>, vals: seq<V>, w: Vec<V>, blank: V, l: Ledger, l': Ledger)
    requires Sound(v) && Sound(room) && room.used == |vals| && Rewritten(room, vals, w)
    requires if v.used == |vals| then room == v && l' == l else Resized(v, room, |vals|, blank, l, l')
    ensures FilledInto(v, vals, w, l, l')
  {}

  /** The objects behind a pointer to a vector. */
  ghost function Footprint<V>(v: SgVector?<V>): set<object>
    reads v
  {
    if v == null then {} else {v as object, v.slots as object}
  }

  /** sg_vector_clone_into; `out` is what `*dest` is left as */
  method CloneInto<V>(dest: SgVector?<V>, src: SgVector?<V>, ok: bool, good: nat, cb: Callbacks<V>)
    returns (out: SgVector?<V>, outcome: CloneOutcome)
    requires (dest != null ==> dest.Valid()) && (src != null ==> src.Valid()) && Footprint(dest) !! Footprint(src)
    requires dest != null && src != null ==>
               src.used + Pow2(dest.shift) <= TWO64 && (dest.used == src.used || HasRoom(SizesOf(dest.View()), src.used))
    modifies Footprint(dest), cb
    ensures src == null ==> out == null && outcome == Done && (dest != null ==> Freed(old(dest.View()), old(cb.ledger), cb.ledger))
    ensures src != null && dest == null ==>
              && outcome == (if ok && src.used <= good then Done else Failed) && (out == null <==> outcome == Failed)
              && (outcome == Done ==> fresh(Footprint(out)) && out.Valid() && Cloned(src.View(), out.View(), old(cb.ledger), cb.ledger))
    ensures src != null && dest != null ==>
              && (outcome == Done <==> CloneIntoIsSafe(old(SizesOf(dest.View())), src.used, ok) && src.used <= good)
              && (outcome == Dangling <==> old(dest.used) != 0 && src.used == 0)
              && (outcome == FreedTwice <==> src.used != 0 && !CloneIntoIsSafe(old(SizesOf(dest.View())), src.used, ok))
              && out == (if outcome == Done || outcome == Dangling then dest else null)
              && fresh(Footprint(dest) - old(Footprint(dest)))
              && (outcome == Done ==>
                    dest.Valid() && FilledInto(old(dest.View()), Payloads(src.View()), dest.View(), old(cb.ledger), cb.ledger))
    ensures src != null ==> src.View() == old(src.View())
  {
    if src == null {
      if dest != null {
        dest.Clear(cb);
      }
      return null, Done;
    }
    if dest == null {
      out := Clone(src, ok, good, cb);
      return out, if out == null then Failed else Done;
    }
    outcome := CloneIntoExisting(dest, src, ok, good, cb);
    out := if outcome == Done || outcome == Dangling then dest else null;
  }

  // ---- two calls that go wrong -----------------------------------------------------------------

  /** A source without items leaves `*dest` pointing at freed memory. */
  method EmptySourceDangles() returns (outcome: CloneOutcome)
    ensures outcome == Dangling
  {
    var cb := new Callbacks<int>(0);
    OneBlockIsSound(1);
    var dest := new SgVector<int>.CreateInt(1, 2, 2, cb);
    var src := new SgVector<int>.CreateInt(1, 2, 0, cb);
    outcome := CloneIntoExisting(dest, src, true, 2, cb);
  }

  /** A refused buffer has the destination freed by sg_vector_resize and again by its caller. */
  method RefusedBufferFreesTwice() returns (outcome: CloneOutcome)
    ensures outcome == FreedTwice
  {
    var cb := new Callbacks<int>(0);
    var dest := new SgVector<int>.CreateInt(0, 1, 1, cb);
    var src := new SgVector<int>.CreateInt(0, 2, 2, cb);
    outcome := CloneIntoExisting(dest, src, false, 2, cb);
  }
}
