/** sg_vector_compute_diff of src/libstatgrab/vector.c on the vectors themselves: the clone into the
    destination, and then the subtraction in place, with a bit array of the old items already used. */
module VectorDiff {
  import opened Bits
  import opened Counters
  import opened KeyedDiff
  import opened Vector

  /** The items behind a pointer to a vector; none behind NULL. */
  ghost function ItemsAt<T>(v: SgVector?<T>): seq<T>
    requires v != null ==> v.Valid()
    reads v, if v == null then {} else {v.slots}
  {
    if v == null then [] else Payloads(v.View())
  }

  /** One item of the result against the whole of `last`: the inner loop. Item i still is the copied
      one; `matched` holds what earlier items claimed. */
  method SubtractLast<K(==), V>(dest: SgVector<Item<K, V>>, i: nat, ghost cur: seq<Item<K, V>>,
                                last: SgVector<Item<K, V>>, sub: (V, V) -> V, matched: BitSet)
    requires dest.Valid() && last.Valid() && dest.slots != last.slots
    requires i < dest.used == |cur| && dest.slots[i].val == cur[i]
    requires matched.Valid() && last.used < 32 * matched.words.Length
    requires dest.slots as object != matched.words as object && last.slots as object != matched.words as object
    requires matched.members == Claimed(cur[..i], Payloads(last.View()))
    modifies dest.slots, matched, matched.words
    ensures last.View() == old(last.View())
    ensures matched.Valid() && matched.members == Claimed(cur[..i + 1], Payloads(last.View()))
    ensures dest.slots[i] == Live(old(dest.slots[i].id), DifferenceAt(cur, Payloads(last.View()), sub, i))
    ensures forall k | 0 <= k < dest.slots.Length && k != i :: dest.slots[k] == old(dest.slots[k])
  {
    ghost var key := cur[i].key;
    ghost var isFirst := Absent(key, cur[..i]);
    ghost var was := Payloads(last.View());
    ghost var id := dest.slots[i].id;
    var n := last.used;
    var j := 0;
    while j < n
      invariant 0 <= j <= n == |was| && last.View() == old(last.View())
      invariant matched.Valid()
      invariant forall m | 0 <= m < n ::
                  m in matched.members <==> m in Claimed(cur[..i], was) || (m < j && was[m].key == key)
      invariant forall m | m in matched.members :: m < n
      invariant dest.slots[i].Live? && dest.slots[i].id == id && dest.slots[i].val.key == key
      invariant dest.slots[i].val.val == if isFirst then MinusAll(cur[i].val, key, was[..j], sub) else cur[i].val
      invariant forall k | 0 <= k < dest.slots.Length && k != i :: dest.slots[k] == old(dest.slots[k])
    {
      assert was[..j + 1][..j] == was[..j];
      var already := matched.Test(j);
      var item := last.slots[j].val;
      assert item == was[j];
      if !already && item.key == dest.slots[i].val.key {
        matched.Set(j);
        dest.slots[i] := Live(dest.slots[i].id, dest.slots[i].val.(val := sub(dest.slots[i].val.val, item.val)));
      }
      j := j + 1;
    }
    assert was[..j] == was;
    forall m | 0 <= m < n ensures m in matched.members <==> m in Claimed(cur[..i + 1], was) {
      ClaimedStep(cur, was, i, m);
    }
  }

  /** The double loop, on a destination that holds the copied items */
  method SubtractAll<K(==), V>(dest: SgVector<Item<K, V>>, last: SgVector<Item<K, V>>, sub: (V, V) -> V)
    requires dest.Valid() && last.Valid() && dest.slots != last.slots
    modifies dest.slots
    ensures dest.Valid() && last.View() == old(last.View())
    ensures Rewritten(old(dest.View()), Difference(Payloads(old(dest.View())), Payloads(last.View()), sub), dest.View())
  {
    ghost var cur, was := Payloads(dest.View()), Payloads(last.View());
    var matched := new BitSet(last.used);
    var i := 0;
    while i < dest.used
      invariant 0 <= i <= dest.used == |cur| && last.View() == old(last.View())
      invariant matched.Valid() && fresh(matched) && fresh(matched.words)
      invariant last.used < 32 * matched.words.Length
      invariant matched.members == Claimed(cur[..i], was)
      invariant forall k | 0 <= k < dest.slots.Length ::
                  dest.slots[k] == if k < i then Live(old(dest.slots[k]).id, DifferenceAt(cur, was, sub, k)) else old(dest.slots[k])
    {
      SubtractLast(dest, i, cur, last, sub, matched);
      i := i + 1;
    }
  }

  /** The same, if there is an old snapshot at all */
  method SubtractFrom<K(==), V>(dest: SgVector<Item<K, V>>, last: SgVector?<Item<K, V>>, sub: (V, V) -> V)
    requires dest.Valid() && (last != null ==> last.Valid() && dest.slots != last.slots)
    modifies dest.slots
    ensures dest.Valid() && (last != null ==> last.View() == old(last.View()))
    ensures Rewritten(old(dest.View()), Difference(Payloads(old(dest.View())), ItemsAt(last), sub), dest.View())
  {
    if last == null {
      DifferenceWithNothing(Payloads(dest.View()), sub);
    } else {
      SubtractAll(dest, last, sub);
    }
  }

  /** sg_vector_compute_diff for a new snapshot that exists: what becomes of the destination */
  method DiffInto<K(==), V>(dest: SgVector<Item<K, V>>, cur: SgVector<Item<K, V>>, last: SgVector?<Item<K, V>>,
                            sub: (V, V) -> V, ok: bool, good: nat, cb: Callbacks<Item<K, V>>)
    returns (outcome: CloneOutcome)
    requires dest.Valid() && cur.Valid() && dest != cur && dest.slots != cur.slots
    requires last != null ==> last.Valid() && dest != last && dest.slots != last.slots
    requires cur.used + Pow2(dest.shift) <= TWO64
    requires dest.used == cur.used || HasRoom(SizesOf(dest.View()), cur.used)
    modifies dest, dest.slots, cb
    ensures outcome == Done <==> CloneIntoIsSafe(old(SizesOf(dest.View())), cur.used, ok) && cur.used <= good
    ensures outcome == Dangling <==> old(dest.used) != 0 && cur.used == 0
    ensures outcome == FreedTwice <==> cur.used != 0 && !CloneIntoIsSafe(old(SizesOf(dest.View())), cur.used, ok)
    ensures outcome == Dangling || outcome == FreedTwice ==> Freed(old(dest.View()), old(cb.ledger), cb.ledger)
    ensures outcome == Done ==>
              && dest.Valid()
              && FilledInto(old(dest.View()), Difference(Payloads(cur.View()), ItemsAt(last), sub), dest.View(), old(cb.ledger), cb.ledger)
    ensures dest.slots == old(dest.slots) || fresh(dest.slots)
    ensures cur.View() == old(cur.View()) && (last != null ==> last.View() == old(last.View()))
  {
    ghost var before, items, was := dest.View(), Payloads(cur.View()), ItemsAt(last);
    outcome := CloneIntoExisting(dest, cur, ok, good, cb);
    if outcome == Done {
      ghost var copied := dest.View();
      SubtractFrom(dest, last, sub);
      FilledAgain(before, items, copied, Difference(items, was, sub), dest.View(), old(cb.ledger), cb.ledger);
    }
  }

  /** Payloads copied in and then changed in place. */
  lemma FilledAgain<T>(v: Vec<T>, vals: seq<T>, copied: Vec<T>, new_: seq<T>, w: Vec<T>, l: Ledger, l': Ledger)
    requires Sound(v) && Sound(copied) && FilledInto(v, vals, copied, l, l')
    requires |new_| == |vals| && (Payloads(copied) == vals ==> Rewritten(copied, new_, w))
    ensures FilledInto(v, new_, w, l, l')
  {
    assert Payloads(copied) == vals;
  }

  /** sg_vector_compute_diff where there is no destination yet: a clone, and the old snapshot subtracted
      from it */
  method DiffClone<K(==), V>(cur: SgVector<Item<K, V>>, last: SgVector?<Item<K, V>>, sub: (V, V) -> V, ok: bool, good: nat,
                             cb: Callbacks<Item<K, V>>)
    returns (out: SgVector?<Item<K, V>>)
    requires cur.Valid() && (last != null ==> last.Valid())
    modifies cb
    ensures out == null <==> !ok || good < cur.used
    ensures out != null ==>
              && fresh(out) && fresh(out.slots) && out.Valid()
              && SizesOf(out.View()) == NewSizes(cur.shift, Max(cur.alloc, cur.used), cur.used)
              && Payloads(out.View()) == Difference(Payloads(cur.View()), ItemsAt(last), sub)
  {
    out := Clone(cur, ok, good, cb);
    if out != null {
      ClonedHolds(cur.View(), out.View(), old(cb.ledger), cb.ledger);
      SubtractFrom(out, last, sub);
    }
  }

  lemma ClonedHolds<T>(v: Vec<T>, w: Vec<T>, l: Ledger, l': Ledger)
    requires Sound(v) && Sound(w) && Cloned(v, w, l, l')
    ensures Payloads(w) == Payloads(v)
  {}

  /** sg_vector_compute_diff; `out` is what `*dest_vector_ptr` is left as. Without a new snapshot the
      destination is given up and an error is reported. */
  method ComputeDiff<K(==), V>(dest: SgVector?<Item<K, V>>, cur: SgVector?<Item<K, V>>, last: SgVector?<Item<K, V>>,
                               sub: (V, V) -> V, ok: bool, good: nat, cb: Callbacks<Item<K, V>>)
    returns (out: SgVector?<Item<K, V>>, outcome: CloneOutcome)
    requires (dest != null ==> dest.Valid()) && (cur != null ==> cur.Valid()) && (last != null ==> last.Valid())
    requires dest != null && cur != null ==> dest != cur && dest.slots != cur.slots && cur.used + Pow2(dest.shift) <= TWO64
    requires dest != null && last != null ==> dest != last && dest.slots != last.slots
    requires dest != null && cur != null ==> dest.used == cur.used || HasRoom(SizesOf(dest.View()), cur.used)
    modifies Footprint(dest), cb
    ensures cur == null ==> out == null && outcome == Failed
    ensures cur == null && dest != null ==> Freed(old(dest.View()), old(cb.ledger), cb.ledger)
    ensures cur != null && dest == null ==>
              outcome == (if ok && cur.used <= good then Done else Failed) && (out == null <==> outcome == Failed) && fresh(Footprint(out))
    ensures cur != null && dest != null ==>
              && (outcome == Done <==> CloneIntoIsSafe(old(SizesOf(dest.View())), cur.used, ok) && cur.used <= good)
              && (outcome == Dangling <==> old(dest.used) != 0 && cur.used == 0)
              && (outcome == FreedTwice <==> cur.used != 0 && !CloneIntoIsSafe(old(SizesOf(dest.View())), cur.used, ok))
              && out == (if outcome == Done || outcome == Dangling then dest else null)
    ensures outcome == Done && dest != null ==>
              FilledInto(old(dest.View()), old(Difference(ItemsAt(cur), ItemsAt(last), sub)), dest.View(), old(cb.ledger), cb.ledger)
    ensures dest != null ==> dest.slots == old(dest.slots) || fresh(dest.slots)
    ensures outcome == Done ==>
              && cur != null && out != null && out.Valid()
              && SizesOf(out.View()) == (if dest == null then NewSizes(cur.shift, Max(cur.alloc, cur.used), cur.used)
                                         else CopiedSizes(old(SizesOf(dest.View())), cur.used))
              && Payloads(out.View()) == old(Difference(ItemsAt(cur), ItemsAt(last), sub))
  {
    if cur == null {
      if dest != null {
        dest.Clear(cb);
      }
      return null, Failed;
    }
    if dest == null {
      out := DiffClone(cur, last, sub, ok, good, cb);
      return out, if out == null then Failed else Done;
    }
    ghost var items, before := Difference(Payloads(cur.View()), ItemsAt(last), sub), dest.View();
    outcome := DiffInto(dest, cur, last, sub, ok, good, cb);
    out := if outcome == Done || outcome == Dangling then dest else null;
    if outcome == Done {
      FilledHolds(before, items, dest.View(), old(cb.ledger), cb.ledger);
    }
  }

  lemma FilledHolds<T>(v: Vec<T>, vals: seq<T>, w: Vec<T>, l: Ledger, l': Ledger)
    requires LiveBelow(v.slots, v.used) && LiveBelow(w.slots, w.used) && FilledInto(v, vals, w, l, l')
    ensures Payloads(w) == vals && SizesOf(w) == CopiedSizes(SizesOf(v), |vals|)
  {}
}
