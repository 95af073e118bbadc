/** The keyed difference that sg_vector_compute_diff of src/libstatgrab/vector.c computes: an old
    snapshot subtracted from a new one item by item, and what that conserves. */
module KeyedDiff {
  import opened Counters

  /** A vector item: what compare_fn looks at, and what compute_diff_fn changes. */
  datatype Item<K, V> = Item(key: K, val: V)

  /** No item of `s` has this key. */
  ghost predicate Absent<K, V>(key: K, s: seq<Item<K, V>>) {
    forall i | 0 <= i < |s| :: s[i].key != key
  }

  /** `v` with every item of `last` that has this key subtracted, in order. */
  ghost function MinusAll<K, V>(v: V, key: K, last: seq<Item<K, V>>, sub: (V, V) -> V): V {
    if |last| == 0 then v
    else
      var n := |last| - 1;
      var w := MinusAll(v, key, last[..n], sub);
      if last[n].key == key then sub(w, last[n].val) else w
  }

  /** The keyed difference: the first item of a key absorbs all of `last`'s items of that key;
      every other item passes through. */
  ghost function Difference<K, V>(cur: seq<Item<K, V>>, last: seq<Item<K, V>>, sub: (V, V) -> V)
    : (d: seq<Item<K, V>>)
    ensures |d| == |cur|
  {
    seq(|cur|, i requires 0 <= i < |cur| => DifferenceAt(cur, last, sub, i))
  }

  ghost function DifferenceAt<K, V>(cur: seq<Item<K, V>>, last: seq<Item<K, V>>, sub: (V, V) -> V, i: nat)
    : Item<K, V>
    requires i < |cur|
  {
    if Absent(cur[i].key, cur[..i])
    then Item(cur[i].key, MinusAll(cur[i].val, cur[i].key, last, sub))
    else cur[i]
  }

  /** The indices of `last` claimed by the first `i` items of `cur`. */
  ghost function Claimed<K, V>(cur: seq<Item<K, V>>, last: seq<Item<K, V>>): set<nat> {
    set j: nat | j < |last| && !Absent(last[j].key, cur) :: j
  }

  /** Adding `cur[i]` claims exactly the items of its key. */
  lemma ClaimedStep<K, V>(cur: seq<Item<K, V>>, last: seq<Item<K, V>>, i: nat, j: nat)
    requires i < |cur| && j < |last|
    ensures j in Claimed(cur[..i + 1], last) <==> j in Claimed(cur[..i], last) || last[j].key == cur[i].key
  {}

  /** Against nothing, everything passes through. */
  lemma DifferenceWithNothing<K, V>(cur: seq<Item<K, V>>, sub: (V, V) -> V)
    ensures Difference(cur, [], sub) == cur
  {}

  /** What one more old item changes: the first new item with its key has it subtracted, and nothing else
      changes. With the law above this determines every difference. */
  lemma DifferenceOneMore<K, V>(cur: seq<Item<K, V>>, last: seq<Item<K, V>>, x: Item<K, V>, sub: (V, V) -> V, i: nat)
    requires i < |cur|
    ensures |Difference(cur, last + [x], sub)| == |Difference(cur, last, sub)| == |cur|
    ensures var d, d' := Difference(cur, last, sub)[i], Difference(cur, last + [x], sub)[i];
            if cur[i].key == x.key && forall j | 0 <= j < i :: cur[j].key != x.key
            then d' == Item(cur[i].key, sub(d.val, x.val))
            else d' == d
  {
    assert (last + [x])[..|last|] == last;
  }

  // ---- conservation -----------------------------------------------------------------------

  /** What one item adds to the sum of a key. */
  ghost function Share<K, V>(key: K, item: Item<K, V>, counter: V -> U64): U64 {
    if item.key == key then counter(item.val) else 0
  }

  /** Sum of one counter over the items with this key. */
  ghost function SumOf<K, V>(key: K, s: seq<Item<K, V>>, counter: V -> U64): nat {
    if |s| == 0 then 0
    else
      var n := |s| - 1;
      SumOf(key, s[..n], counter) + Share(key, s[n], counter)
  }

  /** `sub` subtracts this counter as unsigned 64-bit numbers. */
  ghost predicate Subtracts<V(!new)>(sub: (V, V) -> V, counter: V -> U64) {
    forall a, b :: counter(sub(a, b)) == Sub64(counter(a), counter(b))
  }

  /** c is a with s taken away, modulo 2^64. */
  ghost predicate IsRest(c: U64, a: U64, s: nat) {
    c == (a - s) % TWO64
  }

  lemma RestOfNothing(a: U64)
    ensures IsRest(a, a, 0)
  {}

  lemma RestOfMore(w: U64, a: U64, s: nat, x: U64)
    requires IsRest(w, a, s)
    ensures IsRest(Sub64(w, x), a, s + x)
  {}

  lemma {:induction false} MinusAllSums<K, V(!new)>(v: V, key: K, last: seq<Item<K, V>>, sub: (V, V) -> V, counter: V -> U64)
    requires Subtracts(sub, counter)
    ensures IsRest(counter(MinusAll(v, key, last, sub)), counter(v), SumOf(key, last, counter))
  {
    if |last| == 0 {
      RestOfNothing(counter(v));
    } else {
      var n := |last| - 1;
      MinusAllSums(v, key, last[..n], sub, counter);
      if last[n].key == key {
        var w, sum := MinusAll(v, key, last[..n], sub), SumOf(key, last[..n], counter);
        RestOfMore(counter(w), counter(v), sum, counter(last[n].val));
        assert counter(sub(w, last[n].val)) == Sub64(counter(w), counter(last[n].val));
      }
    }
  }

  lemma {:induction false} AbsentSumsToZero<K, V>(key: K, s: seq<Item<K, V>>, counter: V -> U64)
    requires Absent(key, s)
    ensures SumOf(key, s, counter) == 0
  {
    if |s| > 0 {
      AbsentSumsToZero(key, s[..|s| - 1], counter);
    }
  }

  /** Equal as unsigned 64-bit numbers. */
  ghost predicate Congruent(a: int, b: int) {
    a % TWO64 == b % TWO64
  }

  /** What has been subtracted for this key once `cur` has been walked. */
  ghost function Taken<K, V>(key: K, cur: seq<Item<K, V>>, last: seq<Item<K, V>>, counter: V -> U64): nat {
    if Absent(key, cur) then 0 else SumOf(key, last, counter)
  }

  /** The sum over the first `n` results: nothing subtracted before the key has occurred,
      everything subtracted once it has. */
  lemma {:induction false} SumOfDifference<K, V(!new)>(key: K, cur: seq<Item<K, V>>, last: seq<Item<K, V>>,
                                                       sub: (V, V) -> V, counter: V -> U64, n: nat)
    requires Subtracts(sub, counter)
    requires n <= |cur|
    ensures Congruent(SumOf(key, Difference(cur, last, sub)[..n], counter),
                      SumOf(key, cur[..n], counter) - Taken(key, cur[..n], last, counter))
  {
    if n > 0 {
      var m, d := n - 1, Difference(cur, last, sub);
      SumOfDifference(key, cur, last, sub, counter, m);
      OneMoreResult(key, cur, last, sub, counter, m);
      AddCongruent(SumOf(key, d[..m], counter), SumOf(key, cur[..m], counter), Taken(key, cur[..m], last, counter),
                   SumOf(key, d[..n], counter), Share(key, cur[m], counter), TakenBy(key, cur, last, counter, m));
    }
  }

  /** What item m takes from a key's sum: everything if it is the first of that key. */
  ghost function TakenBy<K, V>(key: K, cur: seq<Item<K, V>>, last: seq<Item<K, V>>, counter: V -> U64, m: nat): nat
    requires m < |cur|
  {
    if cur[m].key == key && Absent(key, cur[..m]) then SumOf(key, last, counter) else 0
  }

  /** How the sums go on from m to m + 1 items. */
  lemma OneMoreResult<K, V(!new)>(key: K, cur: seq<Item<K, V>>, last: seq<Item<K, V>>, sub: (V, V) -> V, counter: V -> U64, m: nat)
    requires Subtracts(sub, counter) && m < |cur|
    ensures var d := Difference(cur, last, sub);
            SumOf(key, d[..m + 1], counter)
            == SumOf(key, d[..m], counter) + (Share(key, cur[m], counter) - TakenBy(key, cur, last, counter, m)) % TWO64
    ensures SumOf(key, cur[..m + 1], counter) == SumOf(key, cur[..m], counter) + Share(key, cur[m], counter)
    ensures Taken(key, cur[..m + 1], last, counter) == Taken(key, cur[..m], last, counter) + TakenBy(key, cur, last, counter, m)
  {
    SumExtends(key, cur, counter, m);
    SumExtends(key, Difference(cur, last, sub), counter, m);
    AbsentExtends(key, cur, m);
    if cur[m].key == key && Absent(key, cur[..m]) {
      MinusAllSums(cur[m].val, key, last, sub, counter);
    }
  }

  lemma SumExtends<K, V>(key: K, s: seq<Item<K, V>>, counter: V -> U64, m: nat)
    requires m < |s|
    ensures SumOf(key, s[..m + 1], counter) == SumOf(key, s[..m], counter) + Share(key, s[m], counter)
  {
    assert s[..m + 1][..m] == s[..m];
  }

  lemma AbsentExtends<K, V>(key: K, s: seq<Item<K, V>>, m: nat)
    requires m < |s|
    ensures Absent(key, s[..m + 1]) <==> Absent(key, s[..m]) && s[m].key != key
  {}

  lemma AddCongruent(d: int, c: int, t: int, d': int, share: int, took: int)
    requires Congruent(d, c - t) && d' == d + (share - took) % TWO64
    ensures Congruent(d', c + share - (t + took))
  {}

  /** Conservation, for any multiplicities on either side. For a key that occurs in the new
      snapshot the differences add up to new minus old modulo 2^64; for a key that does not,
      they add up to nothing, so conservation holds exactly when the old items summed to a
      multiple of 2^64. */
  lemma {:induction false} Conservation<K, V(!new)>(key: K, cur: seq<Item<K, V>>, last: seq<Item<K, V>>,
                                 sub: (V, V) -> V, counter: V -> U64)
    requires Subtracts(sub, counter)
    ensures SumOf(key, Difference(cur, last, sub), counter) % TWO64
         == (SumOf(key, cur, counter) - SumOf(key, last, counter)) % TWO64
       <==> !Absent(key, cur) || SumOf(key, last, counter) % TWO64 == 0
  {
    var d := Difference(cur, last, sub);
    SumOfDifference(key, cur, last, sub, counter, |cur|);
    assert cur[..|cur|] == cur && d[..|cur|] == d;
    if Absent(key, cur) {
      AbsentSumsToZero(key, cur, counter);
    }
  }

  lemma {:induction false} Conserved<K, V(!new)>(key: K, cur: seq<Item<K, V>>, last: seq<Item<K, V>>,
                                                 sub: (V, V) -> V, counter: V -> U64)
    requires Subtracts(sub, counter) && !Absent(key, cur)
    ensures Congruent(SumOf(key, Difference(cur, last, sub), counter), SumOf(key, cur, counter) - SumOf(key, last, counter))
  {
    Conservation(key, cur, last, sub, counter);
  }

  // ---- the items of disk_stats.c and network_stats.c -----------------------------------------

  /** sg_disk_io_stats without its name, which is the key. */
  datatype DiskCounters = DiskCounters(readBytes: U64, writeBytes: U64, systime: U64)

  /** sg_disk_io_stats_item_compute_diff */
  function SubtractDisk(d: DiskCounters, s: DiskCounters): DiskCounters {
    DiskCounters(Sub64(d.readBytes, s.readBytes), Sub64(d.writeBytes, s.writeBytes), Sub64(d.systime, s.systime))
  }

  /** sg_network_io_stats without its name. */
  datatype NetCounters = NetCounters(tx: U64, rx: U64, ipackets: U64, opackets: U64,
                                     ierrors: U64, oerrors: U64, collisions: U64, systime: U64)

  /** sg_network_io_stats_item_compute_diff */
  function SubtractNet(d: NetCounters, s: NetCounters): NetCounters {
    NetCounters(TransferDiff(d.tx, s.tx), TransferDiff(d.rx, s.rx),
                TransferDiff(d.ipackets, s.ipackets), TransferDiff(d.opackets, s.opackets),
                TransferDiff(d.ierrors, s.ierrors), TransferDiff(d.oerrors, s.oerrors),
                TransferDiff(d.collisions, s.collisions), Sub64(d.systime, s.systime))
  }

  datatype DiskField = ReadBytes | WriteBytes | DiskTime

  /** One counter of a disk. */
  function DiskCounter(f: DiskField): DiskCounters -> U64 {
    (c: DiskCounters) => match f case ReadBytes => c.readBytes case WriteBytes => c.writeBytes case DiskTime => c.systime
  }

  /** Bytes read, bytes written and time are conserved for every disk present in the new snapshot. */
  lemma DiskConservation(name: string, cur: seq<Item<string, DiskCounters>>, last: seq<Item<string, DiskCounters>>, f: DiskField)
    requires !Absent(name, cur)
    ensures SumOf(name, Difference(cur, last, SubtractDisk), DiskCounter(f)) % TWO64
         == (SumOf(name, cur, DiskCounter(f)) - SumOf(name, last, DiskCounter(f))) % TWO64
  {
    Conservation(name, cur, last, SubtractDisk, DiskCounter(f));
  }

  /** A disk that read five bytes and is gone: the five bytes are in no difference. */
  lemma LostDiskIsNotConserved(last: seq<Item<string, DiskCounters>>)
    requires last == [Item("sda", DiskCounters(5, 0, 0))]
    ensures SumOf("sda", Difference([], last, SubtractDisk), DiskCounter(ReadBytes)) % TWO64
         != (SumOf("sda", [], DiskCounter(ReadBytes)) - SumOf("sda", last, DiskCounter(ReadBytes))) % TWO64
  {
    Conservation("sda", [], last, SubtractDisk, DiskCounter(ReadBytes));
    assert SumOf("sda", last[..0], DiskCounter(ReadBytes)) == 0;
  }
}
