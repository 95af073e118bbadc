/** sg_get_fs_stats_int of src/libstatgrab/disk_stats.c: a backward pass that marks the mounts to keep
    in a bit array, and a forward pass that scans the array and copies. */
module FsFilter {
  import opened Bits
  import opened Options

  /** sg_fs_stats: the type that is looked up, and everything else. */
  datatype Mount = Mount(fsType: string, details: nat)

  /** Mount k is kept: its type is valid and sg_fill_fs_stat_int succeeds on it. `fills` holds what
      that call makes of each mount; None is an error. */
  ghost predicate Keeps(mounts: seq<Mount>, isValid: string -> bool, fills: seq<Option<Mount>>, k: nat) {
    k < |mounts| && k < |fills| && isValid(mounts[k].fsType) && fills[k].Some?
  }

  /** The filled items of the first n mounts that are kept, in mount order. */
  ghost function Kept(mounts: seq<Mount>, isValid: string -> bool, fills: seq<Option<Mount>>, n: nat): seq<Mount> {
    if n == 0 then []
    else
      var before := Kept(mounts, isValid, fills, n - 1);
      if Keeps(mounts, isValid, fills, n - 1) then before + [fills[n - 1].value] else before
  }

  /** How many mounts from n on are kept. */
  ghost function KeptFrom(mounts: seq<Mount>, isValid: string -> bool, fills: seq<Option<Mount>>, n: nat): nat
    decreases |mounts| - n
  {
    if n >= |mounts| then 0
    else (if Keeps(mounts, isValid, fills, n) then 1 else 0) + KeptFrom(mounts, isValid, fills, n + 1)
  }

  lemma {:induction false} KeptSplits(mounts: seq<Mount>, isValid: string -> bool, fills: seq<Option<Mount>>, n: nat)
    requires n <= |mounts|
    ensures |Kept(mounts, isValid, fills, n)| + KeptFrom(mounts, isValid, fills, n) == |Kept(mounts, isValid, fills, |mounts|)|
    decreases |mounts| - n
  {
    if n < |mounts| {
      KeptSplits(mounts, isValid, fills, n + 1);
    }
  }

  /** While fewer than all kept mounts lie below n there is one at or after n. */
  lemma {:induction false} SomeKeptFrom(mounts: seq<Mount>, isValid: string -> bool, fills: seq<Option<Mount>>, n: nat)
    requires KeptFrom(mounts, isValid, fills, n) > 0
    ensures exists k: nat :: n <= k && Keeps(mounts, isValid, fills, k)
    decreases |mounts| - n
  {
    if Keeps(mounts, isValid, fills, n) {
    } else {
      SomeKeptFrom(mounts, isValid, fills, n + 1);
    }
  }

  /** Mounts that are not kept do not lengthen the result. */
  lemma {:induction false} NothingBetween(mounts: seq<Mount>, isValid: string -> bool, fills: seq<Option<Mount>>, i: nat, r: nat)
    requires i <= r && forall k | i <= k < r :: !Keeps(mounts, isValid, fills, k)
    ensures Kept(mounts, isValid, fills, r) == Kept(mounts, isValid, fills, i)
  {
    if i < r {
      NothingBetween(mounts, isValid, fills, i, r - 1);
    }
  }

  lemma {:induction false} KeptPrefix(mounts: seq<Mount>, isValid: string -> bool, fills: seq<Option<Mount>>, i: nat, n: nat)
    requires i <= n
    ensures Kept(mounts, isValid, fills, i) <= Kept(mounts, isValid, fills, n)
  {
    if i < n {
      KeptPrefix(mounts, isValid, fills, i, n - 1);
    }
  }

  /** The backward pass: fill what has a valid type, mark and count what could be filled. */
  method MarkKept(items: array<Mount>, isValid: string -> bool, fills: seq<Option<Mount>>) returns (valid: BitSet, n: nat)
    requires |fills| == items.Length
    modifies items
    ensures fresh(valid) && fresh(valid.words) && valid.Valid()
    ensures forall k: nat :: k in valid.members <==> Keeps(old(items[..]), isValid, fills, k)
    ensures n == KeptFrom(old(items[..]), isValid, fills, 0)
    ensures forall k | 0 <= k < items.Length && Keeps(old(items[..]), isValid, fills, k) :: items[k] == fills[k].value
  {
    ghost var mounts := items[..];
    valid := new BitSet(items.Length);
    n := 0;
    var i := items.Length;
    while i > 0
      invariant 0 <= i <= items.Length < 32 * valid.words.Length
      invariant fresh(valid) && fresh(valid.words) && valid.Valid()
      invariant forall k | 0 <= k < i :: items[k] == mounts[k]
      invariant forall k: nat :: k in valid.members <==> i <= k && Keeps(mounts, isValid, fills, k)
      invariant n == KeptFrom(mounts, isValid, fills, i)
      invariant forall k | i <= k < items.Length && Keeps(mounts, isValid, fills, k) :: items[k] == fills[k].value
    {
      i := i - 1;
      if isValid(items[i].fsType) {
        if fills[i].Some? {
          items[i] := fills[i].value;
          valid.Set(i);
          n := n + 1;
        }
      }
    }
  }

  /** sg_get_fs_stats_int. The result is exactly the kept mounts in mount order; every scan finds its
      bit before the last mount, and the copy loop runs to its end. */
  method GetFsStats(mounts: seq<Mount>, isValid: string -> bool, fills: seq<Option<Mount>>) returns (out: seq<Mount>, ghost at: seq<nat>)
    requires |fills| == |mounts|
    ensures out == Kept(mounts, isValid, fills, |mounts|)
    ensures forall k | 0 <= k < |at| :: at[k] < |mounts|
    ensures forall j, k | 0 <= j < k < |at| :: at[j] < at[k]
    ensures forall i | 0 <= i < |mounts| :: isValid(mounts[i].fsType) && fills[i].Some? <==> i in at
    ensures |out| == |at| && forall k | 0 <= k < |at| :: fills[at[k]] == Some(out[k])
  {
    var items := new Mount[|mounts|](i requires 0 <= i < |mounts| => mounts[i]);
    assert items[..] == mounts;
    var valid, n := MarkKept(items, isValid, fills);
    KeptSplits(mounts, isValid, fills, 0);
    var copied := CopyKept(items[..], valid, n, mounts, isValid, fills);
    out := copied[..];
    at := KeptAt(mounts, isValid, fills, |mounts|);
    KeptIsFilter(mounts, isValid, fills, |mounts|, at);
  }

  /** The indices of the mounts that are kept. */
  lemma {:induction false} KeptAt(mounts: seq<Mount>, isValid: string -> bool, fills: seq<Option<Mount>>, n: nat) returns (at: seq<nat>)
    requires n <= |mounts| == |fills|
    ensures forall k | 0 <= k < |at| :: at[k] < n
    ensures forall j, k | 0 <= j < k < |at| :: at[j] < at[k]
    ensures forall i | 0 <= i < n :: isValid(mounts[i].fsType) && fills[i].Some? <==> i in at
  {
    if n == 0 {
      at := [];
    } else {
      at := KeptAt(mounts, isValid, fills, n - 1);
      if isValid(mounts[n - 1].fsType) && fills[n - 1].Some? {
        at := at + [n - 1];
      }
    }
  }

  /** The forward pass. */
  method CopyKept(items: seq<Mount>, valid: BitSet, n: nat,
                  ghost mounts: seq<Mount>, ghost isValid: string -> bool, ghost fills: seq<Option<Mount>>) returns (copied: array<Mount>)
    requires |items| == |mounts| && valid.Valid()
    requires forall k: nat :: k in valid.members <==> Keeps(mounts, isValid, fills, k)
    requires n == |Kept(mounts, isValid, fills, |mounts|)|
    requires forall k | 0 <= k < |items| && Keeps(mounts, isValid, fills, k) :: items[k] == fills[k].value
    ensures copied[..] == Kept(mounts, isValid, fills, |mounts|)
  {
    copied := new Mount[n](_ => Mount("", 0));
    var i, j := 0, 0;
    while j < n
      invariant 0 <= j <= n && 0 <= i <= |mounts|
      invariant fresh(copied) && valid.Valid()
      invariant copied[..j] == Kept(mounts, isValid, fills, i)
      decreases n - j
    {
      SomeKeptAfter(mounts, isValid, fills, i);
      var r := valid.ScanForward(i);
      NothingBetween(mounts, isValid, fills, i, r);
      i := r;
      if i >= |items| {
        break;
      }
      copied[j] := items[i];
      j := j + 1;
      i := i + 1;
    }
    assert j == n;
    KeptPrefix(mounts, isValid, fills, i, |mounts|);
  }

  lemma SomeKeptAfter(mounts: seq<Mount>, isValid: string -> bool, fills: seq<Option<Mount>>, i: nat)
    requires i <= |mounts| && |Kept(mounts, isValid, fills, i)| < |Kept(mounts, isValid, fills, |mounts|)|
    ensures exists k: nat :: i <= k && Keeps(mounts, isValid, fills, k)
  {
    KeptSplits(mounts, isValid, fills, i);
    SomeKeptFrom(mounts, isValid, fills, i);
  }

  /** Kept is the filter in the reader's terms: one item for each mount whose type is valid and which could
      be filled, in increasing order. */
  lemma {:induction false} KeptIsFilter(mounts: seq<Mount>, isValid: string -> bool, fills: seq<Option<Mount>>, n: nat, at: seq<nat>)
    requires n <= |mounts| == |fills|
    requires forall k | 0 <= k < |at| :: at[k] < n
    requires forall j, k | 0 <= j < k < |at| :: at[j] < at[k]
    requires forall i | 0 <= i < n :: isValid(mounts[i].fsType) && fills[i].Some? <==> i in at
    ensures |Kept(mounts, isValid, fills, n)| == |at|
    ensures forall k | 0 <= k < |at| :: fills[at[k]] == Some(Kept(mounts, isValid, fills, n)[k])
  {
    assert |at| > 0 ==> at[0] < n;
    if n > 0 {
      if Keeps(mounts, isValid, fills, n - 1) {
        var m := |at| - 1;
        assert at[m] == n - 1 by {
          var k :| 0 <= k < |at| && at[k] == n - 1;
        }
        KeptIsFilter(mounts, isValid, fills, n - 1, at[..m]);
      } else {
        KeptIsFilter(mounts, isValid, fills, n - 1, at);
      }
    }
  }
}
