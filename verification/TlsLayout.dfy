/** The thread-local storage of src/libstatgrab/globals.c: one buffer per thread, cut into component
    slices by prefix sums, found by masked component ids. */
module TlsLayout {
  import opened Counters

  /** MAGIC_EYE('g','l','o','b') */
  const GLOB_MASK := 0x67 + 0x6c * 0x100 + 0x6f * 0x1_0000 + 0x62 * 0x100_0000

  /** Total size of the first i components. */
  ghost function Sum(sizes: seq<nat>, i: nat): nat
    requires i <= |sizes|
  {
    if i == 0 then 0 else Sum(sizes, i - 1) + sizes[i - 1]
  }

  ghost predicate IsLayout(sizes: seq<nat>, offsets: seq<nat>) {
    |offsets| == |sizes| && forall i | 0 <= i < |sizes| :: offsets[i] == Sum(sizes, i)
  }

  /** Byte b belongs to component i's slice. */
  ghost predicate InSlice(sizes: seq<nat>, offsets: seq<nat>, i: nat, b: nat)
    requires |offsets| == |sizes| && i < |sizes|
  {
    offsets[i] <= b < offsets[i] + sizes[i]
  }

  lemma {:induction false} SumGrows(sizes: seq<nat>, i: nat, j: nat)
    requires i <= j <= |sizes|
    ensures Sum(sizes, i) <= Sum(sizes, j)
  {
    if i < j {
      SumGrows(sizes, i, j - 1);
    }
  }

  /** Two components never share a byte, and every slice lies in the buffer. */
  lemma SlicesAreDisjoint(sizes: seq<nat>, offsets: seq<nat>, i: nat, j: nat, b: nat)
    requires IsLayout(sizes, offsets) && i < |sizes| && j < |sizes|
    requires InSlice(sizes, offsets, i, b)
    ensures b < Sum(sizes, |sizes|)
    ensures InSlice(sizes, offsets, j, b) ==> i == j
  {
    SumGrows(sizes, i + 1, |sizes|);
    if i < j {
      SumGrows(sizes, i + 1, j);
    } else if j < i {
      SumGrows(sizes, j + 1, i);
    }
  }

  /** Together the slices cover the buffer. */
  lemma {:induction false} SlicesTile(sizes: seq<nat>, offsets: seq<nat>, n: nat, b: nat)
    requires IsLayout(sizes, offsets) && n <= |sizes| && b < Sum(sizes, n)
    ensures exists i: nat | i < |sizes| :: InSlice(sizes, offsets, i, b)
  {
    if b < Sum(sizes, n - 1) {
      SlicesTile(sizes, offsets, n - 1, b);
    } else {
      assert InSlice(sizes, offsets, n - 1, b);
    }
  }

  /** `id -= GLOB_MASK` on an unsigned */
  function Unmask(id: nat): nat {
    (id - GLOB_MASK) % TWO32
  }

  function Mask(i: nat): nat {
    (i + GLOB_MASK) % TWO32
  }

  /** Among all 2^32 ids exactly the masked component numbers pass the range test, each as its own
      component. */
  lemma ExactlyMaskedIdsPass(id: nat, n: nat)
    requires id < TWO32 && n <= TWO32
    ensures Unmask(id) < n <==> exists i: nat | i < n :: id == Mask(i)
    ensures forall i: nat | i < n :: Mask(i) == (0x626f_6c67 + i) % 0x1_0000_0000
    ensures forall i: nat | i < n && id == Mask(i) :: Unmask(id) == i
  {
    if Unmask(id) < n {
      assert Mask(Unmask(id)) == id;
    }
  }

  /** Component i's part of a buffer. */
  ghost function Slice(sizes: seq<nat>, offsets: seq<nat>, buffer: seq<nat>, i: nat): (r: seq<nat>)
    requires IsLayout(sizes, offsets) && i < |sizes| && |buffer| == Sum(sizes, |sizes|)
    ensures |r| == sizes[i]
  {
    SumGrows(sizes, i + 1, |sizes|);
    buffer[offsets[i]..offsets[i] + sizes[i]]
  }

  /** A write inside one slice leaves every other slice of that buffer as it was. */
  lemma WriteStaysInSlice(sizes: seq<nat>, offsets: seq<nat>, buffer: seq<nat>, i: nat, k: nat, value: nat, j: nat)
    requires IsLayout(sizes, offsets) && |buffer| == Sum(sizes, |sizes|)
    requires i < |sizes| && k < sizes[i] && j < |sizes| && j != i
    ensures offsets[i] + k < |buffer|
    ensures Slice(sizes, offsets, buffer[offsets[i] + k := value], j) == Slice(sizes, offsets, buffer, j)
  {
    SlicesAreDisjoint(sizes, offsets, i, j, offsets[i] + k);
    SumGrows(sizes, j + 1, |sizes|);
    var after := buffer[offsets[i] + k := value];
    assert after[offsets[j]..offsets[j] + sizes[j]] == buffer[offsets[j]..offsets[j] + sizes[j]];
  }

  /** The statics of globals.c that concern storage, and each thread's buffer. */
  class Storage {
    const sizes: seq<nat>                // comp_info[].init_comp->static_buf_size
    var offsets: seq<nat>                // comp_info[].glob_ofs
    var globSize: nat
    var buffers: map<nat, seq<nat>>      // by thread
    var cleanups: seq<(nat, nat, nat)>   // cleanup_fn calls: thread, component, offset passed

    ghost predicate Valid()
      reads this
    {
      && 0 < |sizes| <= TWO32 && |offsets| == |sizes|
      && (globSize != 0 || buffers != map[] ==> IsLayout(sizes, offsets))
      && (globSize == 0 || globSize == Sum(sizes, |sizes|))
      && forall t | t in buffers :: |buffers[t]| == Sum(sizes, |sizes|)
    }

    constructor (sizes: seq<nat>)
      requires 0 < |sizes| <= TWO32
      ensures Valid() && this.sizes == sizes && globSize == 0 && buffers == map[] && cleanups == []
    {
      this.sizes := sizes;
      offsets := seq(|sizes|, _ => 0);
      globSize, buffers, cleanups := 0, map[], [];
    }

    /** The layout loop of sg_comp_init */
    method Layout()
      requires Valid()
      modifies this`offsets, this`globSize
      ensures Valid() && IsLayout(sizes, offsets) && globSize == Sum(sizes, |sizes|)
    {
      globSize := 0;
      var i := 0;
      while i < |sizes|
        invariant 0 <= i <= |sizes| && |offsets| == |sizes| && globSize == Sum(sizes, i)
        invariant forall k | 0 <= k < i :: offsets[k] == Sum(sizes, k)
      {
        offsets := offsets[i := globSize];
        globSize := globSize + sizes[i];
        i := i + 1;
      }
    }

    /** sg_comp_destroy forgets the size but not the offsets */
    method Forget()
      requires Valid()
      modifies this`globSize
      ensures Valid() && globSize == 0
    {
      globSize := 0;
    }

    /** sg_comp_get_tls with sg_alloc_globals: `at` is the offset of the slice in thread t's buffer,
        -1 is NULL. A thread without a buffer gets a zeroed one if the layout is in force. */
    method GetTls(t: nat, id: nat) returns (at: int)
      requires Valid() && id < TWO32
      modifies this`buffers
      ensures Valid()
      ensures t in buffers <==> t in old(buffers) || globSize != 0
      ensures forall u | u in old(buffers) :: u in buffers && buffers[u] == old(buffers)[u]
      ensures forall u | u in buffers :: u == t || u in old(buffers)
      ensures t in buffers && t !in old(buffers) ==> forall k | 0 <= k < |buffers[t]| :: buffers[t][k] == 0
      ensures at != -1 <==> t in buffers && exists i: nat | i < |sizes| :: id == Mask(i)
      ensures forall i: nat | i < |sizes| && id == Mask(i) && t in buffers :: at == Sum(sizes, i)
    {
      if t !in buffers && globSize != 0 {
        buffers := buffers[t := seq(globSize, _ => 0)];
      }
      if t !in buffers {
        return -1;
      }
      ExactlyMaskedIdsPass(id, |sizes|);
      var i := Unmask(id);
      if i >= |sizes| {
        return -1;
      }
      return offsets[i];
    }

    /** sg_destroy_globals: every cleanup_fn once, last component first, on its own slice; then the
        whole buffer zeroed and given back. `wiped` is the buffer as it is freed. */
    method Destroy(t: nat) returns (wiped: seq<nat>)
      requires Valid() && t in buffers
      modifies this`buffers, this`cleanups
      ensures Valid() && buffers == old(buffers) - {t}
      ensures |cleanups| == |old(cleanups)| + |sizes| && old(cleanups) <= cleanups
      ensures forall i | 0 <= i < |sizes| :: cleanups[|cleanups| - 1 - i] == (t, i, Sum(sizes, i))
      ensures |wiped| == |old(buffers)[t]| && forall k | 0 <= k < |wiped| :: wiped[k] == 0
    {
      var i := |sizes|;
      var zeroSize := offsets[i - 1] + sizes[i - 1];
      while i > 0
        invariant 0 <= i <= |sizes| && buffers == old(buffers)
        invariant |cleanups| == |old(cleanups)| + (|sizes| - i) && old(cleanups) <= cleanups
        invariant forall k | i <= k < |sizes| :: cleanups[|old(cleanups)| + (|sizes| - 1 - k)] == (t, k, Sum(sizes, k))
      {
        i := i - 1;
        cleanups := cleanups + [(t, i, offsets[i])];
      }
      wiped := seq(zeroSize, _ => 0) + buffers[t][zeroSize..];
      buffers := buffers - {t};
    }

    /** A component storing through the pointer it was given */
    method Store(t: nat, i: nat, k: nat, value: nat)
      requires Valid() && t in buffers && i < |sizes| && k < sizes[i]
      modifies this`buffers
      ensures Valid() && buffers.Keys == old(buffers).Keys
      ensures forall u, j | u in buffers && 0 <= j < |sizes| && (u, j) != (t, i) ::
                Slice(sizes, offsets, buffers[u], j) == Slice(sizes, offsets, old(buffers)[u], j)
      ensures Slice(sizes, offsets, buffers[t], i) == Slice(sizes, offsets, old(buffers)[t], i)[k := value]
    {
      SlicesAreDisjoint(sizes, offsets, i, i, offsets[i] + k);
      forall j | 0 <= j < |sizes| && j != i
        ensures Slice(sizes, offsets, buffers[t][offsets[i] + k := value], j) == Slice(sizes, offsets, buffers[t], j)
      {
        WriteStaysInSlice(sizes, offsets, buffers[t], i, k, value, j);
      }
      SumGrows(sizes, i + 1, |sizes|);
      var buffer: seq<nat> := buffers[t];
      buffer := buffer[offsets[i] + k := value];
      buffers := buffers[t := buffer];
    }
  }
}
