/** The page-sized chunks of process ids in src/libstatgrab/process_stats.c: filled while /proc is
    scanned, and taken apart again by the Solaris loop that reads one process after another. */
module PidChunks {
  /** Sizes in bytes: a page, the chunk header in front of the items, one pid_t. */
  datatype Geometry = Geometry(page: nat, header: nat, pidSize: nat)

  ghost predicate ValidGeometry(g: Geometry) {
    g.pidSize > 0 && g.header + g.pidSize <= g.page
  }

  /** PIPD_IS_FULL */
  predicate IsFull(g: Geometry, nitems: nat) {
    g.header + (nitems + 1) * g.pidSize > g.page
  }

  /** How many ids fit behind the header of one page. */
  function Capacity(g: Geometry): nat
    requires ValidGeometry(g)
  {
    (g.page - g.header) / g.pidSize
  }

  /** The full test is exact: it says no just when one more id still fits the page. */
  lemma FullMeansCapacity(g: Geometry, nitems: nat)
    requires ValidGeometry(g)
    ensures IsFull(g, nitems) <==> nitems >= Capacity(g)
    ensures Capacity(g) >= 1
  {
    var room, n := g.page - g.header, nitems + 1;
    assert room == Capacity(g) * g.pidSize + room % g.pidSize;
    if n <= Capacity(g) {
      assert (Capacity(g) - n) * g.pidSize >= 0;
      assert n * g.pidSize == Capacity(g) * g.pidSize - (Capacity(g) - n) * g.pidSize;
    } else {
      assert (n - Capacity(g) - 1) * g.pidSize >= 0;
      assert n * g.pidSize == Capacity(g) * g.pidSize + g.pidSize + (n - Capacity(g) - 1) * g.pidSize;
    }
  }

  /** What a chunk holds stays inside its page. */
  lemma ChunkFitsPage(g: Geometry, nitems: nat)
    requires ValidGeometry(g) && nitems <= Capacity(g)
    ensures g.header + nitems * g.pidSize <= g.page
  {}

  /** struct pids_in_proc_dir_t */
  class Chunk {
    var nitems: nat
    var next: Chunk?
    const items: array<int>

    constructor (capacity: nat)
      ensures nitems == 0 && next == null && fresh(items) && items.Length == capacity
    {
      nitems, next := 0, null;
      items := new int[capacity];
    }
  }

  /** The pages that malloc has given out and free has not taken back; only those may be looked at. */
  class Memory {
    var live: set<Chunk>

    constructor ()
      ensures live == {}
    {
      live := {};
    }

    /** alloc_pids_in_proc_dir */
    method Alloc(capacity: nat) returns (c: Chunk)
      modifies this
      ensures fresh(c) && fresh(c.items) && c.nitems == 0 && c.next == null && c.items.Length == capacity
      ensures live == old(live) + {c}
    {
      c := new Chunk(capacity);
      live := live + {c};
    }

    method Free(c: Chunk)
      requires c in live
      modifies this
      ensures live == old(live) - {c}
    {
      live := live - {c};
    }

    function Count(c: Chunk): nat
      requires c in live
      reads this, c
    {
      c.nitems
    }

    function Next(c: Chunk): Chunk?
      requires c in live
      reads this, c
    {
      c.next
    }

    function Id(c: Chunk, k: nat): int
      requires c in live && k < c.nitems <= c.items.Length
      reads this, c, c.items
    {
      c.items[k]
    }
  }

  /** The ids of the pages, in order. */
  ghost function Flatten(pages: seq<seq<int>>): seq<int> {
    if |pages| == 0 then []
    else Flatten(pages[..|pages| - 1]) + pages[|pages| - 1]
  }

  /** The chain of chunks that scan_proc_dir builds, with the chunk it appends to. */
  class PidList {
    const g: Geometry
    const mem: Memory
    ghost const cap: nat
    var first: Chunk
    var last: Chunk
    ghost var chunks: seq<Chunk>
    ghost var pages: seq<seq<int>>   // what each chunk holds

    ghost predicate Valid()
      reads this, mem, chunks, set c | c in chunks :: c.items
    {
      && ValidGeometry(g) && cap == Capacity(g) >= 1
      && |chunks| == |pages| > 0 && first == chunks[0] && last == chunks[|chunks| - 1]
      && (forall i | 0 <= i < |chunks| :: Holds(cap, chunks[i], pages[i]))
      && (forall i {:trigger chunks[i].next} | 0 <= i < |chunks| - 1 :: chunks[i].next == chunks[i + 1])
      && last.next == null
      && (forall i | 0 <= i < |chunks| :: chunks[i] in mem.live)
      && (forall i, j | 0 <= i < j < |chunks| :: chunks[i] != chunks[j] && chunks[i].items != chunks[j].items)
    }

    ghost function Contents(): seq<int>
      reads this
    {
      Flatten(pages)
    }

    constructor (g: Geometry, mem: Memory)
      requires ValidGeometry(g)
      modifies mem
      ensures Valid() && this.g == g && this.mem == mem && Contents() == []
      ensures fresh(set c | c in chunks) && fresh(set c | c in chunks :: c.items)
    {
      FullMeansCapacity(g, 0);
      this.g, this.mem, this.cap := g, mem, Capacity(g);
      var c := mem.Alloc(Capacity(g));
      first, last, chunks, pages := c, c, [c], [[]];
      new;
      assert pages[..0] == [];
    }

    /** add_pid_to_pids_in_proc_dir */
    method Add(pid: int)
      requires Valid()
      modifies this, mem, last, last.items
      ensures Valid()
      ensures Contents() == old(Contents()) + [pid]
      ensures chunks == old(chunks) || (|chunks| == |old(chunks)| + 1 && old(chunks) <= chunks && fresh(last) && fresh(last.items))
    {
      var full := TailIsFull();
      if full {
        AddChunk();
      }
      Put(pid);
    }

    /** A full tail gets a successor. */
    method AddChunk()
      requires Valid()
      modifies this, mem, last`next
      ensures Valid() && fresh(last) && fresh(last.items) && last.nitems == 0
      ensures Contents() == old(Contents())
      ensures |chunks| == |old(chunks)| + 1 && old(chunks) <= chunks
    {
      var c := mem.Alloc(Capacity(g));
      Attach(c);
    }

    /** `pipd->next` is set to a new page */
    method Attach(c: Chunk)
      requires Valid() && c in mem.live && c.nitems == 0 && c.next == null && c.items.Length == cap
      requires forall i | 0 <= i < |chunks| :: chunks[i] != c && chunks[i].items != c.items
      modifies this, last`next
      ensures Valid() && last == c && chunks == old(chunks) + [c] && Contents() == old(Contents())
    {
      last.next := c;
      last := c;
      chunks, pages := chunks + [c], pages + [[]];
      assert pages[..|pages| - 1] == old(pages);
    }

    /** `pipd->items[pipd->nitems++] = pid` */
    method Put(pid: int)
      requires Valid() && last.nitems < cap
      modifies this`pages, last`nitems, last.items
      ensures Valid() && Contents() == old(Contents()) + [pid]
    {
      ghost var n := |pages| - 1;
      ghost var ids := pages[n];
      last.items[last.nitems] := pid;
      last.nitems := last.nitems + 1;
      assert Holds(cap, last, ids + [pid]);
      pages := pages[n := ids + [pid]];
      assert pages[..n] == old(pages)[..n];
    }

    method TailIsFull() returns (full: bool)
      requires Valid()
      ensures full <==> last.nitems >= cap
      ensures full <==> g.header + (last.nitems + 1) * g.pidSize > g.page
    {
      FullMeansCapacity(g, last.nitems);
      full := IsFull(g, last.nitems);
    }
  }

  /** A chunk that holds these ids and has the room of one page. */
  ghost predicate Holds(capacity: nat, c: Chunk, ids: seq<int>)
    reads c, c.items
  {
    c.items.Length == capacity && c.nitems <= capacity && c.items[..c.nitems] == ids
  }

  // ---- freeing -----------------------------------------------------------------------------------

  /** Chunk c of a chain, or the NULL at its end. */
  ghost function ChunkAt(chunks: seq<Chunk>, c: nat): Chunk? {
    if c < |chunks| then chunks[c] else null
  }

  /** Different chunks, each pointing at the next. */
  ghost predicate Linked(chunks: seq<Chunk>)
    reads chunks
  {
    && (forall i {:trigger chunks[i].next} | 0 <= i < |chunks| :: chunks[i].next == ChunkAt(chunks, i + 1))
    && forall i, j | 0 <= i < j < |chunks| :: chunks[i] != chunks[j]
  }

  /** Of these chunks the first c are freed and the others are not. */
  ghost predicate FreedUpTo(live: set<Chunk>, chunks: seq<Chunk>, c: nat) {
    forall i | 0 <= i < |chunks| :: chunks[i] in live <==> c <= i
  }

  /** Nothing but these chunks has been freed. */
  ghost predicate OnlyThese(live: set<Chunk>, before: set<Chunk>, chunks: seq<Chunk>) {
    live <= before && forall x | x in before && x !in chunks :: x in live
  }

  /** free_pids_in_proc_dir; what is freed here was not freed before, and nothing else is freed */
  method FreeChunks(mem: Memory, ghost chunks: seq<Chunk>, ghost c: nat, first: Chunk?, includeChildren: bool) returns (next: Chunk?)
    requires Linked(chunks) && c <= |chunks| && first == ChunkAt(chunks, c) && FreedUpTo(mem.live, chunks, c)
    modifies mem
    ensures FreedUpTo(mem.live, chunks, if includeChildren || c == |chunks| then |chunks| else c + 1)
    ensures OnlyThese(mem.live, old(mem.live), chunks)
    ensures next == if includeChildren then null else ChunkAt(chunks, c + 1)
  {
    next := null;
    var chunk := first;
    ghost var k := c;
    while chunk != null
      invariant c <= k <= |chunks| && FreedUpTo(mem.live, chunks, k) && (includeChildren || k <= c + 1)
      invariant chunk == if includeChildren || k == c then ChunkAt(chunks, k) else null
      invariant next == if k == c then null else ChunkAt(chunks, k)
      invariant OnlyThese(mem.live, old(mem.live), chunks)
      decreases |chunks| - k
    {
      next := mem.Next(chunk);
      mem.Free(chunk);
      chunk := if includeChildren then next else null;
      k := k + 1;
    }
  }

  // ---- the reading loop --------------------------------------------------------------------------

  /** What a look-up gives: the process has vanished, here it is, or there is no memory for its strings. */
  datatype Lookup<P> = Gone | Found(process: P) | NoMemory

  /** What the first n look-ups found, in order. */
  ghost function Readable<P>(n: nat, look: nat -> Lookup<P>): seq<P> {
    if n == 0 then []
    else
      var before := Readable(n - 1, look);
      if look(n - 1).Found? then before + [look(n - 1).process] else before
  }

  /** That is one entry for each look-up that found its process, in increasing order. */
  lemma {:induction false} ReadableIsFilter<P>(n: nat, look: nat -> Lookup<P>, at: seq<nat>)
    requires forall k | 0 <= k < |at| :: at[k] < n
    requires forall j, k | 0 <= j < k < |at| :: at[j] < at[k]
    requires forall i: nat | i < n :: look(i).Found? <==> i in at
    ensures |Readable(n, look)| == |at|
    ensures forall k | 0 <= k < |at| :: look(at[k]) == Found(Readable(n, look)[k])
  {
    assert |at| > 0 ==> at[0] < n;
    if n > 0 {
      if look(n - 1).Found? {
        var m := |at| - 1;
        assert at[m] == n - 1 by {
          var k :| 0 <= k < |at| && at[k] == n - 1;
        }
        ReadableIsFilter(n - 1, look, at[..m]);
      } else {
        ReadableIsFilter(n - 1, look, at);
      }
    }
  }

  /** The ids of the first c pages and the first k of the next. */
  ghost function UpTo(pages: seq<seq<int>>, c: nat, k: nat): seq<int>
    requires c <= |pages| && k <= if c < |pages| then |pages[c]| else 0
  {
    Flatten(pages[..c]) + if c < |pages| then pages[c][..k] else []
  }

  lemma UpToSteps(pages: seq<seq<int>>, c: nat, k: nat)
    requires c < |pages| && k <= |pages[c]|
    ensures k == |pages[c]| ==> UpTo(pages, c, k) == UpTo(pages, c + 1, 0)
    ensures k < |pages[c]| ==> UpTo(pages, c, k + 1) == UpTo(pages, c, k) + [pages[c][k]]
  {
    assert pages[..c + 1][..c] == pages[..c];
    if k < |pages[c]| {
      assert pages[c][..k + 1] == pages[c][..k] + [pages[c][k]];
    } else {
      assert pages[c][..k] == pages[c];
    }
  }

  lemma UpToEnds(pages: seq<seq<int>>)
    ensures UpTo(pages, 0, 0) == [] && UpTo(pages, |pages|, 0) == Flatten(pages)
  {
    assert pages[..|pages|] == pages && pages[..0] == [];
  }

  /** sg_vector_resize on the process vector: the first items stay, new ones are blank. */
  function Resize<P>(v: seq<P>, n: nat, blank: P): (r: seq<P>)
    ensures |r| == n && forall i | 0 <= i < n && i < |v| :: r[i] == v[i]
  {
    if n <= |v| then v[..n] else v + seq(n - |v|, _ => blank)
  }

  /** The vector holds what n look-ups found, and has slots for `rest` more. */
  ghost predicate Stored<P>(procs: seq<P>, procItems: nat, n: nat, look: nat -> Lookup<P>, rest: nat) {
    procItems + rest <= |procs| && procs[..procItems] == Readable(n, look)
  }

  lemma StoredResized<P>(procs: seq<P>, procItems: nat, n: nat, look: nat -> Lookup<P>, rest: nat, blank: P)
    requires Stored(procs, procItems, n, look, 0)
    ensures Stored(Resize(procs, procItems + rest, blank), procItems, n, look, rest)
  {
    assert Resize(procs, procItems + rest, blank)[..procItems] == procs[..procItems];
  }

  lemma StoredOneMore<P>(procs: seq<P>, procItems: nat, n: nat, look: nat -> Lookup<P>, rest: nat)
    requires Stored(procs, procItems, n, look, rest) && rest > 0
    ensures look(n).Gone? ==> Stored(procs, procItems, n + 1, look, rest - 1)
    ensures look(n).Found? ==> Stored(procs[procItems := look(n).process], procItems + 1, n + 1, look, rest - 1)
  {
    if look(n).Found? {
      assert procs[procItems := look(n).process][..procItems + 1] == procs[..procItems] + [look(n).process];
    }
  }

  /** The Solaris loop. Chunk after chunk, each freed once its ids are used up, the vector resized to
      what has been read so far plus the next chunk. `visited` records the ids looked up; `look` says what
      each look-up gives. Every chunk is freed if and only if no look-up runs out of memory: the error
      return frees nothing. */
  method ReadProcesses<P>(list: PidList, look: nat -> Lookup<P>, blank: P) returns (ok: bool, procs: seq<P>, visited: seq<int>)
    requires list.Valid()
    modifies list.mem
    ensures ok <==> forall k | 0 <= k < |list.Contents()| :: look(k) != NoMemory
    ensures ok ==> visited == list.Contents() && procs == Readable(|visited|, look)
    ensures !ok ==> visited <= list.Contents() && visited != [] && look(|visited| - 1) == NoMemory
    ensures ok <==> forall x | x in list.chunks :: x !in list.mem.live
    ensures OnlyThese(list.mem.live, old(list.mem.live), list.chunks)
  {
    ghost var chunks, pages := list.chunks, list.pages;
    UpToEnds(pages);
    ghost var c, k;
    ok, procs, visited, c, k := Walk(list.mem, chunks, pages, list.first, look, blank);
    UpToIsPrefix(pages, c, k);
    assert !ok ==> chunks[c] in list.mem.live;
  }

  lemma {:induction false} UpToIsPrefix(pages: seq<seq<int>>, c: nat, k: nat)
    requires c <= |pages| && k <= if c < |pages| then |pages[c]| else 0
    ensures UpTo(pages, c, k) <= Flatten(pages)
    decreases |pages|
  {
    var n := |pages| - 1;
    if c == |pages| {
      assert pages[..c] == pages;
    } else if c == n {
      assert pages[n][..k] <= pages[n];
    } else {
      UpToIsPrefix(pages[..n], c, k);
      assert pages[..n][..c] == pages[..c];
    }
  }

  /** Each chunk holds its ids. */
  ghost predicate AllHold(chunks: seq<Chunk>, pages: seq<seq<int>>)
    reads chunks, set x | x in chunks :: x.items
  {
    && |pages| == |chunks|
    && forall i | 0 <= i < |chunks| ::
         chunks[i].nitems <= chunks[i].items.Length && chunks[i].items[..chunks[i].nitems] == pages[i]
  }

  /** The loop stands at id k of chunk c, everything before it looked up without running out of memory. */
  ghost predicate At<P>(chunks: seq<Chunk>, pages: seq<seq<int>>, c: nat, chunk: Chunk?, k: nat, visited: seq<int>, look: nat -> Lookup<P>)
  {
    && |pages| == |chunks| && c <= |chunks| && chunk == ChunkAt(chunks, c)
    && k <= (if c < |chunks| then |pages[c]| else 0)
    && visited == UpTo(pages, c, k)
    && forall i | 0 <= i < |visited| :: look(i) != NoMemory
  }

  lemma AtNext<P>(chunks: seq<Chunk>, pages: seq<seq<int>>, c: nat, k: nat, visited: seq<int>, look: nat -> Lookup<P>)
    requires c < |chunks| && At(chunks, pages, c, chunks[c], k, visited, look)
    ensures k == |pages[c]| ==> At(chunks, pages, c + 1, ChunkAt(chunks, c + 1), 0, visited, look)
    ensures k < |pages[c]| ==> visited + [pages[c][k]] == UpTo(pages, c, k + 1)
    ensures k < |pages[c]| && look(|visited|) != NoMemory ==> At(chunks, pages, c, chunks[c], k + 1, visited + [pages[c][k]], look)
  {
    UpToSteps(pages, c, k);
  }

  /** What is left to look up in chunk c. */
  ghost function Rest(pages: seq<seq<int>>, c: nat, k: nat): nat {
    if c < |pages| && k <= |pages[c]| then |pages[c]| - k else 0
  }

  /** The state of the loop: where it stands, what is freed, and what the vector holds. */
  ghost predicate Going<P>(live: set<Chunk>, before: set<Chunk>, chunks: seq<Chunk>, pages: seq<seq<int>>, c: nat, chunk: Chunk?, k: nat,
                           visited: seq<int>, look: nat -> Lookup<P>, procs: seq<P>, procItems: nat)
  {
    && At(chunks, pages, c, chunk, k, visited, look)
    && FreedUpTo(live, chunks, c) && OnlyThese(live, before, chunks)
    && Stored(procs, procItems, |visited|, look, Rest(pages, c, k))
  }

  /** A used-up chunk is freed, and the vector resized for the next one. */
  method NextChunk<P>(mem: Memory, ghost before: set<Chunk>, ghost chunks: seq<Chunk>, ghost pages: seq<seq<int>>, ghost c: nat, chunk: Chunk,
                      ghost visited: seq<int>, ghost look: nat -> Lookup<P>, v: seq<P>, procItems: nat, blank: P)
    returns (next: Chunk?, procs: seq<P>)
    requires Linked(chunks) && AllHold(chunks, pages) && c < |chunks|
    requires Going(mem.live, before, chunks, pages, c, chunk, |pages[c]|, visited, look, v, procItems)
    modifies mem
    ensures Going(mem.live, before, chunks, pages, c + 1, next, 0, visited, look, procs, procItems)
  {
    AtNext(chunks, pages, c, |pages[c]|, visited, look);
    procs := v;
    next := FreeChunks(mem, chunks, c, chunk, false);
    if next != null {
      StoredResized(procs, procItems, |visited|, look, mem.Count(next), blank);
      procs := Resize(procs, procItems + mem.Count(next), blank);
    }
  }

  /** A process that was found goes into the next slot, which there is. */
  method Store<P>(v: seq<P>, items: nat, found: Lookup<P>, ghost n: nat, ghost look: nat -> Lookup<P>, ghost rest: nat)
    returns (procs: seq<P>, procItems: nat)
    requires found == look(n) != NoMemory && Stored(v, items, n, look, rest) && rest > 0
    ensures Stored(procs, procItems, n + 1, look, rest - 1)
  {
    StoredOneMore(v, items, n, look, rest);
    procs, procItems := v, items;
    if found.Found? {
      procs := procs[procItems := found.process];
      procItems := procItems + 1;
    }
  }

  /** One id looked up: the loop stands at the next one. */
  method Take<P>(ghost live: set<Chunk>, ghost before: set<Chunk>, ghost chunks: seq<Chunk>, ghost pages: seq<seq<int>>, ghost c: nat,
                 chunk: Chunk, k: nat, v: seq<int>, id: int, found: Lookup<P>, ghost look: nat -> Lookup<P>, p: seq<P>, items: nat)
    returns (visited: seq<int>, procs: seq<P>, procItems: nat)
    requires Going(live, before, chunks, pages, c, chunk, k, v, look, p, items)
    requires c < |pages| && k < |pages[c]| && id == pages[c][k] && found == look(|v|) != NoMemory
    ensures Going(live, before, chunks, pages, c, chunk, k + 1, visited, look, procs, procItems)
  {
    AtNext(chunks, pages, c, k, v, look);
    visited := v + [id];
    procs, procItems := Store(p, items, found, |v|, look, Rest(pages, c, k));
  }

  /** How the loop ends: all chunks used up, or at an id whose look-up ran out of memory. */
  ghost predicate Ended<P>(ok: bool, procs: seq<P>, pages: seq<seq<int>>, c: nat, k: nat, visited: seq<int>, look: nat -> Lookup<P>) {
    && c <= |pages| && k <= (if c < |pages| then |pages[c]| else 0) && visited == UpTo(pages, c, k)
    && if ok then c == |pages| && procs == Readable(|visited|, look) && forall i | 0 <= i < |visited| :: look(i) != NoMemory
       else c < |pages| && visited != [] && look(|visited| - 1) == NoMemory && forall i | 0 <= i < |visited| - 1 :: look(i) != NoMemory
  }

  lemma EndsWell<P>(chunks: seq<Chunk>, pages: seq<seq<int>>, c: nat, k: nat, visited: seq<int>, look: nat -> Lookup<P>, procs: seq<P>,
                    procItems: nat, blank: P)
    requires At(chunks, pages, c, null, k, visited, look) && Stored(procs, procItems, |visited|, look, 0)
    ensures c == |chunks| && Ended(true, Resize(procs, procItems, blank), pages, c, k, visited, look)
  {}

  lemma EndsBadly<P>(chunks: seq<Chunk>, pages: seq<seq<int>>, c: nat, k: nat, visited: seq<int>, look: nat -> Lookup<P>, procs: seq<P>)
    requires c < |chunks| && At(chunks, pages, c, chunks[c], k, visited, look) && k < |pages[c]| && look(|visited|) == NoMemory
    ensures Ended(false, procs, pages, c, k + 1, visited + [pages[c][k]], look)
  {
    AtNext(chunks, pages, c, k, visited, look);
  }

  method Walk<P>(mem: Memory, ghost chunks: seq<Chunk>, ghost pages: seq<seq<int>>, first: Chunk, look: nat -> Lookup<P>, blank: P)
    returns (ok: bool, procs: seq<P>, visited: seq<int>, ghost c: nat, ghost k: nat)
    requires Linked(chunks) && AllHold(chunks, pages) && FreedUpTo(mem.live, chunks, 0) && |chunks| > 0 && first == chunks[0]
    modifies mem
    ensures FreedUpTo(mem.live, chunks, c) && OnlyThese(mem.live, old(mem.live), chunks)
    ensures Ended(ok, procs, pages, c, k, visited, look)
  {
    UpToEnds(pages);
    var chunk: Chunk? := first;
    var pidItem: nat, procItems: nat := 0, 0;
    procs := Resize([], procItems + mem.Count(first), blank);
    visited := [];
    c := 0;
    while chunk != null
      invariant Going(mem.live, old(mem.live), chunks, pages, c, chunk, pidItem, visited, look, procs, procItems)
      decreases |chunks| - c, Rest(pages, c, pidItem)
    {
      if mem.Count(chunk) <= pidItem {
        chunk, procs := NextChunk(mem, old(mem.live), chunks, pages, c, chunk, visited, look, procs, procItems, blank);
        c := c + 1;
        pidItem := 0;
        continue;
      }
      var found, id := look(|visited|), mem.Id(chunk, pidItem);
      assert id == pages[c][pidItem];
      if found == NoMemory {
        EndsBadly(chunks, pages, c, pidItem, visited, look, procs);
        return false, procs, visited + [id], c, pidItem + 1;
      }
      visited, procs, procItems := Take(mem.live, old(mem.live), chunks, pages, c, chunk, pidItem, visited, id, found, look, procs, procItems);
      pidItem := pidItem + 1;
    }
    EndsWell(chunks, pages, c, pidItem, visited, look, procs, procItems, blank);
    if procItems != |procs| {
      procs := Resize(procs, procItems, blank);
    }
    return true, procs, visited, c, pidItem;
  }

  /** One process, and no memory for its strings: its page is never freed. */
  method FailedLookUpLeaks(g: Geometry) returns (live: set<Chunk>)
    requires ValidGeometry(g)
    ensures live != {}
  {
    var mem := new Memory();
    var list := new PidList(g, mem);
    list.Add(1);
    var ok, _, _ := ReadProcesses<int>(list, _ => NoMemory, 0);
    live := mem.live;
  }
}
