# libstatgrab: a verified model of its engine

libstatgrab reads system statistics and hands them out as snapshots and as differences between
snapshots. The operating-system probes are thin; underneath them sits an engine that the whole library
shares. This project models that engine in Dafny and proves what its users rely on:

- the `sg_vector` store: block-rounded capacity, item life cycle, cloning (`Vector.dfy`, `VectorRuns.dfy`);
- subtracting one snapshot from another by key, in place and with a bit array (`Bits.dfy`,
  `VectorDiff.dfy`), what that conserves (`KeyedDiff.dfy`), and the counter arithmetic in it
  (`Counters.dfy`);
- the per-thread now/diff slots, which are such vectors, over whole runs of calls (`Snapshots.dfy`,
  `MultiSnapshots.dfy`, `CounterRuns.dfy`);
- the component manager as a step system for any number of threads (`Components.dfy`), its named locks
  (`LockRegistry.dfy`) and its thread-local storage (`TlsLayout.dfy`);
- the utmp walk behind `sg_get_user_stats`, all threads sharing one cursor and one buffer (`UserWalk.dfy`);
- the `statgrab` command's query engine (`StatQuery.dfy`) and its `-F` argument with the library's list of
  valid file system types (`ValidFs.dfy`);
- the file system filter (`FsFilter.dfy`) and the chunked list of process ids (`PidChunks.dfy`);
- the start barrier and completion protocol of the multi-threaded test driver (`Barrier.dfy`).

`CString.dfy` and `Rearrange.dfy` hold the C library calls the tables depend on (`strcmp`, `strncmp`,
`qsort`, `bsearch`, lower case) and facts about reordered sequences; `Options.dfy` holds one datatype.

Readings, mount lists, directory scans, the success of a probe and the decisions of the allocator and the
scheduler are inputs: every theorem is for all of them. `dafny verify dfyconfig.toml` covers all files.

## How the model is built

Code that works in place is a class or a method with the same loops (`SgVector`, `BitSet`, `LockTable`,
`StatTable`, `PidList`, `FsTypes`, `Storage`, `MultiComponent`, `ComputeDiff`, `FindRange`, ...), proved
against a declarative specification; the theorems about runs are lemmas about those specifications.
Concurrent code is a step relation over one thread's moves, and a run is any interleaving of such steps.

Integers are unbounded except where width matters: counters are modulo 2^64, `size_t` rounding wraps
modulo 2^64, component ids and the reference count are modulo 2^32, bit arrays are arrays of 32-bit words.

Some things one would expect of the code do not hold everywhere. Each is kept as the code has it, the
exact condition under which it does hold is proved, and an input is given at which it fails:

- a vector created for no items records one block but has no slots: it is starved. Creation is well formed
  exactly for requests of at least one item (`VectorRuns.CreateIsSafe`), and the test that skips the
  reallocation leaves too few slots exactly for starved vectors and counts that round to the recorded one
  (`Vector.RoomIsMissingExactlyIfStarved`, `VectorRuns.EmptyCreateCannotHoldOne`);
- `sg_vector_clone_into` leaves `*dest` pointing at freed memory exactly when a destination with items meets
  a source without, and frees it twice exactly when a buffer it needs is refused (`Vector.CloneInto`,
  `Vector.EmptySourceDangles`, `Vector.RefusedBufferFreesTwice`);
- hence a diff call goes wrong exactly on a reading without items after a difference that had some, or on a
  one-item reading into a starved vector (`MultiSnapshots.DiffFaultsAsTold`,
  `MultiSnapshots.EmptyReadingFaults`, `MultiSnapshots.StarvedVectorFaults`). In all other cases
  `MultiSnapshots.MultiComponent.Diff` is proved to run through the vector code;
- traffic is conserved exactly for keys still present in the new snapshot, or whose old traffic was zero
  modulo 2^64 (`KeyedDiff.Conservation`, `KeyedDiff.LostDiskIsNotConserved`);
- differences of wrapping counters add up exactly when no step is as long as the register
  (`Counters.TotalIsExact`, `Counters.FullTurnIsLost`); the comment at src/libstatgrab/cpu_stats.c:388
  speaks of 32-bit quantities while the code wraps at 2^31, and on a 32-bit register it is right exactly when
  the register has not turned over (`Counters.CounterOn32BitRegister`, `Counters.CounterTurnsOver`);
- the reference count of the component manager is right exactly below 2^32 references
  (`Components.CounterIsExact`, `Components.CounterWraps`);
- its early error returns keep the global lock. After any run a call of any thread can come back if and only
  if the run had no early return (`Components.CallsReturnUnlessFailed`, `Components.FirstInitFails`); without
  one, whatever the scheduler does, the calls under way are over after a bounded number of steps
  (`Components.GoingOnEnds`); after one even the thread that got the error blocks, because the mutex is
  initialised without attributes (src/libstatgrab/globals.c:199; an error-checking attribute is prepared
  three lines before and not passed), hence neither recursive nor error-checking
  (`Components.NothingReturnsAfterwards`). All five returns are covered: a failing init_fn (line 302), the
  lock table that cannot be allocated or enlarged (277, 325), and the mutex attributes (352-361);
- the pages of process ids are all freed if and only if no look-up runs out of memory; the error return frees
  none (`PidChunks.ReadProcesses`, `PidChunks.FailedLookUpLeaks`);
- stats that share a name may come out of `qsort` in either order. Pruning never changes what can be printed
  (`StatQuery.PruningKeepsOutputs`); the lines for an argument are always the very same exactly when stats
  that match it under one name are equal (`StatQuery.PruningIsInvisible`, `StatQuery.LookAlikesShow`).

## Model

| member | source | states |
|---|---|---|
| Bits.WithBitRepresents | src/libstatgrab/tools.h:565-568 | BIT_SET on the word array adds exactly that one index to the set that BIT_ISSET reads back, within a word and across words |
| Bits.BitSet.constructor | src/libstatgrab/vector.c:346-351 | the zeroed array of n/32+1 words is the empty set with room for index n |
| Bits.BitSet.Set | src/libstatgrab/tools.h:565-566 | the array represents the old set plus the index |
| Bits.BitSet.Test | src/libstatgrab/tools.h:567-568 | the answer is membership in the set |
| Bits.BitSet.ScanForward | src/libstatgrab/tools.h:571-572 | where a later bit is set, the unbounded scan stops in range at the least one |
| VectorDiff.SubtractLast | src/libstatgrab/vector.c:354-363 | one pass over the old items turns one new item into its keyed difference, in place, and claims exactly the old items of its key |
| VectorDiff.SubtractAll | src/libstatgrab/vector.c:344-368 | for all inputs, duplicates included: same items, length and keys; the first item of a key has every old item of that key subtracted, later ones and unknown keys pass through |
| VectorDiff.DiffInto | src/libstatgrab/vector.c:326-368 | the destination's own items, topped up or cut down, hold the keyed difference; done, dangling or freed twice, each if and only if |
| VectorDiff.DiffClone | src/libstatgrab/vector.c:269-272 | without a destination the difference is a clone of its own; NULL exactly if it cannot be made |
| VectorDiff.ComputeDiff | src/libstatgrab/vector.c:319-381 | the same for arguments that may be missing: without a new snapshot the destination is freed and reset, without an old one it is the new one, without a destination one is made |
| KeyedDiff.DifferenceWithNothing | src/libstatgrab/vector.c:341-343 | against nothing every item passes through |
| KeyedDiff.DifferenceOneMore | src/libstatgrab/vector.c:353-363 | one more old item is subtracted from the first new item with its key and changes nothing else; the two laws determine every difference |
| KeyedDiff.SumOfDifference | src/libstatgrab/vector.c:353-368 | after any number of result items, the sum for a key is the new sum less the old sum as soon as the key has occurred, modulo 2^64 |
| KeyedDiff.Conservation | src/libstatgrab/vector.c:353-368 | per key and counter, for any multiplicities: result = new - old modulo 2^64 if and only if the key occurs in the new snapshot or its old sum is zero |
| KeyedDiff.DiskConservation | src/libstatgrab/disk_stats.c:222-235 | bytes read, bytes written and time are conserved for every disk present in the new snapshot |
| KeyedDiff.LostDiskIsNotConserved | src/libstatgrab/vector.c:365-370 | a disk that read five bytes and is gone: the sums differ |
| Counters.StepModulo | src/libstatgrab/network_stats.c:61-66 | the wrap-around formula gives the true step modulo the register width |
| Counters.TotalIsExact | src/libstatgrab/network_stats.c:56-71 | over any run of a monotone counter the differences never exceed, and equal, the true total if and only if every step is shorter than the register |
| Counters.TransferTotalIsExact | src/libstatgrab/network_stats.c:57-71 | transfer_diff adds up to the true total if and only if every step is below 2^32 |
| Counters.FullTurnIsLost | src/libstatgrab/network_stats.c:61-66 | a step of exactly 2^32 is reported as nothing |
| Counters.TransferValue | src/libstatgrab/network_stats.c:61-66 | transfer_diff on any two 64-bit readings: the plain difference, or 2^32 more if the newer one is less as a signed number |
| Counters.TransferIsPlain | src/libstatgrab/network_stats.c:62-63 | a counter below 2^63 that has not fallen is reported as it is |
| Counters.TransferAfterTurn | src/libstatgrab/network_stats.c:64-66 | for a register that turned over the reported step is the true one if and only if it is 32 bits wide |
| Counters.PlainTotal | src/libstatgrab/network_stats.c:57-71 | over any run of readings that never fall the differences add up to the truth, whatever the steps are |
| Counters.CounterTotalIsExact | src/libstatgrab/cpu_stats.c:387-398 | counter_diff's VM_METER branch does so for registers that turn over at 2^31 |
| Counters.CounterOn32BitRegister | src/libstatgrab/cpu_stats.c:387-398 | on a 32-bit register that branch is right if and only if the register did not turn over |
| Counters.CounterTurnsOver | src/libstatgrab/cpu_stats.c:392-397 | a 32-bit register that turned over: three events reported as 2^64 - 2^31 + 3 |
| Counters.CounterValue | src/libstatgrab/cpu_stats.c:387-398 | counter_diff's VM_METER branch on any two readings |
| Counters.CounterAfterTurn | src/libstatgrab/cpu_stats.c:392-397 | for a register that turned over the reported step is the true one if and only if its width is 2^31 |
| Vector.RoundUpIsLeastMultiple | src/libstatgrab/vector.c:95 | the rounding macro gives the least multiple of the block that holds the request, without wrapping |
| Vector.RoundUpOfZero | src/libstatgrab/vector.c:95-101 | a request for nothing wraps to nothing |
| Vector.BlockShift | src/libstatgrab/vector.c:124-129 | the loop finds the least power of two that is not below the block size |
| Vector.RoomIsMissingExactlyIfStarved | src/libstatgrab/vector.c:184-202 | a resize leaves a slot for every item unless the vector has none at all and the count rounds to the recorded capacity |
| Vector.SgVector.CreateInt | src/libstatgrab/vector.c:97-118 | a new vector has its items initialised and sound sizes; it has real room for both counts if and only if it is for at least one item |
| Vector.SgVector.InitNew | src/libstatgrab/vector.c:54-68 | exactly the slots from used to n get new items, one init_fn call each |
| Vector.SgVector.DestroyUnused | src/libstatgrab/vector.c:30-52 | exactly the items from n up are destroyed, last first, once each |
| Vector.DoomedSpelledOut | src/libstatgrab/vector.c:43-47 | the destroyed items, one by one, from the last down |
| Vector.SgVector.Clear | src/libstatgrab/vector.c:148-158 | all items are destroyed and the buffer stays |
| Vector.SgVector.Resize | src/libstatgrab/vector.c:160-209 | the first min(old, new) items stay, the rest are destroyed or initialised, the skip-realloc test leaves room for all; NULL exactly for zero or a refused buffer, with every item destroyed once |
| Vector.SgVector.Fit | src/libstatgrab/vector.c:186-202 | reallocated or not, there is a slot for each of n items and the first items are where they were |
| Vector.SgVector.GrowTo | src/libstatgrab/vector.c:186-204 | buffer and items for the larger count |
| Vector.SgVector.CopyItems | src/libstatgrab/vector.c:235-242 | every payload is the source's, the items stay the destination's own; if an item cannot be copied all are destroyed once |
| Vector.Clone | src/libstatgrab/vector.c:286-305 | a clone has new items with the same payloads and enough room although it records one block; NULL exactly if the block is refused or an item cannot be copied, with nothing left behind |
| Vector.CloneIntoExisting | src/libstatgrab/vector.c:217-247 | done, dangling, freed twice or failed, each if and only if; when done the destination's own items hold the source's payloads; otherwise all items have been destroyed once |
| Vector.CloneInto | src/libstatgrab/vector.c:249-284 | the same with a missing source, which frees the destination, and a missing destination, which becomes a clone |
| Vector.EmptySourceDangles | src/libstatgrab/vector.c:222-243 | two items overwritten by none: the pointer dangles |
| Vector.RefusedBufferFreesTwice | src/libstatgrab/vector.c:231-283 | one item overwritten by two with the buffer refused: freed twice |
| VectorRuns.CreateIsSafe | src/libstatgrab/vector.c:101-111 | a created vector is sound, and its real capacity covers its counts if and only if at least one item was asked for |
| VectorRuns.EmptyCreateCannotHoldOne | src/libstatgrab/vector.c:187-202 | grown to one item, a vector created for none keeps its empty buffer |
| VectorRuns.StepKeepsSound | src/libstatgrab/vector.c:97-381 | every create, resize, clear, free, clone, clone_into and compute_diff keeps the sizes of every vector sound and slot i live if and only if i < used |
| VectorRuns.StepKeepsAccounts | src/libstatgrab/vector.c:30-68 | every operation keeps every item either destroyed once or in exactly one slot of one vector |
| VectorRuns.RunKeepsInv | src/libstatgrab/vector.c:97-381 | both hold in every state of every run over any number of vectors |
| VectorRuns.CapacityCoversCounts | src/libstatgrab/vector.c:95-209 | in every run that never asks for a vector without items, the real capacity of every vector covers used and recorded counts, and no resize leaves fewer slots than items |
| VectorRuns.AllFreedIsBalanced | src/libstatgrab/vector.c:134-146 | once all vectors are freed destroy_fn has run as often as init_fn, once on each item |
| Snapshots.EasyComponent.Get | src/libstatgrab/globals.h:144-183 | the slot's one item is the reading, which becomes the latest of the history |
| Snapshots.EasyComponent.Diff | src/libstatgrab/globals.h:287-329 | returns the reading against the latest earlier one by get or diff, or as it is if there is none |
| Snapshots.EasyComponent.GetR | src/libstatgrab/globals.h:185-213 | the reading in a vector of its own; the slots are unchanged |
| Snapshots.EasyComponent.Between | src/libstatgrab/globals.h:331-358 | newer minus older argument in a vector of its own; zeros without the newer one, the newer one without the older; the slots are unchanged |
| Snapshots.Replay | src/libstatgrab/globals.h:144-358 | in any run of calls every reply is what the recorded calls before it mean, so that _r and _between calls change no later reply |
| Snapshots.RepliesSpelledOut | src/libstatgrab/globals.h:144-445 | in terms of the calls alone: get and _r return the reading, _between the difference of its arguments, diff the reading against that of the last get or diff before it, or the reading if there was none |
| Snapshots.BetweenTelescopes | src/libstatgrab/globals.h:331-445 | _between replies over arguments that follow on one another add up to the last argument less the first, modulo 2^64 |
| MultiSnapshots.Read | src/libstatgrab/vector.h:146-160 | a reader that resizes and fills the cleared vector, leaves it empty, or loses it by resizing it to nothing |
| MultiSnapshots.MultiComponent.Refill | src/libstatgrab/globals.h:229-236 | created or cleared, the now vector holds exactly the reading and the diff vector is untouched |
| MultiSnapshots.MultiComponent.Get | src/libstatgrab/globals.h:215-256 | the reply is the now vector with the reading, and both slots are what the history makes of them |
| MultiSnapshots.MultiComponent.Subtract | src/libstatgrab/globals.h:381-401 | clone, get, compute_diff and free on the vectors: the diff vector holds the keyed difference of the reading and the items that were there before |
| MultiSnapshots.MultiComponent.Diff | src/libstatgrab/globals.h:360-410 | unless the history says that it goes wrong, the call runs through and returns the reading against the latest earlier one by get or diff, readings that empty the slot included |
| MultiSnapshots.MultiComponent.GetR | src/libstatgrab/globals.h:258-285 | the reading in a vector of its own; both slots are unchanged |
| MultiSnapshots.MultiComponent.Between | src/libstatgrab/globals.h:412-445 | the keyed difference of any two vectors, newer minus older, those in the slots included, in a vector of its own; NULL if and only if the newer one is; both slots are unchanged |
| MultiSnapshots.Replay | src/libstatgrab/globals.h:215-445 | in any run of calls every reply is what the recorded calls before it mean, so that _r and _between calls change no later reply |
| MultiSnapshots.DiffBetween | src/libstatgrab/globals.h:412-445 | into a new one-slot vector the difference never faults, whatever the sizes |
| MultiSnapshots.MultiRunState | src/libstatgrab/globals.h:360-410 | after any run the now slot is the latest recorded reading and the sizes of the diff vector are what the history says |
| MultiSnapshots.DiffFaultsAsTold | src/libstatgrab/globals.h:377-391 | after any run the next diff call would use a freed vector or run past its slots if and only if the history says so |
| MultiSnapshots.NeverEmptyNeverFaults | src/libstatgrab/globals.h:378-391 | in runs without readings of no items no diff call faults |
| MultiSnapshots.EmptyReadingFaults | src/libstatgrab/vector.c:222-233 | readings of two, two and no items: the third diff call faults |
| MultiSnapshots.StarvedVectorFaults | src/libstatgrab/globals.h:378-379 | a reading of no items and then one of one item: the diff call faults |
| Snapshots.Telescopes | src/libstatgrab/globals.h:287-329 | in any run, everything diff calls returned plus what get calls skipped is the latest level modulo 2^64 |
| Snapshots.RepliesTelescope | src/libstatgrab/globals.h:287-445 | so do the replies that any run of calls got |
| Snapshots.DiffOnlyTelescopes | src/libstatgrab/globals.h:360-410 | without get calls the differences add up to the latest counter |
| MultiSnapshots.KeyedRunTelescopes | src/libstatgrab/globals.h:360-410 | this holds for every key present throughout, whatever its multiplicities |
| CounterRuns.CpuRunTelescopes | src/libstatgrab/cpu_stats.c:405-436 | it holds for every time field of the cpu statistics on every platform, and for the six counters where counter_diff is plain subtraction |
| CounterRuns.CpuMeterRunIsExact | src/libstatgrab/cpu_stats.c:387-398 | with the VM_METER branch, over any run of diff, _r and _between calls, each of the six counters adds up to the truth if and only if every step is below 2^31 |
| CounterRuns.CpuMeterRunIsPlain | src/libstatgrab/cpu_stats.c:387-398 | counters that never fall add up to the truth whatever the steps are |
| CounterRuns.CpuBetweenMissing | src/libstatgrab/cpu_stats.c:412-433 | against a missing reading the other passes through, and of a missing one nothing is left |
| CounterRuns.OnceDifference | src/libstatgrab/vector.c:353-363 | an item that occurs once on both sides is subtracted once and stays in place |
| CounterRuns.NetworkRunIsExact | src/libstatgrab/network_stats.c:73-86 | for a uniquely named interface, over any run of diff, _r and _between calls, what the diff calls return adds up to the truth, for each of the seven counters, if and only if every step is below 2^32 |
| CounterRuns.NetworkRunIsPlain | src/libstatgrab/network_stats.c:73-86 | counters of any width below 2^63 that never fall add up to the truth whatever the steps are |
| CounterRuns.NetworkTimeTelescopes | src/libstatgrab/network_stats.c:83 | the times of an interface telescope modulo 2^64 |
| UserWalk.StepKeepsInv | src/libstatgrab/user_stats.c:170-276 | every step of every thread keeps the walk's invariant over the shared cursor and buffer |
| UserWalk.RunKeepsInv | src/libstatgrab/user_stats.c:170-276 | it holds in every state of every interleaving |
| UserWalk.EveryCallReturnsTheUsers | src/libstatgrab/user_stats.c:170-276 | every successful call of every thread returned exactly the user processes in file order; at most one thread is inside; the mutex is free when all calls have returned, failed ones included |
| UserWalk.RepliesListTheUsers | src/libstatgrab/user_stats.c:179-266 | in terms of the two files alone: every successful reply lists exactly the user processes of the utmpx file by increasing index, or, if that has none, those of the utmp file |
| UserWalk.UsersOfIsFilter | src/libstatgrab/user_stats.c:179-205 | that result is the file with all other entries struck out |
| UserWalk.SomeThreadCanStep | src/libstatgrab/globals.c:108-152 | no interleaving deadlocks |
| UserWalk.EveryCallCanReturn | src/libstatgrab/user_stats.c:170-276 | every run, however far it has gone, can be continued until all calls have returned |
| Components.StepKeepsInv | src/libstatgrab/globals.c:245-413 | every step of balanced calls keeps counter, lock and component states in agreement |
| Components.RunKeepsInv | src/libstatgrab/globals.c:245-413 | they agree in every state of every interleaving |
| Components.LockFreeMeansAllOrNone | src/libstatgrab/globals.c:257-259 | whenever the lock is free each component has been initialised once more than destroyed if the counter is positive, and as often if it is zero |
| Components.GrantedMeansReady | src/libstatgrab/globals.c:283-305 | from the return of sg_init until its sg_shutdown begins all components are up, whoever holds the lock |
| Components.EarlierComponentsFirst | src/libstatgrab/globals.c:42-56 | at every moment the components that are up are the first of the table, so the error component is there for the others |
| Components.CounterIsExact | src/libstatgrab/globals.c:258 | the unsigned counter is the true reference count if and only if that is below 2^32 |
| Components.CounterWraps | src/libstatgrab/globals.c:258 | with 2^32 - 1 references held one more sets the counter to zero |
| Components.GoingOnEnds | src/libstatgrab/globals.c:257-413 | under any scheduling, calls under way take no more steps than a bound known beforehand |
| Components.WayToRest | src/libstatgrab/globals.c:257-413 | from every reachable state all calls under way can come back |
| Components.EarlyReturnLocks | src/libstatgrab/globals.c:277-361 | every early return leaves the lock held and everybody else outside |
| Components.NothingReturnsAfterwards | src/libstatgrab/globals.c:301-303 | in every continuation no call of any thread comes back: whoever makes one, the thread that got the error included, waits for the lock for ever |
| Components.CallsReturnUnlessFailed | src/libstatgrab/globals.c:245-413 | after any run, for any thread, a call can come back if and only if the run had no early return |
| Components.FirstInitFails | src/libstatgrab/globals.c:289-304 | one thread and one component whose init_fn fails: a run after which nothing comes back |
| LockRegistry.LockTable.constructor | src/libstatgrab/globals.c:275-280 | the table starts with the global lock alone |
| LockRegistry.LockTable.Find | src/libstatgrab/globals.c:108-118 | the lookup succeeds if and only if the name is in the table |
| LockRegistry.LockTable.CountNew | src/libstatgrab/globals.c:308-318 | new names are counted with repetitions |
| LockRegistry.LockTable.Append | src/libstatgrab/globals.c:338-341 | append and sort keep the table strictly sorted and add exactly that name |
| LockRegistry.LockTable.AppendNew | src/libstatgrab/globals.c:329-342 | with room for the counted names no append exceeds the table, even if a component repeats a name |
| LockRegistry.LockTable.AddComponent | src/libstatgrab/globals.c:308-342 | the table afterwards is strictly sorted and holds its old names and the component's |
| LockRegistry.BuildLocks | src/libstatgrab/globals.c:275-344 | after initialisation it holds exactly "statgrab" and all declared names, without duplicates |
| TlsLayout.SlicesAreDisjoint | src/libstatgrab/globals.c:267-270 | no byte belongs to two components, and every slice lies in the buffer |
| TlsLayout.SlicesTile | src/libstatgrab/globals.c:267-270 | every byte belongs to some component |
| TlsLayout.ExactlyMaskedIdsPass | src/libstatgrab/globals.c:523-527 | of all 32-bit ids exactly the masked component numbers are accepted, each as its own component |
| TlsLayout.WriteStaysInSlice | src/libstatgrab/globals.c:530 | a write through one slice leaves every other slice unchanged |
| TlsLayout.Storage.Layout | src/libstatgrab/globals.c:265-270 | the loop computes prefix sums and the total, and fits buffers that exist |
| TlsLayout.Storage.Forget | src/libstatgrab/globals.c:392 | shutdown resets the size without invalidating any buffer |
| TlsLayout.Storage.GetTls | src/libstatgrab/globals.c:415-531 | a zeroed buffer is made on first use while initialised; the slice is returned if and only if the id is a masked component number and there is a buffer |
| TlsLayout.Storage.Destroy | src/libstatgrab/globals.c:461-501 | every cleanup runs once, in reverse order, on its own slice, and exactly the allocated bytes are zeroed, also after shutdown reset the size |
| TlsLayout.Storage.Store | src/libstatgrab/globals.c:530 | storing through one thread's component slice changes no other slice of any thread |
| StatQuery.BuildName | src/statgrab/statgrab.c:150-185 | the measured buffer is filled exactly and holds the sanitised parts joined by dots |
| StatQuery.DottedSpelledOut | src/statgrab/statgrab.c:161-185 | the name character by character: part after part, one dot between, blanks and dots inside a part turned into underscores |
| StatQuery.StatTable.AddStat | src/statgrab/statgrab.c:137-199 | the table grows by exactly that stat; with -r numbers are kept and booleans, strings and duplex values are not; it never overruns |
| StatQuery.CompareIsMatch | src/statgrab/statgrab.c:201-214 | the comparators return zero exactly for the name, or exactly for names below the prefix |
| StatQuery.CompareBrackets | src/statgrab/statgrab.c:201-214 | on a table sorted by strcmp both comparators are fit for bsearch |
| StatQuery.FindRange | src/statgrab/statgrab.c:787-822 | the search widened left and right is all and only the matching stats, in order; unknown if and only if there are none |
| StatQuery.PrintStats | src/statgrab/statgrab.c:777-829 | the lines are one block per argument, in the order of the arguments and nothing else; block i shows every stat whose name is the argument, or begins with it if it ends in a dot, in table order, or complains if there is none; without arguments the whole table is shown |
| StatQuery.SectionsAreSectionNames | src/statgrab/statgrab.c:602-616 | the section names are distinct words with one final dot |
| StatQuery.OnlyOneSection | src/statgrab/statgrab.c:602-616 | no string starts with two of them |
| StatQuery.SelectInteresting | src/statgrab/statgrab.c:620-640 | a section is selected if and only if some argument starts with its name, or there are none, although each argument stops at its first section |
| StatQuery.GetStats | src/statgrab/statgrab.c:643-655 | the table is the sorted contents of the selected sections |
| StatQuery.GatherOneMore | src/statgrab/statgrab.c:643-652 | one more add_stat call adds its stat once, if its section is chosen and it is a number or -r was not given |
| CString.StrcmpSpelledOut | src/statgrab/statgrab.c:201-206 | the order of the table: names are compared at the first place where they differ or one ends |
| StatQuery.NameStartsWithSection | src/statgrab/statgrab.c:161-185 | every name add_stat builds for a section starts with the section's dotted name |
| StatQuery.QueryNamesItsSection | src/statgrab/statgrab.c:631-636 | an argument can only match names of a section it starts with |
| StatQuery.PruningKeepsMatches | src/statgrab/statgrab.c:643-652 | unsorted, selected and all sections hold the same matches in the same order |
| StatQuery.PruningPreservesAnswers | src/statgrab/statgrab.c:618-658 | sorted in whatever way ties fall, both tables give every non-empty argument the same stats under the same names, and both or neither complain |
| StatQuery.PruningIsInvisible | src/statgrab/statgrab.c:618-658 | however both are sorted the lines for an argument are the very same, if and only if stats that match it under one name are equal |
| StatQuery.LookAlikesShow | src/statgrab/statgrab.c:171-180 | two file systems told apart by a blank and a dot get one name, and their lines may come in either order |
| StatQuery.PruningKeepsOutputs | src/statgrab/statgrab.c:618-658 | for all arguments together, the chosen sections can print exactly the outputs that all sections can print |
| StatQuery.Query | src/statgrab/statgrab.c:618-829 | choosing, collecting, sorting and answering print, argument by argument, what the stats of all sections give; without arguments every stat of every section, sorted |
| StatQuery.QueryToplevels | src/statgrab/statgrab.c:602-616 | so it is for the program's own sections |
| ValidFs.TokensAreWords | src/statgrab/statgrab.c:913-931 | the non-empty tokens are exactly the words of the list; an empty one appears exactly when it begins with a separator |
| ValidFs.SameTypeIsLower | src/libstatgrab/disk_stats.c:247-259 | types are compared character by character, capital and small letters A to Z alike |
| ValidFs.FsTypes.IsValidType | src/libstatgrab/disk_stats.c:641-646 | the search answers whether the list holds a string that is the same type |
| ValidFs.FsTypes.SplitList | src/statgrab/statgrab.c:913-931 | one new string per token, in order |
| ValidFs.FsTypes.SetValid | src/libstatgrab/disk_stats.c:592-639 | the new list is sorted, owns its own copies and accepts exactly the given types; the old strings are freed after they were copied, once, and nothing else |
| ValidFs.FsTypes.Choose | src/statgrab/statgrab.c:948-995 | if the first character that is no blank is an exclamation mark, a type is valid afterwards if and only if it was and no stretch of the rest between blanks and commas is that type; otherwise if and only if some stretch of the argument is; no string leaks, dangles or is freed twice |
| ValidFs.FsTypes.Replace | src/statgrab/statgrab.c:983-992 | the plain-list branch |
| ValidFs.FsTypes.Remove | src/statgrab/statgrab.c:955-992 | the "!" branch |
| ValidFs.FsTypes.KeepUnlisted | src/statgrab/statgrab.c:975-980 | the loop keeps exactly the old types the given ones do not name |
| ValidFs.NamedByTheList | src/statgrab/statgrab.c:966-976 | a type is named by the list exactly if it is one of its words, case aside |
| FsFilter.MarkKept | src/libstatgrab/disk_stats.c:1228-1241 | the backward pass marks and counts exactly the mounts with a valid type that could be filled |
| FsFilter.CopyKept | src/libstatgrab/disk_stats.c:1249-1259 | every scan finds its bit before the last mount, and the copy loop ends with j == n |
| FsFilter.GetFsStats | src/libstatgrab/disk_stats.c:1218-1264 | the result is one item for each mount whose type is valid and which could be filled, by increasing index |
| FsFilter.KeptIsFilter | src/libstatgrab/disk_stats.c:1230-1256 | the specification is that filter, written out |
| PidChunks.FullMeansCapacity | src/libstatgrab/process_stats.c:181 | the full test says no exactly while one more id fits the page |
| PidChunks.ChunkFitsPage | src/libstatgrab/process_stats.c:181-195 | what a chunk holds stays inside its page |
| PidChunks.PidList.Add | src/libstatgrab/process_stats.c:183-198 | the flattened list is the old one followed by the id, over any number of chunks |
| PidChunks.FreeChunks | src/libstatgrab/process_stats.c:166-179 | one chunk or the rest of the chain is freed, each once, and nothing else; the next chunk is read before its predecessor is freed |
| PidChunks.ReadProcesses | src/libstatgrab/process_stats.c:366-439 | every id is looked up once, in order, in pages that are not freed; every write is below the vector's count; one entry per readable process is left; every page is freed once, if and only if no look-up runs out of memory |
| PidChunks.ReadableIsFilter | src/libstatgrab/process_stats.c:384-437 | the entries are those of the look-ups that found a process, by increasing position |
| PidChunks.FailedLookUpLeaks | src/libstatgrab/process_stats.c:403-407 | one process without memory for its strings: its page is not freed |
| Barrier.ReportFunctions | tests/testlib/routines.c:144-161 | the count equals the number of functions exactly when all have been done as often as needed |
| Barrier.RunKeepsInv | tests/multi_threaded/full_stats.c:70-107 | the protocol's invariant holds in every state of every interleaving |
| Barrier.NobodyRunsEarly | tests/multi_threaded/full_stats.c:76-92 | while any worker is in run_func or past it, all numthreads workers have checked in |
| Barrier.SequentialMeansOneAtATime | tests/multi_threaded/full_stats.c:87-97 | with -s at most one worker is in run_func |
| Barrier.LeavingMeansAllDone | tests/multi_threaded/full_stats.c:212-233 | when main leaves its report loop every worker has called run_func once and executed done_func, and every function has been done as often as needed, which is as often as it was assigned |
| Barrier.NoLostWakeup | tests/multi_threaded/full_stats.c:81-85 | once main has broadcast no worker sleeps on the condition |
| Barrier.EveryRunCanEnd | tests/multi_threaded/full_stats.c:70-233 | every run, however far it has gone, can be continued until main leaves its loop |

## Left out

- All operating-system probes (sysctl, kstat, /proc, perfstat, pstat, DLPI, IOKit, PDH, statvfs): each reader is an arbitrary supplied reading.
- saidar, the examples, option parsing and number formatting: user interface.
- Logging, error texts and `sg_strperror`.
- Windows, AIX and HP-UX branches: the pthread, Linux and Solaris branches are modelled.
- Floating-point percentages and load averages; memory, swap, load, page and host statistics: each copies fields of one structure (page statistics are another instance of `Snapshots.EasyComponent`).
- `sg_get_process_count_int` counts processes by state in one loop; `push_item` enlarges an array of pointers by a fixed step.
- The `succeeded` counter of tests/testlib/routines.c: it depends only on what the probes return and no loop reads it.
- The boot-time walk of src/libstatgrab/os_info.c over the same utmp cursor: it takes the same mutex in the same way.
- Failed get calls: runs of `Snapshots` and `MultiSnapshots` are runs of calls whose reader succeeds; after a reader that fails the slot holds whatever it had written so far.
- Allocation failure above the vector layer: `VECTOR_UPDATE` tests `!new_count` without parentheses (src/libstatgrab/vector.h:152), so for `n + 1` it carries on with a null pointer; `sg_vector_resize`, `sg_vector_clone`, `sg_vector_clone_into` and `sg_vector_compute_diff` themselves are modelled with a refusing allocator and a failing `copy_fn`.
- Locking the copied "statgrab" entry of the lock table by name: copying a pthread mutex has no defined meaning; only `sg_global_lock` and `sg_global_unlock` are modelled.
- `sg_network_iface_stats_item_copy` (src/libstatgrab/network_stats.c:110) takes destination and source in the other order than src/libstatgrab/vector.c:236 passes them; vectors of that item type are never cloned, so no result here depends on it.
- `qsort` and `bsearch` are stand-ins with the guarantees of the C standard; `strcasecmp` is that of the C locale; `1 << 31` in the bit macros is taken as the unsigned mask it is on the supported platforms.
- Reallocated blocks are fresh arrays; addresses are modelled only for the strings of `ValidFs` and as freed or not for vectors.
