# HawkSet, verified

A model of HawkSet's race detector for persistent memory, with proofs about it. The model starts where the instrumentation ends: every callback into the detector (store, flush, fence, read-modify-write, load, lock, unlock, thread create, start, join, exit) is a method, and the final analysis is a method too. What is proved comes together in one statement: **for every run, the detector reports exactly the races of the run**, where a race is said in terms of the run alone.

## How it is put together

The specification is a *log* of events. Pure functions of the log say what the state should be, and lemmas say what these functions mean:

| file | what it says about a log |
|---|---|
| `Events.dfy` | the events a program can cause |
| `HappensBefore.dfy` | the vector clocks, and happens-before from program order, create and join edges |
| `Exactness.dfy` | the clocks decide happens-before, event by event and epoch by epoch, if and only if hand-offs are timely |
| `LockHistory.dfy` | timed locksets, and locks held without a break over a window |
| `Persistence.dfy` | the simulated cache: dirty, flushed, fenced |
| `Ledger.dfy` | the store records and loads of each thread, and the first-touch heuristic |
| `LogExtension.dfy` | one more event changes nothing about the past |

The code is modelled as classes and methods that update fields in place, each proved against those functions or against plain sets and maps:

| file | what it models |
|---|---|
| `VectorClocks.dfy` | `VectorClock` |
| `Locksets.dfy`, `Registry.dfy`, `TimedLocksets.dfy` | `Lockset` as a growable bit vector, lock numbering, `TimedLockset` |
| `LocksetCache.dfy` | the hash-consing caches and the cached intersections |
| `FirstTouchFilter.dfy` | the initialization-removal heuristic |
| `Backtraces.dfy` | the backtrace comparator and interning |
| `Records.dfy`, `RaceAnalysis.dfy` | the final analysis: regrouped loads and stores, early exits |
| `Detector.dfy` | `ThreadData`, the globals, and one method per callback |

`Detector.HawkSet.Valid` says that every field holds what the log says it should; each callback keeps it and appends its event. `DetectorState.dfy`, `DetectorSteps.dfy`, `DetectorRecords.dfy`, `DetectorEvents.dfy` and `DetectorReports.dfy` hold the representation predicates and the lemmas the callbacks use. `Reachable.dfy` reads facts about the concrete maps off `Valid`. `EndToEnd.dfy` states the reports in terms of the run, `LateHandOff.dfy` gives a run whose race is missed, and `Runs.dfy` feeds a whole run to a detector and checks the reports.

Some predicates are quantified over one of their own arguments (`forall x | x == a :: P(x)`). They mean `P(a)`; the quantifier only keeps the verifier from unfolding `P` in callers that pass it on.

## What is assumed of a run

* `HappensBefore.ThreadsLive`: a thread acts only between its one start and its exit. This is what the threading library guarantees.
* `HappensBefore.HandOffsAreTimely`: a starting thread reads the creator's clock before the next create overwrites it. The code sets the start semaphore before it reads that clock (`src/hawkset.cpp:1065`, `src/hawkset.cpp:1072`), so it does not guarantee this. `Exactness.ExactIffHandOffsAreTimely` proves that the clocks decide happens-before if and only if every hand-off is timely, and `LateHandOffs.LateHandOffHidesRace` gives a run with one late read and a race of which nothing is reported. Timely hand-offs and live threads together are `HappensBefore.WellFormed`.
* `EndToEnd.InRange`: no thread opens more than 65536 epochs (`clock_i` is a `uint16_t`) or acquires locks more than 2^32 times (`lock_clock` is a `uint32_t`). Both truncations are modelled. `LockHistory.CommonIsThroughoutOrWrapped` and `EndToEnd.EpochNumberIsExact` say exactly when a truncated number misleads, and `LockHistory.CounterComesRound` gives a run where one does.
* Accesses are at most 64 bytes, thread numbers are below 1000 and, with the heuristic on, at most 64 of them come to it, as the code asserts (`src/hawkset.cpp:188`, `src/hawkset.cpp:237`, `src/hawkset.cpp:1068`).
* A join before the joined thread's exit clock is recorded merges an empty clock, as in the code, and counts as no edge.

Not every result needs all of these. `Detector.HawkSet.CheckPMRaces` characterises the reports without the second and third, `EndToEnd.ReportsAreUnguarded` and `EndToEnd.ReportsAreAntitone` hold for every log, and `Runs.Check` states what holds of any run it can be fed and what more holds of a timely one in range.

## Where the code differs from what one might expect

* `HandleAccess` asks the heuristic about the first address on every turn of its loop (`src/hawkset.cpp:251`), so a multi-byte access is let through whole or not at all, on the history of its first byte.
* A store record carries the clock of the fence (or of the overwriting store, or of the exit), not of the store (`src/hawkset.cpp:416`). Races are therefore about the event that ended the store.
* Taking a held lock again overwrites its timestamp and one unlock drops it (`src/lockset.cpp:168-176`); the windows below follow that.
* `empty_lockset` is not a member of the lockset cache (`src/cache.hpp:90`), so the empty set can have a second pointer; the canonicity lemma is about members.
* `is_concurrent` treats a stored zero as above a missing entry; clocks never store one, and `VectorClocks.StoredZeroIsNotAbsent` shows why that matters.

## Model

| member | source | states |
|---|---|---|
| EndToEnd.ReportsAreRaces | src/hawkset.cpp:634-775 | for every well-formed run in range, threshold and setting of the unpersisted option: sites are reported iff on some byte a store that a fence drained (or that was lost) and a load of another thread are unordered by happens-before, share no lock held over the whole window, and both pass the heuristic |
| EndToEnd.EntriesAreEnded | src/hawkset.cpp:286-429 | store records stand exactly for the stores whose life ended: drained by a fence, overwritten, or pending at exit, and let through by the heuristic |
| EndToEnd.SeenIsAsked | src/hawkset.cpp:183-256 | the heuristic has seen exactly the threads with a store or load starting at the address, a fence that drained it, or a loss of a store pending there |
| EndToEnd.ConcurrentIsUnordered | src/hawkset.cpp:660-664 | the clocks found through the stored epoch numbers are concurrent iff fence and load are unordered |
| EndToEnd.DisjointIsUnprotected | src/hawkset.cpp:412 | the recorded lockset and the load's lockset are disjoint iff no lock covers the window and the load |
| EndToEnd.EpochNumberIsExact | src/hawkset.cpp:276 | a 16-bit epoch number names the right clock iff fewer than 65536 epochs came before |
| EndToEnd.GuardedEntryDoesNotRace | src/hawkset.cpp:666-672 | for every log, wrapped timestamps and late hand-offs included: a recorded store and a recorded load of a byte do not race when one lock is held over all its windows and loads |
| EndToEnd.ReportsAreUnguarded | src/hawkset.cpp:634-775 | for every log: each report comes from a store record and a load on a byte that has no common lock |
| EndToEnd.NothingUnpersisted | src/hawkset.cpp:346-349 | with the option off there are no unpersisted reports |
| EndToEnd.ReportsAreAntitone | src/hawkset.cpp:183-232 | on the same run, a higher threshold reports a subset, and threshold 0 reports most |
| Runs.Check | src/hawkset.cpp:678-775 | any runnable run, fed call by call, ends in exactly the races among its records, which are exactly the run's races when hand-offs are timely and no counter wraps; none are unpersisted when the option is off |
| Runs.Feed | src/hawkset.cpp:783-1112 | every run of live threads within the tables meets the preconditions of all callbacks, and leaves the detector representing it |
| Runs.Process | src/hawkset.cpp:783-1112 | each event goes to its callback and is appended to the history |
| Runs.Deliver | src/hawkset.cpp:826-842 | a read-modify-write goes to the fence callback and is a store and then a fence, or a fence alone |
| Exactness.ClocksAreExact | src/vector_clock.hpp:12-63 | for any two events of different threads: the clock of one is below the other's iff it happens before the event that opened the other's epoch, and they are incomparable iff neither does; for an event that is not a join, opener and event are preceded by the same events |
| Exactness.EpochsAreExact | src/hawkset.cpp:465-537 | for any two epochs of different threads: the clocks that opened them are ordered iff the one epoch reaches the other, and incomparable iff neither does |
| Exactness.ExactIffHandOffsAreTimely | src/hawkset.cpp:1061-1073 | for every run of live threads: clocks decide happens-before between all events of different threads iff every starting thread reads its creator's clock in time |
| Exactness.LateHandOffMisorders | src/hawkset.cpp:1061-1073 | a late reader's clock covers the epoch of a create that does not happen before it |
| HappensBefore.EntryIsHappensBefore | src/hawkset.cpp:465-537 | a thread's clock has reached another's epoch iff that epoch's event happens before |
| HappensBefore.EntryAtInit | src/hawkset.cpp:479-492 | the double tick at create and start separates what the child learns from the parent's next epoch |
| HappensBefore.EntryAtJoin | src/hawkset.cpp:494-506 | a join learns exactly what the exited thread's last epoch knew |
| HappensBefore.OwnEvents | src/hawkset.cpp:465-477 | the clock handed out at create or exit covers exactly the thread's events up to it |
| HappensBefore.ClockGrowsAlong | src/vector_clock.hpp:12-26 | along happens-before the whole clock grows |
| HappensBefore.OwnEntriesGrow | src/hawkset.cpp:465-537 | each pushed clock has a larger own entry than the one before |
| HappensBefore.EpochNamesClock | src/hawkset.cpp:276 | an epoch number recorded at an access still names the access's clock at the end of the run |
| HappensBefore.ClocksPositive | src/vector_clock.hpp:12-26 | no clock ever stores a zero |
| LateHandOffs.LateHandOffHidesRace | src/hawkset.cpp:1061-1073 | a concrete run of live threads with one late hand-off, a race on byte 0, and nothing reported |
| LockHistory.LocksAreHistory | src/lockset.cpp:160-176 | the timed lockset holds exactly the locks taken and not dropped, stamped with the number of their acquisition modulo 2^32 |
| LockHistory.CommonIsHeldThroughout | src/hawkset.cpp:412 | up to 2^32 acquisitions, the common set is exactly the locks held from store to fence with no lock or unlock in between |
| LockHistory.CommonIsThroughoutOrWrapped | src/hawkset.cpp:172-174 | for every history: a lock is common iff held throughout, or taken again with a timestamp that wrapped onto the old one |
| LockHistory.CounterComesRound | src/hawkset.cpp:172-174 | a run of 2^32 further acquisitions in which a dropped lock looks held throughout |
| LockHistory.CommonIsContained | src/lockset.cpp:187-195 | timed intersection is commutative and contained in the intersection of the plain locksets |
| Events.CacheLine | src/utils.hpp:28 | the line of a byte is the one multiple of 64 at most 63 below it |
| Persistence.DrainsExactly | src/hawkset.cpp:307-429 | with the option off a byte is flushed iff some store to it has a first later flush of its 64-byte line and no fence since, and then it is the latest such store |
| Persistence.WaitsExactly | src/hawkset.cpp:325-366 | with the option on a byte is flushed iff its latest store was flushed and not fenced since |
| Persistence.DirtyExactly | src/hawkset.cpp:337-366 | a byte is dirty iff its latest store has not been flushed |
| Persistence.NeverDirtyAndFlushed | src/hawkset.cpp:346-352 | with the option on no byte is both dirty and flushed |
| Ledger.StoresAreConserved | src/hawkset.cpp:286-429 | with the option on and the heuristic off, byte stores executed = recorded + dirty + flushed at every step, and all recorded after exit |
| Ledger.FateExists | src/hawkset.cpp:508-526 | every byte store is dirty, flushed or recorded |
| Ledger.FateIsUnique | src/hawkset.cpp:508-526 | and only one of these, with one record |
| Ledger.RecordedIsGone | src/hawkset.cpp:372-429 | a recorded store has left the cache for good and has no second record |
| Ledger.LedgerIsAntitone | src/hawkset.cpp:183-232 | a higher threshold records a subset of the stores and loads |
| Ledger.StaysPublished | src/hawkset.cpp:194-197 | an address once let through stays so |
| Ledger.LedgerStoredBefore | src/hawkset.cpp:412-422 | every record is about an earlier store of the same thread to that byte |
| Reachable.CachedLocksetAgrees | src/hawkset.cpp:116-121 | in every reachable state the remembered pointer is null or has the content of the fold of the thread's lock events |
| Reachable.FlushedMapIsDrained | src/hawkset.cpp:307-323 | in every reachable state, with either setting of the option, the nested flushed map holds exactly the stores the next fence would drain, with their locks and sites, each in its own line |
| Reachable.DirtyMapIsDirty | src/hawkset.cpp:337-366 | the same for the dirty map and the stores whose line was not flushed since |
| Reachable.StoresAreConservedInMaps | src/hawkset.cpp:286-429 | conservation counted in the nested maps and the record vector |
| Detector.HawkSet.CheckPMRaces | src/hawkset.cpp:678-775 | the two report maps hold exactly the races among recorded stores and loads, epoch and timestamp wrap included; no entry is empty |
| DetectorReports.ReportsAreHistory | src/hawkset.cpp:634-775 | comparing all stored records with all stored loads finds exactly the racing pairs of the history |
| DetectorReports.FiledRaces | src/hawkset.cpp:276-283 | a filed key and lockset pointer race iff the load they were filed for does |
| Detector.HawkSet.ProcessStore | src/hawkset.cpp:337-366 | a store, byte by byte, leaves every field as the history with this store says |
| Detector.HawkSet.CheckOverwrite | src/hawkset.cpp:325-335 | a pending store of the byte is recorded as lost, if it passes, and removed; nothing else changes |
| Detector.HawkSet.RecordStore | src/hawkset.cpp:286-305 | one record, with the timed intersection of the locks at store and now, iff the heuristic passes |
| Detector.HawkSet.RecordAll | src/hawkset.cpp:390-426 | every byte of the nested map, in any order, is asked about once and recorded if it passes |
| Detector.HawkSet.ProcessFence | src/hawkset.cpp:372-429 | a fence drains the flushed bytes; a read-modify-write stores first and then fences, and fences alone when it has no bytes |
| Detector.HawkSet.ProcessFlush | src/hawkset.cpp:307-323 | a flush moves the dirty bytes of one 64-byte line |
| Detector.ThreadData.FlushLine | src/hawkset.cpp:307-323 | on the nested maps: the line leaves the dirty map and overrides the flushed one |
| Detector.CopyLine | src/hawkset.cpp:318-320 | copying a line in any order is map override |
| Detector.HawkSet.ProcessRead | src/hawkset.cpp:368-370 | a load is filed iff it passes the heuristic |
| Detector.HawkSet.RegisterAccess | src/hawkset.cpp:258-284 | the load goes under its address, site, epoch and mask with the locks held |
| Detector.HawkSet.ProcessLock | src/hawkset.cpp:431-462 | a lock event changes the acting thread's locks only, and forgets the remembered pointer |
| Detector.ThreadData.ProcessLock | src/hawkset.cpp:431-462 | acquisition stamps the lock's index with the next id, release erases it |
| Detector.ThreadData.GetTimedLockset | src/hawkset.cpp:116-121 | the remembered or newly shared pointer has the current content |
| Detector.HawkSet.ProcessThreadCreate | src/hawkset.cpp:465-477 | the clock between the two ticks is handed to the child |
| Detector.HawkSet.ProcessThreadInit | src/hawkset.cpp:479-492 | the child starts from the creator's clock, ticked twice |
| Detector.HawkSet.ProcessThreadJoin | src/hawkset.cpp:494-506 | a tick and the pointwise maximum with the exit clock |
| Detector.HawkSet.ProcessThreadExit | src/hawkset.cpp:508-537 | with the option on everything pending is recorded as lost; the exit clock is published |
| Detector.HawkSet.RegisterSpecialMutex | src/hawkset.cpp:1140 | a new scope number changes nothing already recorded |
| DetectorState.PutFlat | src/hawkset.cpp:363-364 | writing through the line map is writing the byte map |
| DetectorState.DropLineFlat | src/hawkset.cpp:322 | erasing a line erases exactly its bytes |
| DetectorState.EncodesCommon | src/hawkset.cpp:412 | intersecting by lock index is intersecting by lock |
| RaceAnalysis.Tables.CheckPMRaces | src/hawkset.cpp:678-775 | regrouping, skipping known sites and stopping at the first disjoint lockset give exactly the reports of the naive comparison, in any iteration order |
| RaceAnalysis.Tables.CheckPMRacesPerThread | src/hawkset.cpp:634-675 | the racy sites are exactly those of some unordered load of another thread under disjoint locks |
| RaceAnalysis.Tables.RacyLoadsOfThread | src/hawkset.cpp:650-673 | skipping sites already known to race loses none |
| RaceAnalysis.Tables.RacySite | src/hawkset.cpp:657-672 | one clock check and the first disjoint lockset decide a site in an epoch |
| RaceAnalysis.Tables.RegroupLoads | src/hawkset.cpp:685-710 | the per-byte tables hold exactly the locksets of the loads covering each byte |
| RaceAnalysis.RegroupStores | src/hawkset.cpp:724-746 | grouping by address, flags, lockset content and clock keeps exactly the site pairs |
| RaceAnalysis.RegroupedReportsAreNaive | src/hawkset.cpp:748-770 | reporting group by group is reporting record by record |
| VectorClocks.VectorClock.Tick | src/vector_clock.hpp:12-17 | the own entry goes up by one, absent counting as zero |
| VectorClocks.VectorClock.Merge | src/vector_clock.hpp:19-26 | the pointwise maximum, in any iteration order |
| VectorClocks.VectorClock.IsConcurrent | src/vector_clock.hpp:28-63 | true iff neither clock is below the other |
| VectorClocks.ConcurrentIsIncomparable | src/vector_clock.hpp:28-63 | on positive clocks that is incomparability with absent as zero |
| VectorClocks.StoredZeroIsNotAbsent | src/vector_clock.hpp:35-37 | two clocks with a stored zero on which it is not |
| VectorClocks.MergedIsLeastUpperBound | src/vector_clock.hpp:19-26 | merging is the least upper bound, and keeps entries positive |
| Locksets.Lockset.SetMutexInternal | src/lockset.cpp:12-21 | one index is added or removed, growing the vector as needed |
| Locksets.Lockset.Intersect | src/lockset.cpp:130-137 | set intersection, for any two lengths |
| Locksets.PLockset.ShortIntersect | src/lockset.cpp:74-91 | decides whether the sets meet, shortcuts included |
| Locksets.Empty | src/lockset.cpp:97-104 | decides emptiness |
| Locksets.Equal | src/lockset.cpp:106-124 | decides set equality for vectors of any two lengths |
| TimedLocksets.TimedLockset.Intersect | src/lockset.cpp:187-195 | keeps exactly the entries with equal timestamps, erasing while iterating |
| TimedLocksets.ToLockset | src/lockset.cpp:205-213 | the bit vector of the keys |
| TimedLocksets.TimedLockset.Lock | src/lockset.cpp:168-171 | registers the lock and stamps its index |
| TimedLocksets.TimedLockset.Unlock | src/lockset.cpp:173-176 | registers the lock and erases its index |
| Registry.LockRegistry.RegisterMutex | src/lockset.cpp:28-34 | a new lock gets a fresh index; earlier ones keep theirs |
| Registry.IndicesStayDistinct | src/lockset.cpp:28-54 | under every interleaving of the two registrations, all indices are distinct and below the counter |
| Registry.RegistrationsAreKept | src/lockset.cpp:28-54 | under every interleaving: a finished registration has put its lock into the map with the number it took off the counter, nothing else is in the map, every lock that entered is in it or under way, and scopes are known by exactly the numbers their increments read |
| Registry.EveryLockCanRegister | src/lockset.cpp:28-54 | from every reachable state any lock can get its index in at most five more steps, and a scope can be numbered at once |
| Registry.IndicesAreStable | src/lockset.cpp:28-54 | no index is ever reassigned |
| LocksetCaches.EqualSetsHashAlike | src/cache.hpp:12-28 | equal locksets of different lengths hash alike |
| LocksetCaches.LocksetCache.Get | src/cache.hpp:95-115 | returns a member with the argument's content; the insertion it asserts never fails |
| LocksetCaches.PointersAreCanonical | src/cache.hpp:95-115 | two cached pointers are equal iff their contents are |
| LocksetCaches.TimedLocksetCache.Get | src/cache.hpp:117-137 | returns a member with the argument's timestamps; the insertion it asserts never fails |
| LocksetCaches.TimedPointersAreCanonical | src/cache.hpp:117-137 | the same for timed locksets |
| LocksetCaches.IntersectLockset | src/cache.hpp:139-154 | content is the intersection, fast paths included |
| LocksetCaches.IntersectTimedLockset | src/cache.hpp:156-175 | content is the timed intersection's, fast paths included |
| FirstTouchFilters.FirstTouchFilter.IgnoreAccess | src/hawkset.cpp:183-216 | lets an access through iff more than n distinct threads, this one included, have come to the address |
| FirstTouchFilters.FirstTouchFilter.HandleAccess | src/hawkset.cpp:234-256 | the mask is all of the low bits or none, and all when the heuristic is off |
| FirstTouchFilters.ShiftGivesLowMask | src/hawkset.cpp:242-245 | a shift and a subtraction give exactly the low bits |
| FirstTouchFilters.ClearedIsSaturated | src/hawkset.cpp:190-216 | a bitset that is present but cleared says exactly that more than n threads have come; otherwise it holds one bit per thread, and it is absent iff none came |
| FirstTouchFilters.AccessKeepsOthers | src/hawkset.cpp:190-216 | an access keeps the bitsets of all other addresses |
| Backtraces.Compare | src/utils.hpp:274-281 | the shorter vector comes first; of two equally long ones, the one with the smaller byte where they first differ; none comes before itself |
| Backtraces.BytesOfFrames | src/utils.hpp:276-277 | the bytes compared are those of the frames in order, low byte first |
| Backtraces.ComparatorIsTotal | src/utils.hpp:274-281 | of two different frame sequences exactly one comes first |
| Backtraces.ComparatorIsTransitive | src/utils.hpp:274-281 | the order by length and bytes is transitive |
| Backtraces.Interner.GetBacktrace | src/utils.hpp:326-368 | returns a member holding the instruction pointer and the reversed call stack, adding at most that one |
| Backtraces.PointersAreCanonical | src/utils.hpp:326-368 | two interned pointers are equal iff the traces are |
| Backtraces.PointerKeysAreContentKeys | src/utils.hpp:376-401 | keying loads by pointer equals keying by content |
| Backtraces.ReportPointersAreTraces | src/hawkset.cpp:110 | keying reports by pointers, null included, equals keying by traces |

## Left out

- Instrumentation, opcode tests, routine replacement and TLS set-up: foreign API; the model starts at the events they deliver.
- Configuration parsing, try-lock result decoding and mapped-region tracking: a successful try-lock is a lock event, and every modelled address is persistent memory.
- Report printing, symbolisation, timing and counters: output only.
- Stack walking and call/return tracking: a backtrace is given with each event.
- 64-bit wrap-around of addresses and of the counters that number epochs, locks and backtraces: naturals stand for them.
- The constants of the hash functions: the caches are proved for any mixing function.
- The mutexes around shared tables: callbacks are atomic steps, except lock registration, which `Registry.Act` interleaves. The unguarded map read in `get_index` (`src/lockset.cpp:36-38`) is not modelled as a data race.
- A failed `pthread_create`: the create's ticks are modelled, the missing child is a thread that never starts.
- The instrumented program itself: the loop of `Runs.Feed` that delivers its events stands for it; the detector's source has no such loop.
- Interned backtrace pointers inside the detector: sites are kept as values there; `Backtraces` shows that pointers and values tell sites apart alike.
- The field `race_likely_loads_opt` of each thread: the per-byte load tables live in an object of the analysis, `RaceAnalysis.Tables`, which works on the threads' data as it stands at the end.
- Lock kinds other than acquire and release fall through the switch of `ProcessLock` without effect; they are not events.
- Runs with late hand-offs or wrapped counters: `Detector.HawkSet.CheckPMRaces` says what is reported for them in terms of the stored clocks and timestamps, not in terms of happens-before and windows.
