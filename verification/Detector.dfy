/**
 * The detector: per-thread data, the shared tables, and one method per event of the
 * program. A ghost log records the events; `Valid` says that everything the detector
 * holds is what the history says it should be.
 */
module Detector {
  import opened DetectorEvents
  import opened DetectorRecords
  import opened DetectorReports
  import opened DetectorState
  import opened DetectorSteps
  import opened Events
  import opened FirstTouchFilters
  import opened HappensBefore
  import opened Ledger
  import opened LockHistory
  import opened Locksets
  import opened LocksetCaches
  import opened Persistence
  import opened RaceAnalysis
  import opened Records
  import opened Registry
  import opened TimedLocksets
  import opened VectorClocks

  const TLS_MAX_SIZE := 1000

  const UNUSED := Snapshot(map[], 0, None, [], map[], map[], [], [], map[], map[], false)

  /** The lock instructions: plain, read, write and successful try locks acquire alike. */
  datatype LockOp = Acquire | Release

  function MutexOf(mutex: nat, special: bool): Mutex {
    if special then Special(mutex) else Ordinary(mutex)
  }

  function LockEventOf(tid: Tid, op: LockOp, mutex: nat, special: bool): Event {
    if op.Acquire? then Lock(tid, MutexOf(mutex, special)) else Unlock(tid, MutexOf(mutex, special))
  }

  class ThreadData {
    const tid: Tid
    const current: TimedLockset
    var cached: PTimedLockset?
    var vectorClocks: seq<Clock>
    var raceLikelyStores: seq<StoreFenceData>
    var raceLikelyLoads: map<AccessKey, set<PLockset>>
    var memState: MemState
    var flushedMemState: MemState
    var lockClock: nat
    var used: bool
    ghost var entries: seq<Entry>
    ghost var ptrs: map<nat, PLockset>

    ghost function Snap(): Snapshot
      reads this, current
    {
      Snapshot(current.timestamps, lockClock, if cached == null then None else Some(cached),
               vectorClocks, memState, flushedMemState, raceLikelyStores, entries, raceLikelyLoads, ptrs, used)
    }

    constructor (tid: Tid)
      ensures this.tid == tid && fresh(current) && current.owner == tid && Snap() == UNUSED
    {
      this.tid := tid;
      current := new TimedLockset(map[], tid);
      cached := null;
      vectorClocks, raceLikelyStores, raceLikelyLoads := [], [], map[];
      memState, flushedMemState := map[], map[];
      lockClock, used := 0, false;
      entries, ptrs := [], map[];
    }

    /** The shared pointer for the current timed lockset, remembered until the next lock event. */
    method GetTimedLockset(cache: TimedLocksetCache) returns (p: PTimedLockset)
      requires cache.Valid() && (cached != null ==> cached.timestamps == current.timestamps)
      modifies this`cached, cache
      ensures cache.Valid() && p.timestamps == current.timestamps && Snap() == old(Snap()).(cached := Some(p))
    {
      if cached == null {
        cached := cache.Get(current);
      }
      p := cached;
    }

    /** Files the lockset pointer of one load; `l` is the load's place in the history. */
    method FileAccess(key: AccessKey, p: PLockset, ghost l: nat)
      modifies this`raceLikelyLoads, this`ptrs
      ensures Snap() == old(Snap()).(loads := FileLoad(old(raceLikelyLoads), key, p), ptrs := old(ptrs)[l := p])
    {
      raceLikelyLoads := FileLoad(raceLikelyLoads, key, p);
      ptrs := ptrs[l := p];
    }

    /** Every lock event forgets the remembered pointer. */
    method ProcessLock(op: LockOp, mutex: nat, special: bool, registry: LockRegistry)
      requires registry.Valid() && (special ==> Special(mutex) in registry.names)
      modifies this`cached, this`lockClock, current, registry
      ensures registry.Valid() && Extends(registry.names, old(registry.names))
      ensures MutexOf(mutex, special) in registry.names
      ensures LockChanged(old(Snap()), Snap(), registry.names[MutexOf(mutex, special)], op.Acquire?)
    {
      cached := null;
      match op
      case Acquire =>
        var id := GetNextId();
        if special {
          current.LockSpecial(mutex, id);
        } else {
          current.Lock(registry, mutex, id);
        }
      case Release =>
        if special {
          current.UnlockSpecial(mutex);
        } else {
          current.Unlock(registry, mutex);
        }
    }

    /** Two ticks; the clock between them goes to the thread being created. */
    method CreateClocks() returns (creator: Clock)
      requires vectorClocks != []
      modifies this`vectorClocks
      ensures creator == Ticked(Last(old(vectorClocks)), tid)
      ensures ClockPushed(old(Snap()), Snap(), Ticked(creator, tid), used)
      ensures Get(creator, tid) == Get(Last(old(vectorClocks)), tid) + 1
      ensures vectorClocks != [] && Get(Last(vectorClocks), tid) == Get(Last(old(vectorClocks)), tid) + 2
    {
      var clock := new VectorClock(Last(vectorClocks));
      clock.Tick(tid);
      creator := clock.clock;
      clock.Tick(tid);
      vectorClocks := vectorClocks + [clock.clock];
    }

    method InitClocks(creator: Clock)
      modifies this`vectorClocks, this`used
      ensures ClockPushed(old(Snap()), Snap(), Ticked(Ticked(creator, tid), tid), true)
      ensures vectorClocks != [] && Get(Last(vectorClocks), tid) == Get(creator, tid) + 2
    {
      used := true;
      var clock := new VectorClock(creator);
      clock.Tick(tid);
      clock.Tick(tid);
      vectorClocks := vectorClocks + [clock.clock];
    }

    method JoinClocks(exitClock: Clock)
      requires vectorClocks != []
      modifies this`vectorClocks
      ensures ClockPushed(old(Snap()), Snap(), Merged(Ticked(Last(old(vectorClocks)), tid), exitClock), used)
    {
      var clock := new VectorClock(Last(vectorClocks));
      clock.Tick(tid);
      clock.Merge(exitClock);
      vectorClocks := vectorClocks + [clock.clock];
    }

    method ExitClocks() returns (exitClock: Clock)
      requires vectorClocks != []
      modifies this`vectorClocks
      ensures exitClock == Ticked(Last(old(vectorClocks)), tid)
      ensures ClockPushed(old(Snap()), Snap(), exitClock, used)
    {
      var clock := new VectorClock(Last(vectorClocks));
      clock.Tick(tid);
      exitClock := clock.clock;
      vectorClocks := vectorClocks + [exitClock];
    }

    method GetNextId() returns (id: nat)
      modifies this`lockClock
      ensures id == old(lockClock) && lockClock == (old(lockClock) + 1) % 0x1_0000_0000
    {
      id := lockClock;
      lockClock := (lockClock + 1) % TIMESTAMPS;
    }

    /** Moves the dirty bytes of one line; later stores win over what was flushed before. */
    method FlushLine(address: Addr)
      requires InLines(memState) && InLines(flushedMemState)
      modifies this`memState, this`flushedMemState
      ensures LineFlushed(old(Snap()), Snap(), CacheLine(address))
    {
      var cl := CacheLine(address);
      ghost var s := Snap();
      if cl !in memState {
        LineAbsent(s, cl);
        return;
      }
      flushedMemState := CopyLine(flushedMemState, memState[cl]);
      memState := memState - {cl};
      LineMoved(s, Snap(), cl);
    }
  }

  /** Copies the entries of one line into another nested map, in any order. */
  method CopyLine(m: MemState, line: map<Addr, StoreData>) returns (r: MemState)
    requires InLines(m)
    ensures InLines(r) && Flat(r) == Flat(m) + line
  {
    r := m;
    var todo := line.Keys;
    NothingCopied(Flat(m), line);
    while todo != {}
      invariant todo <= line.Keys && InLines(r)
      invariant Flat(r) == Flat(m) + (line - todo)
      decreases |todo|
    {
      var a :| a in todo;
      PutFlat(r, a, line[a]);
      OneMoreByte(Flat(m), line, todo, a);
      r := Put(r, a, line[a]);
      todo := todo - {a};
    }
    AllCopied(Flat(m), line);
  }

  lemma NothingCopied(before: map<Addr, StoreData>, line: map<Addr, StoreData>)
    ensures before + (line - line.Keys) == before
  {
  }

  lemma AllCopied(before: map<Addr, StoreData>, line: map<Addr, StoreData>)
    ensures before + (line - {}) == before + line
  {
    assert line - {} == line;
  }

  lemma OneMoreByte(before: map<Addr, StoreData>, line: map<Addr, StoreData>, todo: set<Addr>, a: Addr)
    requires a in todo && todo <= line.Keys
    ensures (before + (line - todo))[a := line[a]] == before + (line - (todo - {a}))
  {
  }

  lemma NothingYet(n: nat, unpersisted: bool)
    ensures forall t: nat :: ThreadRep(map[], [], n, unpersisted, t, UNUSED)
  {
  }

  class HawkSet {
    /** Threshold of the first-touch heuristic, 0 for off, and whether to record unpersisted stores. */
    const n: nat
    const unpersisted: bool

    const tls: seq<ThreadData>
    const filter: FirstTouchFilter
    const registry: LockRegistry
    const locksetCache: LocksetCache
    const timedCache: TimedLocksetCache

    var creatorThreadClock: Clock
    var creatorThreadId: int
    var exitThreadsClock: map<Tid, Clock>

    ghost var log: Log
    ghost var snaps: seq<Snapshot>

    constructor (n: nat, unpersisted: bool, mix: Mixer)
      ensures Valid() && log == [] && this.n == n && this.unpersisted == unpersisted && |tls| == 1000
    {
      var threads: seq<ThreadData> := [];
      while |threads| < TLS_MAX_SIZE
        invariant |threads| <= TLS_MAX_SIZE
        invariant forall i | 0 <= i < |threads| :: threads[i].tid == threads[i].current.owner == i
        invariant forall i | 0 <= i < |threads| ::
              fresh(threads[i]) && fresh(threads[i].current) && threads[i].Snap() == UNUSED
        decreases TLS_MAX_SIZE - |threads|
      {
        var td := new ThreadData(|threads|);
        threads := threads + [td];
      }
      this.n, this.unpersisted, tls := n, unpersisted, threads;
      filter := new FirstTouchFilter(n);
      registry := new LockRegistry();
      locksetCache := new LocksetCache(mix);
      timedCache := new TimedLocksetCache(mix);
      creatorThreadClock, creatorThreadId, exitThreadsClock := map[], -1, map[];
      log := [];
      snaps := seq(TLS_MAX_SIZE, _ => UNUSED);
      new;
      NothingYet(n, unpersisted);
    }

    /** Each slot holds its own thread's data, so slots never alias. */
    ghost predicate Distinct() {
      |tls| == TLS_MAX_SIZE && forall i | 0 <= i < |tls| :: tls[i].tid == tls[i].current.owner == i
    }

    /** `snaps` mirrors the threads' fields. */
    ghost predicate Mirrored()
      reads this`snaps, tls, set td | td in tls :: td.current
    {
      |snaps| == |tls| && forall i | 0 <= i < |tls| :: tls[i].Snap() == snaps[i]
    }

    /** The shared tables are sound, and the heuristic has seen exactly `touched`. */
    ghost predicate SharedOk(touched: set<(Tid, Addr)>, names: map<Mutex, nat>)
      reads filter, registry, locksetCache, timedCache
    {
      && filter.Valid() && filter.n == n && filter.touched == touched
      && registry.Valid() && registry.names == names
      && locksetCache.Valid() && timedCache.Valid()
    }

    ghost predicate Valid()
      reads this, filter, registry, locksetCache, timedCache, tls, set td | td in tls :: td.current
    {
      && Distinct() && Mirrored()
      && SharedOk(TouchedAt(unpersisted, log, |log|), registry.names)
      && HandedOn(log, creatorThreadClock, creatorThreadId, exitThreadsClock)
      && AllRep(registry.names, log, n, unpersisted, snaps)
      && TidsFit(log, |tls|)
    }

    /** Every thread but `t` still has the data the mirror shows. */
    ghost predicate OthersMirrored(t: Tid)
      reads this`snaps, tls, set td | td in tls :: td.current
    {
      |snaps| == |tls| && forall i | 0 <= i < |tls| && i != t :: tls[i].Snap() == snaps[i]
    }

    /** Appends the event whose effects have just been carried out. */
    ghost method Advance(e: Event, names: map<Mutex, nat>)
      requires TidsFit(log, |tls|) && e.tid < |tls| && Distinct() && OthersMirrored(e.tid)
      requires SharedOk(TouchedAt(unpersisted, log + [e], |log + [e]|), names)
      requires HandedOn(log + [e], creatorThreadClock, creatorThreadId, exitThreadsClock)
      requires AllRep(names, log + [e], n, unpersisted, snaps[e.tid := tls[e.tid].Snap()])
      modifies this`log, this`snaps
      ensures Valid() && log == old(log) + [e]
    {
      snaps := snaps[e.tid := tls[e.tid].Snap()];
      log := log + [e];
    }

    /** The same for an event that changes nothing the threads share. */
    ghost method AdvanceQuietly(e: Event, names: map<Mutex, nat>)
      requires TidsFit(log, |tls|) && e.tid < |tls| && Distinct() && OthersMirrored(e.tid) && Quiet(unpersisted, log, e)
      requires SharedOk(TouchedAt(unpersisted, log, |log|), names)
      requires HandedOn(log, creatorThreadClock, creatorThreadId, exitThreadsClock)
      requires AllRep(names, log + [e], n, unpersisted, snaps[e.tid := tls[e.tid].Snap()])
      modifies this`log, this`snaps
      ensures Valid() && log == old(log) + [e]
    {
      HandOn(log, e, creatorThreadClock, creatorThreadId, exitThreadsClock);
      Advance(e, names);
    }

    function GetThreadData(tid: Tid): ThreadData
      requires tid < |tls|
    {
      tls[tid]
    }

    method ProcessFlush(tid: Tid, address: Addr)
      requires Valid() && tid < |tls|
      modifies this`log, this`snaps, GetThreadData(tid)`memState, GetThreadData(tid)`flushedMemState
      ensures Valid() && log == old(log) + [Flush(tid, address)]
    {
      var td := GetThreadData(tid);
      ghost var e := Flush(tid, address);
      ReadLines(registry.names, log, n, unpersisted, snaps, tid);
      td.FlushLine(address);
      FlushKeeps(registry.names, log, e, n, unpersisted, snaps, td.Snap());
      AdvanceQuietly(e, registry.names);
    }
  
    /** The effect of a lock event on the thread's data and on the lock numbering. */
    method ChangeLocks(tid: Tid, op: LockOp, mutex: nat, special: bool)
      requires Valid() && tid < |tls| && (special ==> Special(mutex) in registry.names)
      modifies registry, GetThreadData(tid).current, GetThreadData(tid)`cached, GetThreadData(tid)`lockClock
      ensures OthersMirrored(tid) && SharedOk(TouchedAt(unpersisted, log, |log|), registry.names)
      ensures Extends(registry.names, old(registry.names)) && MutexOf(mutex, special) in registry.names
      ensures LockChanged(snaps[tid], tls[tid].Snap(), registry.names[MutexOf(mutex, special)], op.Acquire?)
    {
      GetThreadData(tid).ProcessLock(op, mutex, special, registry);
    }

    method ProcessLock(tid: Tid, op: LockOp, mutex: nat, special: bool)
      requires Valid() && tid < |tls| && (special ==> Special(mutex) in registry.names)
      modifies this`log, this`snaps, registry
      modifies GetThreadData(tid).current, GetThreadData(tid)`cached, GetThreadData(tid)`lockClock
      ensures Valid() && log == old(log) + [LockEventOf(tid, op, mutex, special)]
      ensures Extends(registry.names, old(registry.names))
    {
      ghost var e, names := LockEventOf(tid, op, mutex, special), registry.names;
      ChangeLocks(tid, op, mutex, special);
      LockKeeps(names, registry.names, log, e, n, unpersisted, snaps, tls[tid].Snap());
      AdvanceQuietly(e, registry.names);
    }

    method RegisterSpecialMutex() returns (id: nat)
      requires Valid()
      modifies this`snaps, registry
      ensures Valid() && log == old(log) && Special(id) in registry.names && Special(id) !in old(registry.names)
      ensures Extends(registry.names, old(registry.names))
    {
      ghost var names := registry.names;
      id := registry.RegisterSpecialMutex();
      NamesKeep(names, registry.names, log, n, unpersisted, snaps);
    }

    /** The last step of an exit: its clock becomes what joiners read. */
    method StoreExitClock(tid: Tid, clock: Clock)
      requires TidsFit(log, |tls|) && tid < |tls| && Distinct() && OthersMirrored(tid)
      requires SharedOk(TouchedAt(unpersisted, log + [Exit(tid)], |log + [Exit(tid)]|), registry.names)
      requires HandedOn(log, creatorThreadClock, creatorThreadId, exitThreadsClock)
      requires Hands(log, Exit(tid), CreatorAt(log, |log|), {tid}, clock)
      requires AllRep(registry.names, log + [Exit(tid)], n, unpersisted, snaps[tid := tls[tid].Snap()])
      modifies this`log, this`snaps, this`exitThreadsClock
      ensures Valid() && log == old(log) + [Exit(tid)]
    {
      exitThreadsClock := exitThreadsClock[tid := clock];
      Advance(Exit(tid), registry.names);
    }

    /** The last step of a create: the clock between the ticks waits for the child. */
    method StoreCreatorClock(tid: Tid, ghost child: Tid, clock: Clock)
      requires TidsFit(log, |tls|) && tid < |tls| && Distinct() && OthersMirrored(tid)
      requires SharedOk(TouchedAt(unpersisted, log + [Create(tid, child)], |log + [Create(tid, child)]|),
            registry.names)
      requires HandedOn(log, creatorThreadClock, creatorThreadId, exitThreadsClock)
      requires Hands(log, Create(tid, child), clock, {}, map[])
      requires AllRep(registry.names, log + [Create(tid, child)], n, unpersisted, snaps[tid := tls[tid].Snap()])
      modifies this
      ensures Valid() && log == old(log) + [Create(tid, child)]
    {
      creatorThreadId, creatorThreadClock := tid, clock;
      Advance(Create(tid, child), registry.names);
    }

    method ProcessThreadCreate(tid: Tid, ghost child: Tid)
      requires Valid() && tid < |tls| && GetThreadData(tid).vectorClocks != []
      modifies this, GetThreadData(tid)`vectorClocks
      ensures Valid() && log == old(log) + [Create(tid, child)]
    {
      var td := GetThreadData(tid);
      ghost var e := Create(tid, child);
      var creator := td.CreateClocks();
      assert OthersMirrored(tid);
      CreateKeeps(registry.names, log, e, n, unpersisted, snaps, td.Snap(), creator);
      StoreCreatorClock(tid, child, creator);
    }

    method ProcessThreadInit(tid: Tid)
      requires Valid() && tid < |tls|
      modifies this`log, this`snaps, GetThreadData(tid)`vectorClocks, GetThreadData(tid)`used
      ensures Valid() && log == old(log) + [Init(tid)]
    {
      var td := GetThreadData(tid);
      ghost var e := Init(tid);
      td.InitClocks(if creatorThreadId != -1 then creatorThreadClock else map[]);
      InitKeeps(registry.names, log, e, n, unpersisted, snaps, td.Snap());
      AdvanceQuietly(e, registry.names);
    }

    /** Reading the exit clock of a thread that has none yet stores an empty one. */
    method ExitClockOf(exitTid: Tid) returns (clock: Clock)
      requires HandedOn(log, creatorThreadClock, creatorThreadId, exitThreadsClock)
      modifies this`exitThreadsClock
      ensures HandedOn(log, creatorThreadClock, creatorThreadId, exitThreadsClock)
      ensures clock == ExitAt(log, |log|, exitTid)
    {
      if exitTid !in exitThreadsClock {
        exitThreadsClock := exitThreadsClock[exitTid := map[]];
      }
      clock := exitThreadsClock[exitTid];
    }

    method ProcessThreadJoin(tid: Tid, exitTid: Tid)
      requires Valid() && tid < |tls| && GetThreadData(tid).vectorClocks != []
      modifies this`log, this`snaps, this`exitThreadsClock, GetThreadData(tid)`vectorClocks
      ensures Valid() && log == old(log) + [Join(tid, exitTid)]
    {
      var td := GetThreadData(tid);
      ghost var e := Join(tid, exitTid);
      var exitClock := ExitClockOf(exitTid);
      td.JoinClocks(exitClock);
      JoinKeeps(registry.names, log, e, n, unpersisted, snaps, td.Snap());
      AdvanceQuietly(e, registry.names);
    }

    // -------------------------------------------------------------------- store records

    /** The heuristic has 64 bits: at most so many threads come to it, with `events` next. */
    ghost predicate RoomFor(events: Log)
      reads this`log
    {
      n >= 1 ==> |Comers(TouchedAt(unpersisted, log + events, |log + events|))| <= 64
    }

    /** What emitting records at moment `m` works on. */
    ghost predicate Recording(m: Moment, td: ThreadData, ls: PTimedLockset, trace: Trace)
      reads filter, locksetCache, td`vectorClocks
    {
      && m.Valid() && m.n == n && m.Tid() == td.tid && m.Holding(ls.timestamps) && trace == TraceOf(Last(m.history))
      && |td.vectorClocks| == |ClocksAt(m.history, m.Now(), m.Tid())|
      && filter.Valid() && filter.n == n && m.Fits() && m.Asked(filter.touched)
      && locksetCache.Valid()
    }

    /** Everything is as it was just before the event `m` is about. */
    ghost predicate Ready(m: Moment, td: ThreadData, trace: Trace)
      reads filter, locksetCache, timedCache, td, td.current
    {
      && m.history != [] && Begins(m, td.Snap()) && m.n == n && m.unpersisted == unpersisted
      && m.Tid() == td.tid && trace == TraceOf(Last(m.history))
      && filter.Valid() && filter.n == n && m.Fits() && filter.touched == m.start
      && locksetCache.Valid() && timedCache.Valid()
    }

    /** The locks the thread holds as the event is carried out. */
    method LocksNow(td: ThreadData, trace: Trace, ghost m: Moment) returns (ls: PTimedLockset)
      requires Ready(m, td, trace)
      modifies timedCache, td`cached
      ensures Recording(m, td, ls, trace) && filter.touched == m.start && timedCache.Valid()
      ensures td.Snap() == old(td.Snap()).(cached := Some(ls)) && ls.timestamps == td.current.timestamps
    {
      assert Before(m, td.Snap());
      ls := td.GetTimedLockset(timedCache);
    }

    /** One finished or lost store: ask the heuristic, intersect, and push the record. */
    method RecordStore(td: ThreadData, a: Addr, data: StoreData, ls: PTimedLockset, trace: Trace, persisted: bool,
                       wasFlushed: bool,
                       ghost m: Moment, ghost i: nat, ghost ledger: set<Entry>)
      requires Recording(m, td, ls, trace) && (td.tid, a) in m.end
      requires i < m.Now() && HasData(m, data, i)
      requires HasRecords(m, td.raceLikelyStores, td.entries, ledger)
      requires NotYet(m, ledger, {a}, wasFlushed)
      modifies filter, locksetCache, td`raceLikelyStores, td`entries
      ensures Recording(m, td, ls, trace) && filter.touched == old(filter.touched) + {(td.tid, a)}
      ensures HasRecords(m, td.raceLikelyStores, td.entries,
                        ledger + if Published(n, m.end, a) then {Entry(a, i, m.Now(), persisted, wasFlushed)} else {})
    {
      if n >= 1 {
        BitIsFree(m, filter.touched, a);
      }
      AnswerIsFinal(m, filter.touched, a);
      var passes := filter.HandleAccessByte(td.tid, a);
      if !passes {
        return;
      }
      var commonSet := IntersectTimedLockset(locksetCache, ls, data.lockset);
      var r := StoreFenceData(commonSet, (|td.vectorClocks| - 1) % EPOCHS, data.trace, trace, a, persisted, wasFlushed);
      ghost var en := Entry(a, i, m.Now(), persisted, wasFlushed);
      RecordPushed(m, td.raceLikelyStores, td.entries, ledger, r, en, data, ls, |td.vectorClocks|);
      td.raceLikelyStores := td.raceLikelyStores + [r];
      td.entries := td.entries + [en];
    }
  
    /** Records every byte of one line, in any order. */
    method RecordLine(td: ThreadData, line: map<Addr, StoreData>, ls: PTimedLockset, trace: Trace, persisted: bool,
                      wasFlushed: bool,
                      ghost m: Moment, ghost idx: map<Addr, nat>, ghost ledger: set<Entry>)
      requires Recording(m, td, ls, trace) && LineOk(m, line, idx)
      requires HasRecords(m, td.raceLikelyStores, td.entries, ledger)
      requires NotYet(m, ledger, line.Keys, wasFlushed)
      modifies filter, locksetCache, td`raceLikelyStores, td`entries
      ensures Recording(m, td, ls, trace) && filter.touched == old(filter.touched) + Asking(td.tid, line.Keys)
      ensures HasRecords(m, td.raceLikelyStores, td.entries,
                        Extended(m, ledger, idx, line.Keys, persisted, wasFlushed))
    {
      var todo := line.Keys;
      ghost var done: set<Addr> := {};
      ExtendedByNone(m, ledger, idx, persisted, wasFlushed);
      AskingNone(filter.touched, td.tid);
      while todo != {}
        invariant todo <= line.Keys && done == line.Keys - todo
        invariant Recording(m, td, ls, trace) && filter.touched == old(filter.touched) + Asking(td.tid, done)
        invariant HasRecords(m, td.raceLikelyStores, td.entries,
                            Extended(m, ledger, idx, done, persisted, wasFlushed))
        decreases |todo|
      {
        var a :| a in todo;
        OneByte(m, line, idx, ledger, done, todo, a, persisted, wasFlushed);
        RecordStore(td, a, line[a], ls, trace, persisted, wasFlushed, m, idx[a],
                    Extended(m, ledger, idx, done, persisted, wasFlushed));
        ExtendedByOne(m, ledger, idx, done, a, persisted, wasFlushed);
        AskingOne(old(filter.touched), td.tid, done, a);
        todo, done := todo - {a}, done + {a};
      }
      assert done == line.Keys;
    }

    /** Records every pending byte, line by line, in any order. */
    method RecordAll(td: ThreadData, mem: MemState, ls: PTimedLockset, trace: Trace, persisted: bool, wasFlushed: bool,
                     ghost m: Moment, ghost idx: map<Addr, nat>, ghost ledger: set<Entry>)
      requires Recording(m, td, ls, trace) && MemOk(m, mem, idx)
      requires HasRecords(m, td.raceLikelyStores, td.entries, ledger)
      requires NotYet(m, ledger, idx.Keys, wasFlushed)
      modifies filter, locksetCache, td`raceLikelyStores, td`entries
      ensures Recording(m, td, ls, trace) && filter.touched == old(filter.touched) + Asking(td.tid, idx.Keys)
      ensures HasRecords(m, td.raceLikelyStores, td.entries,
                        Extended(m, ledger, idx, idx.Keys, persisted, wasFlushed))
    {
      var todo := mem.Keys;
      ghost var done: set<Addr> := {};
      ExtendedByNone(m, ledger, idx, persisted, wasFlushed);
      AskingNone(filter.touched, td.tid);
      while todo != {}
        invariant todo <= mem.Keys && done == LineKeys(mem, mem.Keys - todo)
        invariant Recording(m, td, ls, trace) && filter.touched == old(filter.touched) + Asking(td.tid, done)
        invariant HasRecords(m, td.raceLikelyStores, td.entries,
                            Extended(m, ledger, idx, done, persisted, wasFlushed))
        decreases |todo|
      {
        var cl :| cl in todo;
        OneLine(m, mem, idx, cl);
        OneMoreLine(m, mem, idx, todo, cl);
        EmitsNotYet(m, idx, ledger, done, idx.Keys, persisted, wasFlushed);
        RecordLine(td, mem[cl], ls, trace, persisted, wasFlushed, m, idx,
                   Extended(m, ledger, idx, done, persisted, wasFlushed));
        ExtendedByMany(m, ledger, idx, done, mem[cl].Keys, persisted, wasFlushed);
        AskingUnion(old(filter.touched), td.tid, done, mem[cl].Keys);
        todo, done := todo - {cl}, done + mem[cl].Keys;
      }
      AllLines(m, mem, idx);
    }
  
    /** A pending store of `address` is lost to the store being made: record it and drop it. */
    method CheckOverwrite(td: ThreadData, address: Addr, memState: MemState, ls: PTimedLockset, trace: Trace,
                          wasFlushed: bool,
                          ghost m: Moment, ghost idx: map<Addr, nat>, ghost ledger: set<Entry>) returns (mem: MemState)
      requires Recording(m, td, ls, trace) && HasMem(m, memState, idx)
      requires address in idx ==> idx[address] < m.Now() && (td.tid, address) in m.end
      requires HasRecords(m, td.raceLikelyStores, td.entries, ledger)
      requires NotYet(m, ledger, {address}, wasFlushed)
      modifies filter, locksetCache, td`raceLikelyStores, td`entries
      ensures Recording(m, td, ls, trace)
      ensures filter.touched == old(filter.touched) + if address in idx then {(td.tid, address)} else {}
      ensures HasMem(m, mem, idx - {address})
      ensures HasRecords(m, td.raceLikelyStores, td.entries,
                        Extended(m, ledger, idx, {address}, false, wasFlushed))
    {
      var cl := CacheLine(address);
      mem := memState;
      if cl !in mem {
        EmptyLineRep(m, mem, idx, cl);
        mem := mem[cl := map[]];
      }
      EraseRep(m, mem, idx, address);
      ExtendedByNone(m, ledger, idx, false, wasFlushed);
      if address in mem[cl] {
        ExtendedByOne(m, ledger, idx, {}, address, false, wasFlushed);
        RecordStore(td, address, mem[cl][address], ls, trace, false, wasFlushed, m, idx[address], ledger);
        mem := mem[cl := mem[cl] - {address}];
      } else {
        AbsentRep(idx, address);
        NothingEmitted(m, ledger, idx, address, wasFlushed);
      }
    }

    /** Both pending stores the byte may have, dirty and flushed, are lost. */
    method CheckOverwrites(td: ThreadData, a: Addr, ls: PTimedLockset, trace: Trace, ghost m: Moment,
                           ghost done: set<Addr>)
      requires Recording(m, td, ls, trace) && m.unpersisted && m.Past() && ByteKnown(m, a) && a !in done
      requires DuringStore(m, done, td.Snap())
      modifies filter, locksetCache, td`raceLikelyStores, td`entries, td`memState, td`flushedMemState
      ensures Recording(m, td, ls, trace)
      ensures filter.touched == old(filter.touched) + (if a in DirtyDuring(m, done) then {(td.tid, a)} else {})
                                                    + (if a in FlushedDuring(m, done) then {(td.tid, a)} else {})
      ensures HasMem(m, td.memState, DirtyDuring(m, done) - {a})
      ensures HasMem(m, td.flushedMemState, FlushedDuring(m, done) - {a})
      ensures HasRecords(m, td.raceLikelyStores, td.entries, LedgerDuring(m, done + {a}))
    {
      ghost var dirty, flushed, ledger := DirtyDuring(m, done), FlushedDuring(m, done), LedgerDuring(m, done);
      NotYetDuring(m, done, a);
      LedgerOneMore(m, done, a);
      td.memState := CheckOverwrite(td, a, td.memState, ls, trace, false, m, dirty, ledger);
      ledger := Extended(m, ledger, dirty, {a}, false, false);
      td.flushedMemState := CheckOverwrite(td, a, td.flushedMemState, ls, trace, true, m, flushed, ledger);
    }

    method StoreByte(td: ThreadData, a: Addr, data: StoreData, ls: PTimedLockset, trace: Trace,
                     ghost m: Moment, ghost done: set<Addr>, ghost asked: set<(Tid, Addr)>)
      requires Recording(m, td, ls, trace) && m.unpersisted == unpersisted && m.Past() && a !in done
      requires unpersisted ==> ByteKnown(m, a)
      requires HasData(m, data, m.Now())
      requires StoreUnderWay(m, done, td.Snap(), asked, filter.touched)
      modifies filter, locksetCache, td`raceLikelyStores, td`entries, td`memState, td`flushedMemState
      ensures Recording(m, td, ls, trace)
      ensures StoreUnderWay(m, done + {a}, td.Snap(), asked, filter.touched)
    {
      assert DuringStore(m, done, td.Snap());
      DuringOneMore(m, done, a);
      if unpersisted {
        AskedOneMore(m, asked, done, a);
        CheckOverwrites(td, a, ls, trace, m, done);
        PutRep(m, td.memState, DirtyDuring(m, done) - {a}, a, data, m.Now());
      } else {
        PutRep(m, td.memState, DirtyDuring(m, done), a, data, m.Now());
      }
      td.memState := Put(td.memState, a, data);
    }

    method StoreBytes(td: ThreadData, address: Addr, size: nat, ls: PTimedLockset, trace: Trace,
                      ghost m: Moment, ghost asked: set<(Tid, Addr)>)
      requires Recording(m, td, ls, trace) && m.unpersisted == unpersisted && m.Past() && Last(m.history).Store?
      requires unpersisted ==> BytesKnown(m, address, size)
      requires StoreUnderWay(m, {}, td.Snap(), asked, filter.touched)
      modifies filter, locksetCache, td`raceLikelyStores, td`entries, td`memState, td`flushedMemState
      ensures Recording(m, td, ls, trace)
      ensures StoreUnderWay(m, Bytes(address, size), td.Snap(), asked, filter.touched)
    {
      var data := StoreData(ls, trace);
      NewDataOk(m, ls, trace);
      ghost var done: set<Addr> := {};
      for i := 0 to size
        invariant done == Bytes(address, i)
        invariant Recording(m, td, ls, trace)
        invariant StoreUnderWay(m, done, td.Snap(), asked, filter.touched)
      {
        NextByte(m, address, size, done, i);
        StoreByte(td, address + i, data, ls, trace, m, done, asked);
        done := done + {address + i};
      }
    }

    /** The start of a store: the heuristic is asked, and the locks held are read. */
    method BeginStore(td: ThreadData, address: Addr, size: nat, trace: Trace,
                      ghost m: Moment) returns (ls: PTimedLockset)
      requires Ready(m, td, trace) && Last(m.history) == Store(td.tid, address, size, trace) && size <= 64
      requires size > 0 ==> (td.tid, address) in m.end
      modifies filter, timedCache, td`cached
      ensures Recording(m, td, ls, trace) && m.Past() && timedCache.Valid()
      ensures filter.touched == AskedFirst(m, Last(m.history))
      ensures StoreUnderWay(m, {}, td.Snap(), filter.touched, filter.touched)
      ensures td.Snap() == old(td.Snap()).(cached := Some(ls)) && ls.timestamps == td.current.timestamps
    {
      assert Before(m, td.Snap());
      if n >= 1 && size > 0 {
        BitIsFree(m, filter.touched, address);
      }
      var mask := filter.HandleAccess(td.tid, address, size);
      ls := td.GetTimedLockset(timedCache);
      DuringNothing(m, filter.touched);
    }

    /** The store itself, byte by byte. */
    method CarryOutStore(td: ThreadData, address: Addr, size: nat, trace: Trace, ghost m: Moment)
      requires Ready(m, td, trace) && Last(m.history) == Store(td.tid, address, size, trace) && size <= 64
      requires StoreShown(m, Last(m.history))
      modifies filter, locksetCache, timedCache
      modifies td`cached, td`raceLikelyStores, td`entries, td`memState, td`flushedMemState
      ensures filter.Valid() && locksetCache.Valid() && timedCache.Valid()
      ensures StoreUnderWay(m, Bytes(address, size), td.Snap(), AskedFirst(m, Last(m.history)), filter.touched)
      ensures filter.touched == m.end && Stored(old(td.Snap()), td.Snap())
    {
      var ls := BeginStore(td, address, size, trace, m);
      StoreBytes(td, address, size, ls, trace, m, filter.touched);
      assert DuringStore(m, Bytes(address, size), td.Snap());
    }

    method ProcessStore(tid: Tid, address: Addr, size: nat, trace: Trace)
      requires Valid() && tid < |tls| && size <= 64 && RoomFor([Store(tid, address, size, trace)])
      modifies this`log, this`snaps, filter, locksetCache, timedCache
      modifies GetThreadData(tid)`cached, GetThreadData(tid)`raceLikelyStores, GetThreadData(tid)`entries
      modifies GetThreadData(tid)`memState, GetThreadData(tid)`flushedMemState
      ensures Valid() && log == old(log) + [Store(tid, address, size, trace)]
    {
      var td := GetThreadData(tid);
      ghost var e := Store(tid, address, size, trace);
      ghost var m := MomentOf(registry.names, log, e, n, unpersisted);
      StoreStarts(m, registry.names, log, e, n, unpersisted, snaps);
      CarryOutStore(td, address, size, trace, m);
      assert OthersMirrored(tid);
      StoreKeeps(m, registry.names, log, e, n, unpersisted, snaps, td.Snap(), filter.touched);
      HandOn(log, e, creatorThreadClock, creatorThreadId, exitThreadsClock);
      Advance(e, registry.names);
    }

    /** Drains the flushed bytes into records. */
    method DrainFlushed(td: ThreadData, ls: PTimedLockset, trace: Trace, ghost m: Moment)
      requires Recording(m, td, ls, trace) && filter.touched == m.start && FenceShown(m)
      requires MemOk(m, td.flushedMemState, m.pending.flushed) && HasMem(m, td.memState, m.pending.dirty)
      requires NotYet(m, m.ledger, m.pending.flushed.Keys, true)
      requires HasRecords(m, td.raceLikelyStores, td.entries, m.ledger)
      modifies filter, locksetCache, td`raceLikelyStores, td`entries, td`flushedMemState
      ensures filter.Valid() && locksetCache.Valid() && filter.touched == m.end && Fenced(m, td.Snap())
    {
      RecordAll(td, td.flushedMemState, ls, trace, true, true, m, m.pending.flushed, m.ledger);
      td.flushedMemState := map[];
    }

    /** A fence with nothing flushed records nothing. */
    method CarryOutFence(td: ThreadData, trace: Trace, ghost m: Moment)
      requires Ready(m, td, trace) && FenceShown(m)
      modifies filter, locksetCache, timedCache
      modifies td`cached, td`raceLikelyStores, td`entries, td`flushedMemState
      ensures filter.Valid() && locksetCache.Valid() && timedCache.Valid() && filter.touched == m.end
      ensures Fenced(m, td.Snap()) && Stored(old(td.Snap()), td.Snap())
    {
      assert Before(m, td.Snap());
      FlushedReady(m, td.Snap());
      var ls := LocksNow(td, trace, m);
      if td.flushedMemState == map[] {
        NothingFlushed(m, td.Snap());
        return;
      }
      DrainFlushed(td, ls, trace, m);
    }

    method ProcessPlainFence(tid: Tid, trace: Trace)
      requires Valid() && tid < |tls| && RoomFor([Fence(tid, trace)])
      modifies this`log, this`snaps, filter, locksetCache, timedCache
      modifies GetThreadData(tid)`cached, GetThreadData(tid)`raceLikelyStores, GetThreadData(tid)`entries
      modifies GetThreadData(tid)`flushedMemState
      ensures Valid() && log == old(log) + [Fence(tid, trace)]
    {
      var td := GetThreadData(tid);
      ghost var e := Fence(tid, trace);
      ghost var m := MomentOf(registry.names, log, e, n, unpersisted);
      FenceStarts(m, registry.names, log, e, n, unpersisted, snaps);
      CarryOutFence(td, trace, m);
      assert OthersMirrored(tid);
      FenceKeeps(m, registry.names, log, e, n, unpersisted, snaps, td.Snap());
      HandOn(log, e, creatorThreadClock, creatorThreadId, exitThreadsClock);
      Advance(e, registry.names);
    }

    /** A read-modify-write stores first and then fences; without a persistent operand it is a plain fence. */
    method ProcessFence(tid: Tid, isRmw: bool, address: Addr, size: nat, trace: Trace)
      requires Valid() && tid < |tls| && (isRmw ==> size <= 64)
      requires isRmw && size != 0 ==> RoomFor([Store(tid, address, size, trace), Fence(tid, trace)])
      requires !isRmw || size == 0 ==> RoomFor([Fence(tid, trace)])
      modifies this`log, this`snaps, filter, locksetCache, timedCache
      modifies GetThreadData(tid)`cached, GetThreadData(tid)`raceLikelyStores, GetThreadData(tid)`entries
      modifies GetThreadData(tid)`memState, GetThreadData(tid)`flushedMemState
      ensures Valid()
      ensures isRmw && size != 0 ==> log == old(log) + [Store(tid, address, size, trace), Fence(tid, trace)]
      ensures !isRmw || size == 0 ==> log == old(log) + [Fence(tid, trace)]
    {
      if isRmw && size != 0 {
        ghost var store, fence := Store(tid, address, size, trace), Fence(tid, trace);
        assert log + [store, fence] == log + [store] + [fence];
        FirstFits(unpersisted, log, store, fence);
        ProcessStore(tid, address, size, trace);
      }
      ProcessPlainFence(tid, trace);
    }

    /** With unpersisted checking on, everything still pending is recorded as lost. */
    method RecordPending(td: ThreadData, ghost m: Moment)
      requires Ready(m, td, NoTrace) && ExitShown(m)
      modifies filter, locksetCache, timedCache, td`cached, td`raceLikelyStores, td`entries
      ensures filter.Valid() && locksetCache.Valid() && timedCache.Valid() && filter.touched == m.end
      ensures AllRecorded(m, old(td.Snap()), td.Snap())
    {
      ghost var s := td.Snap();
      assert Before(m, s);
      if unpersisted {
        var ls := LocksNow(td, NoTrace, m);
        PendingReady(m, s);
        RecordAll(td, td.memState, ls, NoTrace, false, false, m, m.pending.dirty, m.ledger);
        RecordAll(td, td.flushedMemState, ls, NoTrace, false, true, m, m.pending.flushed, DirtyLost(m));
      }
    }

    /** The records of an exit, then its clock. */
    method CarryOutExit(td: ThreadData, ghost m: Moment) returns (clock: Clock, ghost mid: Snapshot)
      requires Ready(m, td, NoTrace) && ExitShown(m) && td.vectorClocks != []
      modifies filter, locksetCache, timedCache, td`cached, td`raceLikelyStores, td`entries, td`vectorClocks
      ensures filter.Valid() && locksetCache.Valid() && timedCache.Valid() && filter.touched == m.end
      ensures AllRecorded(m, old(td.Snap()), mid)
      ensures clock == Ticked(Last(old(td.vectorClocks)), td.tid) && ClockPushed(mid, td.Snap(), clock, mid.used)
    {
      RecordPending(td, m);
      mid := td.Snap();
      clock := td.ExitClocks();
    }

    method ProcessThreadExit(tid: Tid)
      requires Valid() && tid < |tls| && GetThreadData(tid).vectorClocks != [] && RoomFor([Exit(tid)])
      modifies this`log, this`snaps, this`exitThreadsClock, filter, locksetCache, timedCache
      modifies GetThreadData(tid)`cached, GetThreadData(tid)`raceLikelyStores, GetThreadData(tid)`entries
      modifies GetThreadData(tid)`vectorClocks
      ensures Valid() && log == old(log) + [Exit(tid)]
    {
      var td := GetThreadData(tid);
      ghost var e := Exit(tid);
      ghost var m := MomentOf(registry.names, log, e, n, unpersisted);
      ExitStarts(m, registry.names, log, e, n, unpersisted, snaps);
      var clock, mid := CarryOutExit(td, m);
      assert OthersMirrored(tid);
      ExitKeeps(m, registry.names, log, e, n, unpersisted, snaps, mid, td.Snap(), clock);
      StoreExitClock(tid, clock);
    }

    /** The shared plain lockset of the locks held now. */
    method SharedLockset(td: ThreadData) returns (p: PLockset)
      requires locksetCache.Valid() && timedCache.Valid()
      requires td.cached != null ==> td.cached.timestamps == td.current.timestamps
      modifies locksetCache, timedCache, td`cached
      ensures locksetCache.Valid() && timedCache.Valid() && p.Content() == td.current.timestamps.Keys
      ensures td.cached != null && td.cached.timestamps == td.current.timestamps
    {
      var timed := td.GetTimedLockset(timedCache);
      var access := ToLockset(timed.timestamps);
      p := locksetCache.Get(access);
    }

    /** Files a load that has passed the heuristic under its address, site, epoch and mask. */
    method FileLoadOf(td: ThreadData, address: Addr, size: nat, trace: Trace, mask: Word, ghost l: nat)
      requires locksetCache.Valid() && timedCache.Valid() && mask == LowMask(size)
      requires td.cached != null ==> td.cached.timestamps == td.current.timestamps
      modifies locksetCache, timedCache, td`cached, td`raceLikelyLoads, td`ptrs
      ensures locksetCache.Valid() && timedCache.Valid()
      ensures l in td.ptrs && LoadFiled(old(td.Snap()), td.Snap(), Load(td.tid, address, size, trace), l, td.ptrs[l])
    {
      var key := AccessKey(address, trace, (|td.vectorClocks| - 1) % EPOCHS, mask);
      var p := SharedLockset(td);
      td.FileAccess(key, p, l);
    }

    method RegisterAccess(td: ThreadData, address: Addr, size: nat, trace: Trace, ghost m: Moment)
      requires Ready(m, td, trace) && size <= 64 && Last(m.history) == Load(td.tid, address, size, trace)
      requires m.end == m.start + if size > 0 then {(td.tid, address)} else {}
      modifies filter, locksetCache, timedCache, td`cached, td`raceLikelyLoads, td`ptrs
      ensures filter.Valid() && locksetCache.Valid() && timedCache.Valid() && filter.touched == m.end
      ensures LoadDone(old(td.Snap()), td.Snap(), Last(m.history), m.Now(), size > 0 && Published(n, m.end, address))
    {
      assert Before(m, td.Snap());
      if n >= 1 && size > 0 {
        BitIsFree(m, filter.touched, address);
      }
      var mask := filter.HandleAccess(td.tid, address, size);
      MaskIsNone(size, Published(n, m.end, address));
      if Any(mask) {
        FileLoadOf(td, address, size, trace, mask, m.Now());
      }
    }

    method ProcessRead(tid: Tid, address: Addr, size: nat, trace: Trace)
      requires Valid() && tid < |tls| && size <= 64 && RoomFor([Load(tid, address, size, trace)])
      modifies this`log, this`snaps, filter, locksetCache, timedCache
      modifies GetThreadData(tid)`cached, GetThreadData(tid)`raceLikelyLoads, GetThreadData(tid)`ptrs
      ensures Valid() && log == old(log) + [Load(tid, address, size, trace)]
    {
      var td := GetThreadData(tid);
      ghost var e := Load(tid, address, size, trace);
      ghost var m := MomentOf(registry.names, log, e, n, unpersisted);
      MomentStarts(m, registry.names, log, e, n, unpersisted, snaps);
      LoadStarts(m, registry.names, log, e, n, unpersisted);
      RegisterAccess(td, address, size, trace, m);
      assert OthersMirrored(tid);
      LoadEventKeeps(registry.names, log, e, n, unpersisted, snaps, td.Snap());
      HandOn(log, e, creatorThreadClock, creatorThreadId, exitThreadsClock);
      Advance(e, registry.names);
    }

    // -------------------------------------------------------------------- the analysis

    method Views() returns (views: seq<View>)
      requires Valid()
      ensures AreViews(views, snaps)
    {
      views := [];
      for i := 0 to |tls|
        invariant |views| == i && forall j | 0 <= j < i :: views[j] == ViewOf(snaps[j])
      {
        var td := tls[i];
        assert td.Snap() == snaps[i];
        views := views + [View(td.used, td.vectorClocks, td.raceLikelyStores, td.raceLikelyLoads)];
      }
    }

    /** The reports are exactly the races of the history, however the tables are iterated. */
    method CheckPMRaces() returns (races: Reports, unpersistedRaces: Reports)
      requires Valid() && AllStarted(log)
      ensures forall key, lt :: Reported(races, key, lt) <==> HistoryRace(n, unpersisted, log, true, key, lt)
      ensures forall key, lt ::
                Reported(unpersistedRaces, key, lt) <==> HistoryRace(n, unpersisted, log, false, key, lt)
      ensures {} !in races.Values && {} !in unpersistedRaces.Values
    {
      var views := Views();
      ViewsAreValid(registry.names, log, n, unpersisted, snaps, views);
      var tables := new Tables(views);
      tables.RegroupLoads();
      races, unpersistedRaces := tables.CheckPMRaces();
      AllReportsAreHistory(registry.names, log, n, unpersisted, snaps, views);
    }
  }
}
