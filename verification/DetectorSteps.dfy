/** What each kind of event does to the representation of its own thread. */
module DetectorSteps {
  import opened DetectorState
  import opened Events
  import opened HappensBefore
  import opened Ledger
  import opened LockHistory
  import opened LogExtension
  import opened Persistence
  import opened Records
  import opened Registry
  import opened VectorClocks

  // ------------------------------------------------------------------ shared state

  lemma TouchStep(unpersisted: bool, log: Log, e: Event)
    ensures TouchedAt(unpersisted, log + [e], |log + [e]|) == TouchedAt(unpersisted, log, |log|)
              + set a | a in TouchedBytes(unpersisted, CacheAt(unpersisted, log, |log|, e.tid), e) :: (e.tid, a)
  {
    SameTouched(unpersisted, log, e, |log|);
    SameCache(unpersisted, log, e, |log|, e.tid);
    assert (log + [e])[|log|] == e;
  }

  lemma NothingTouched(unpersisted: bool, log: Log, e: Event)
    requires !e.Store? && !e.Load? && !e.Fence? && (unpersisted ==> !e.Exit?)
    ensures TouchedAt(unpersisted, log + [e], |log + [e]|) == TouchedAt(unpersisted, log, |log|)
  {
    TouchStep(unpersisted, log, e);
  }

  lemma HandOffStep(log: Log, e: Event)
    ensures CreatorAt(log + [e], |log + [e]|)
         == if e.Create? then Ticked(Current(log, |log|, e.tid), e.tid) else CreatorAt(log, |log|)
  {
    SameClocks(log, e, |log|);
    assert (log + [e])[|log|] == e;
    assert Current(log + [e], |log|, e.tid) == Current(log, |log|, e.tid);
  }

  lemma ExitStep(log: Log, e: Event, u: Tid)
    ensures ExitAt(log + [e], |log + [e]|, u)
         == if e == Exit(u) then Ticked(Current(log, |log|, u), u) else ExitAt(log, |log|, u)
  {
    SameClocks(log, e, |log|);
    assert (log + [e])[|log|] == e;
    assert Current(log + [e], |log|, u) == Current(log, |log|, u);
  }

  /**
   * The clocks threads hand to one another, at create and at exit, are stored as the
   * history says; an absent one reads as empty.
   */
  ghost predicate HandedOn(log: Log, creatorClock: Clock, creatorId: int, exits: map<Tid, Clock>) {
    && CreatorAt(log, |log|) == (if creatorId != -1 then creatorClock else map[])
    && forall u :: ExitAt(log, |log|, u) == if u in exits then exits[u] else map[]
  }

  /** What `e` hands over: perhaps a creator clock, perhaps an exit clock. */
  ghost predicate Hands(log: Log, e: Event, creator: Clock, exits: set<Tid>, exit: Clock) {
    && CreatorAt(log + [e], |log + [e]|) == creator
    && forall u :: ExitAt(log + [e], |log + [e]|, u) == if u in exits then exit else ExitAt(log, |log|, u)
  }

  ghost predicate HandsNothing(log: Log, e: Event) {
    Hands(log, e, CreatorAt(log, |log|), {}, map[])
  }

  lemma NothingHanded(log: Log, e: Event)
    requires !e.Create? && !e.Exit?
    ensures HandsNothing(log, e)
  {
    HandOffStep(log, e);
    forall u { ExitStep(log, e, u); }
  }

  lemma HandOn(log: Log, e: Event, c: Clock, id: int, exits: map<Tid, Clock>)
    requires HandedOn(log, c, id, exits) && HandsNothing(log, e)
    ensures HandedOn(log + [e], c, id, exits)
  {
  }

  /** `e` changes neither the handed-over clocks nor what the heuristic has seen. */
  ghost predicate Quiet(unpersisted: bool, log: Log, e: Event) {
    && HandsNothing(log, e)
    && TouchedAt(unpersisted, log + [e], |log + [e]|) == TouchedAt(unpersisted, log, |log|)
  }

  ghost predicate AllRep(names: map<Mutex, nat>, log: Log, n: nat, unpersisted: bool, snaps: seq<Snapshot>) {
    forall t: nat {:trigger ThreadRep(names, log, n, unpersisted, t, snaps[t])} | t < |snaps| ::
      ThreadRep(names, log, n, unpersisted, t, snaps[t])
  }

  /** The acting thread's new data and everyone else's old data stand for the longer history. */
  lemma Commit(names: map<Mutex, nat>, more: map<Mutex, nat>, log: Log, e: Event, n: nat, unpersisted: bool,
               snaps: seq<Snapshot>, s': Snapshot)
    requires AllRep(names, log, n, unpersisted, snaps) && Extends(more, names) && e.tid < |snaps|
    requires ThreadRep(more, log + [e], n, unpersisted, e.tid, s')
    ensures AllRep(more, log + [e], n, unpersisted, snaps[e.tid := s'])
  {
    forall t: nat | t < |snaps| && t != e.tid
      ensures ThreadRep(more, log + [e], n, unpersisted, t, snaps[t])
    {
      OtherThreadStays(names, more, log, e, n, unpersisted, t, snaps[t]);
    }
  }

  /** New lock names change nothing that is already encoded. */
  lemma NamesKeep(names: map<Mutex, nat>, more: map<Mutex, nat>, log: Log, n: nat, unpersisted: bool,
                  snaps: seq<Snapshot>)
    requires AllRep(names, log, n, unpersisted, snaps) && Extends(more, names)
    ensures AllRep(more, log, n, unpersisted, snaps)
  {
    forall t: nat | t < |snaps|
      ensures ThreadRep(more, log, n, unpersisted, t, snaps[t])
    {
      assert ThreadRep(names, log, n, unpersisted, t, snaps[t]);
      ThreadKeepsNames(names, more, log, n, unpersisted, t, snaps[t]);
    }
  }

  // -------------------------------------------------------------------------- locks

  lemma LockEvent(names: map<Mutex, nat>, more: map<Mutex, nat>, log: Log, e: Event, s: Snapshot, s': Snapshot)
    requires Extends(more, names) && Injective(more) && LocksRep(names, log, e.tid, s)
    requires e.Lock? && e.mutex in more
    requires s'.timestamps == s.timestamps[more[e.mutex] := s.lockClock]
    requires s'.lockClock == (s.lockClock + 1) % TIMESTAMPS
    requires s'.cached == None
    ensures LocksRep(more, log + [e], e.tid, s')
  {
    var held := LocksAt(log, |log|, e.tid).held;
    SameLocks(log, e, |log|, e.tid);
    EncodesExtends(names, more, s.timestamps, held);
    EncodesLock(more, s.timestamps, held, e.mutex, s.lockClock);
  }

  lemma UnlockEvent(names: map<Mutex, nat>, more: map<Mutex, nat>, log: Log, e: Event, s: Snapshot, s': Snapshot)
    requires Extends(more, names) && Injective(more) && LocksRep(names, log, e.tid, s)
    requires e.Unlock? && e.mutex in more
    requires s'.timestamps == s.timestamps - {more[e.mutex]} && s'.lockClock == s.lockClock && s'.cached == None
    ensures LocksRep(more, log + [e], e.tid, s')
  {
    var held := LocksAt(log, |log|, e.tid).held;
    SameLocks(log, e, |log|, e.tid);
    EncodesExtends(names, more, s.timestamps, held);
    EncodesUnlock(more, s.timestamps, held, e.mutex);
  }

  // ------------------------------------------------------------------------- clocks

  /** The clock an event pushes when it comes next. */
  function NextClock(log: Log, e: Event): Clock
    requires PushesClock(e)
  {
    assert (log + [e])[|log|] == e;
    Pushed(log + [e], |log|)
  }

  /** It is made from the clocks as they are just before. */
  lemma NextFromNow(log: Log, e: Event)
    requires PushesClock(e)
    ensures (log + [e])[|log|] == e && Current(log + [e], |log|, e.tid) == Current(log, |log|, e.tid)
    ensures CreatorAt(log + [e], |log|) == CreatorAt(log, |log|)
    ensures e.Join? ==> ExitAt(log + [e], |log|, e.other) == ExitAt(log, |log|, e.other)
  {
    SameClocks(log, e, |log|);
  }

  lemma ClockEvent(log: Log, e: Event, s: Snapshot, s': Snapshot)
    requires PushesClock(e) && ClocksRep(log, e.tid, s)
    requires s'.clocks == s.clocks + [NextClock(log, e)] && (s'.used <==> s.used || e.Init?)
    ensures ClocksRep(log + [e], e.tid, s')
  {
    var log' := log + [e];
    SameClocks(log, e, |log|);
    StartedStays(log, e, e.tid);
    assert log'[|log|] == e;
    assert Current(log', |log|, e.tid) == Current(log, |log|, e.tid);
    assert ClocksAt(log', |log| + 1, e.tid) == ClocksAt(log', |log|, e.tid) + [Pushed(log', |log|)];
  }

  // -------------------------------------------------------------------------- cache

  lemma OfLineRep(names: map<Mutex, nat>, log: Log, t: Tid, m: map<Addr, StoreData>, idx: map<Addr, nat>, cl: Addr)
    requires PendRep(names, log, t, m, idx)
    ensures PendRep(names, log, t, OfLine(m, cl), OfLine(idx, cl))
    ensures PendRep(names, log, t, m - OfLine(m, cl).Keys, idx - OfLine(idx, cl).Keys)
    ensures OfLine(m, cl).Keys == OfLine(idx, cl).Keys
  {
  }

  lemma PlusRep(names: map<Mutex, nat>, log: Log, t: Tid, m: map<Addr, StoreData>, idx: map<Addr, nat>,
                m': map<Addr, StoreData>, idx': map<Addr, nat>)
    requires PendRep(names, log, t, m, idx) && PendRep(names, log, t, m', idx')
    ensures PendRep(names, log, t, m + m', idx + idx')
  {
  }

  /** From `s` to `s'` the dirty bytes of one line were moved. Quantified, so that callers carry it whole. */
  ghost predicate LineFlushed(s: Snapshot, s': Snapshot, line: Addr) {
    forall cl {:trigger DirtyMoved(s, s', cl)} | cl == line :: DirtyMoved(s, s', cl)
  }

  ghost predicate DirtyMoved(s: Snapshot, s': Snapshot, line: Addr) {
    && InLines(s.mem) && InLines(s.flushed) && InLines(s'.mem) && InLines(s'.flushed)
    && s' == s.(mem := s'.mem, flushed := s'.flushed)
    && Flat(s'.mem) == Flat(s.mem) - OfLine(Flat(s.mem), line).Keys
    && Flat(s'.flushed) == Flat(s.flushed) + OfLine(Flat(s.mem), line)
  }

  lemma LineMoved(s: Snapshot, s': Snapshot, line: Addr)
    requires InLines(s.mem) && InLines(s.flushed) && InLines(s'.flushed) && line in s.mem
    requires s' == s.(mem := s.mem - {line}, flushed := s'.flushed)
    requires Flat(s'.flushed) == Flat(s.flushed) + s.mem[line]
    ensures LineFlushed(s, s', line)
  {
    LineOfFlat(s.mem, line);
    DropLineFlat(s.mem, line);
  }

  lemma LineAbsent(s: Snapshot, line: Addr)
    requires InLines(s.mem) && InLines(s.flushed) && line !in s.mem
    ensures LineFlushed(s, s, line)
  {
    LineOfFlat(s.mem, line);
    NothingMoved(Flat(s.mem), Flat(s.flushed));
  }

  lemma NothingMoved(m: map<Addr, StoreData>, f: map<Addr, StoreData>)
    ensures var none: map<Addr, StoreData> := map[]; m - none.Keys == m && f + none == f
  {
  }

  lemma FlushEvent(names: map<Mutex, nat>, log: Log, e: Event, unpersisted: bool, s: Snapshot, s': Snapshot)
    requires e.Flush? && CacheRep(names, log, unpersisted, e.tid, s) && DirtyMoved(s, s', CacheLine(e.addr))
    ensures CacheRep(names, log + [e], unpersisted, e.tid, s')
  {
    var t, log' := e.tid, log + [e];
    var c := CacheAt(unpersisted, log, |log|, t);
    MemKeeps(names, names, log, e, t, s.mem, c.dirty);
    MemKeeps(names, names, log, e, t, s.flushed, c.flushed);
    OfLineRep(names, log', t, Flat(s.mem), c.dirty, CacheLine(e.addr));
    PlusRep(names, log', t, Flat(s.flushed), c.flushed, OfLine(Flat(s.mem), CacheLine(e.addr)),
            OfLine(c.dirty, CacheLine(e.addr)));
    CacheNow(unpersisted, log, e);
  }

  lemma CacheNow(unpersisted: bool, log: Log, e: Event)
    ensures CacheAt(unpersisted, log + [e], |log + [e]|, e.tid)
         == CacheStep(unpersisted, CacheAt(unpersisted, log, |log|, e.tid), e.tid, |log|, e)
  {
    SameCache(unpersisted, log, e, |log|, e.tid);
    assert (log + [e])[|log|] == e;
  }

  /** The nested maps of every thread keep each byte in its own line. */
  lemma ReadLines(names: map<Mutex, nat>, log: Log, n: nat, unpersisted: bool, snaps: seq<Snapshot>, t: Tid)
    requires AllRep(names, log, n, unpersisted, snaps) && t < |snaps|
    ensures InLines(snaps[t].mem) && InLines(snaps[t].flushed)
  {
    assert ThreadRep(names, log, n, unpersisted, t, snaps[t]);
  }

  lemma FlushKeeps(names: map<Mutex, nat>, log: Log, e: Event, n: nat, unpersisted: bool, snaps: seq<Snapshot>,
                   s': Snapshot)
    requires e.Flush? && AllRep(names, log, n, unpersisted, snaps) && e.tid < |snaps|
    requires LineFlushed(snaps[e.tid], s', CacheLine(e.addr))
    ensures AllRep(names, log + [e], n, unpersisted, snaps[e.tid := s']) && Quiet(unpersisted, log, e)
  {
    NothingHanded(log, e);
    NothingTouched(unpersisted, log, e);
    var s := snaps[e.tid];
    assert ThreadRep(names, log, n, unpersisted, e.tid, s) && DirtyMoved(s, s', CacheLine(e.addr));
    LocksStay(names, names, log, e, e.tid, s);
    ClocksStay(log, e, e.tid, s);
    FlushEvent(names, log, e, unpersisted, s, s');
    OutputStays(names, names, log, e, n, unpersisted, e.tid, s);
    Commit(names, names, log, e, n, unpersisted, snaps, s');
  }

  // --------------------------------------------------------- whole-state steps, per event

  /** From `s` to `s'` the lock with index `i` was taken, with the next timestamp, or released. */
  ghost predicate LockChanged(s: Snapshot, s': Snapshot, i: nat, taken: bool) {
    forall j {:trigger IndexChanged(s, s', j, taken)} | j == i :: IndexChanged(s, s', j, taken)
  }

  ghost predicate IndexChanged(s: Snapshot, s': Snapshot, i: nat, taken: bool) {
    s' == if taken
          then s.(timestamps := s.timestamps[i := s.lockClock], lockClock := (s.lockClock + 1) % TIMESTAMPS,
                cached := None)
          else s.(timestamps := s.timestamps - {i}, cached := None)
  }

  lemma LockKeeps(names: map<Mutex, nat>, more: map<Mutex, nat>, log: Log, e: Event, n: nat, unpersisted: bool,
                  snaps: seq<Snapshot>, s': Snapshot)
    requires (e.Lock? || e.Unlock?) && AllRep(names, log, n, unpersisted, snaps) && e.tid < |snaps|
    requires Extends(more, names) && Injective(more) && e.mutex in more
    requires LockChanged(snaps[e.tid], s', more[e.mutex], e.Lock?)
    ensures AllRep(more, log + [e], n, unpersisted, snaps[e.tid := s']) && Quiet(unpersisted, log, e)
  {
    NothingHanded(log, e);
    NothingTouched(unpersisted, log, e);
    assert ThreadRep(names, log, n, unpersisted, e.tid, snaps[e.tid]);
    assert IndexChanged(snaps[e.tid], s', more[e.mutex], e.Lock?);
    LockRepresents(names, more, log, e, n, unpersisted, snaps[e.tid], s');
    Commit(names, more, log, e, n, unpersisted, snaps, s');
  }

  lemma LockRepresents(names: map<Mutex, nat>, more: map<Mutex, nat>, log: Log, e: Event, n: nat, unpersisted: bool,
                       s: Snapshot, s': Snapshot)
    requires (e.Lock? || e.Unlock?) && ThreadRep(names, log, n, unpersisted, e.tid, s)
    requires Extends(more, names) && Injective(more) && e.mutex in more && IndexChanged(s, s', more[e.mutex], e.Lock?)
    ensures ThreadRep(more, log + [e], n, unpersisted, e.tid, s')
  {
    LocksChange(names, more, log, e, s, s');
    RestStays(names, more, log, e, n, unpersisted, s, s');
  }

  lemma RestStays(names: map<Mutex, nat>, more: map<Mutex, nat>, log: Log, e: Event, n: nat, unpersisted: bool,
                  s: Snapshot, s': Snapshot)
    requires (e.Lock? || e.Unlock?) && Extends(more, names)
    requires ClocksRep(log, e.tid, s) && CacheRep(names, log, unpersisted, e.tid, s)
    requires OutputRep(names, log, n, unpersisted, e.tid, s)
    requires s' == s.(timestamps := s'.timestamps, lockClock := s'.lockClock, cached := s'.cached)
    ensures ClocksRep(log + [e], e.tid, s') && CacheRep(more, log + [e], unpersisted, e.tid, s')
    ensures OutputRep(more, log + [e], n, unpersisted, e.tid, s')
  {
    ClocksStay(log, e, e.tid, s);
    CacheStays(names, more, log, e, unpersisted, e.tid, s);
    OutputStays(names, more, log, e, n, unpersisted, e.tid, s);
  }

  lemma LocksChange(names: map<Mutex, nat>, more: map<Mutex, nat>, log: Log, e: Event, s: Snapshot, s': Snapshot)
    requires (e.Lock? || e.Unlock?) && LocksRep(names, log, e.tid, s)
    requires Extends(more, names) && Injective(more) && e.mutex in more && IndexChanged(s, s', more[e.mutex], e.Lock?)
    ensures LocksRep(more, log + [e], e.tid, s')
  {
    if e.Lock? {
      LockEvent(names, more, log, e, s, s');
    } else {
      UnlockEvent(names, more, log, e, s, s');
    }
  }

  /** From `s` to `s'` one clock was pushed. */
  ghost predicate ClockPushed(s: Snapshot, s': Snapshot, c: Clock, used: bool) {
    forall x {:trigger OneMoreClock(s, s', x, used)} | x == c :: OneMoreClock(s, s', x, used)
  }

  ghost predicate OneMoreClock(s: Snapshot, s': Snapshot, c: Clock, used: bool) {
    s' == s.(clocks := s.clocks + [c], used := used)
  }

  lemma ClockKeeps(names: map<Mutex, nat>, log: Log, e: Event, n: nat, unpersisted: bool, snaps: seq<Snapshot>,
                   s': Snapshot)
    requires PushesClock(e) && (unpersisted ==> !e.Exit?)
    requires AllRep(names, log, n, unpersisted, snaps) && e.tid < |snaps|
    requires ClockPushed(snaps[e.tid], s', NextClock(log, e), snaps[e.tid].used || e.Init?)
    ensures AllRep(names, log + [e], n, unpersisted, snaps[e.tid := s'])
  {
    var s := snaps[e.tid];
    assert ThreadRep(names, log, n, unpersisted, e.tid, s) && OneMoreClock(s, s', NextClock(log, e), s.used || e.Init?);
    LocksStay(names, names, log, e, e.tid, s);
    ClockEvent(log, e, s, s');
    CacheStays(names, names, log, e, unpersisted, e.tid, s);
    OutputStays(names, names, log, e, n, unpersisted, e.tid, s);
    Commit(names, names, log, e, n, unpersisted, snaps, s');
  }

  /** The last stored clock is the thread's current one. */
  lemma ReadClock(names: map<Mutex, nat>, log: Log, n: nat, unpersisted: bool, snaps: seq<Snapshot>, t: Tid)
    requires AllRep(names, log, n, unpersisted, snaps) && t < |snaps|
    ensures snaps[t].clocks != [] ==> Current(log, |log|, t) == Last(snaps[t].clocks)
    ensures snaps[t].clocks == ClocksAt(log, |log|, t)
  {
    assert ThreadRep(names, log, n, unpersisted, t, snaps[t]);
  }

  lemma CreateClock(log: Log, e: Event, c: Clock)
    requires e.Create? && Current(log, |log|, e.tid) == c
    ensures NextClock(log, e) == Ticked(Ticked(c, e.tid), e.tid)
    ensures Hands(log, e, Ticked(c, e.tid), {}, map[])
  {
    NextFromNow(log, e);
    HandOffStep(log, e);
    forall u { ExitStep(log, e, u); }
  }

  lemma InitClockNext(log: Log, e: Event)
    requires e.Init?
    ensures NextClock(log, e) == Ticked(Ticked(CreatorAt(log, |log|), e.tid), e.tid)
  {
    NextFromNow(log, e);
  }

  lemma JoinClock(log: Log, e: Event, c: Clock)
    requires e.Join? && Current(log, |log|, e.tid) == c
    ensures NextClock(log, e) == Merged(Ticked(c, e.tid), ExitAt(log, |log|, e.other))
  {
    NextFromNow(log, e);
  }

  lemma ExitClock(log: Log, e: Event, c: Clock)
    requires e.Exit? && Current(log, |log|, e.tid) == c
    ensures NextClock(log, e) == Ticked(c, e.tid)
    ensures Hands(log, e, CreatorAt(log, |log|), {e.tid}, Ticked(c, e.tid))
  {
    NextFromNow(log, e);
    HandOffStep(log, e);
    forall u { ExitStep(log, e, u); }
  }

  // ------------------------------------------------------- the clock events, all at once

  lemma CreateKeeps(names: map<Mutex, nat>, log: Log, e: Event, n: nat, unpersisted: bool, snaps: seq<Snapshot>,
                    s': Snapshot, creator: Clock)
    requires e.Create? && AllRep(names, log, n, unpersisted, snaps) && e.tid < |snaps| && snaps[e.tid].clocks != []
    requires creator == Ticked(Last(snaps[e.tid].clocks), e.tid)
    requires ClockPushed(snaps[e.tid], s', Ticked(creator, e.tid), snaps[e.tid].used)
    ensures AllRep(names, log + [e], n, unpersisted, snaps[e.tid := s'])
    ensures Hands(log, e, creator, {}, map[])
    ensures TouchedAt(unpersisted, log + [e], |log + [e]|) == TouchedAt(unpersisted, log, |log|)
  {
    ReadClock(names, log, n, unpersisted, snaps, e.tid);
    CreateClock(log, e, Last(snaps[e.tid].clocks));
    ClockKeeps(names, log, e, n, unpersisted, snaps, s');
    NothingTouched(unpersisted, log, e);
  }

  lemma InitKeeps(names: map<Mutex, nat>, log: Log, e: Event, n: nat, unpersisted: bool, snaps: seq<Snapshot>,
                  s': Snapshot)
    requires e.Init? && AllRep(names, log, n, unpersisted, snaps) && e.tid < |snaps|
    requires ClockPushed(snaps[e.tid], s', Ticked(Ticked(CreatorAt(log, |log|), e.tid), e.tid), true)
    ensures AllRep(names, log + [e], n, unpersisted, snaps[e.tid := s']) && Quiet(unpersisted, log, e)
  {
    InitClockNext(log, e);
    ClockKeeps(names, log, e, n, unpersisted, snaps, s');
    NothingHanded(log, e);
    NothingTouched(unpersisted, log, e);
  }

  lemma JoinKeeps(names: map<Mutex, nat>, log: Log, e: Event, n: nat, unpersisted: bool, snaps: seq<Snapshot>,
                  s': Snapshot)
    requires e.Join? && AllRep(names, log, n, unpersisted, snaps) && e.tid < |snaps| && snaps[e.tid].clocks != []
    requires ClockPushed(snaps[e.tid], s',
          Merged(Ticked(Last(snaps[e.tid].clocks), e.tid), ExitAt(log, |log|, e.other)), snaps[e.tid].used)
    ensures AllRep(names, log + [e], n, unpersisted, snaps[e.tid := s']) && Quiet(unpersisted, log, e)
  {
    ReadClock(names, log, n, unpersisted, snaps, e.tid);
    JoinClock(log, e, Last(snaps[e.tid].clocks));
    ClockKeeps(names, log, e, n, unpersisted, snaps, s');
    NothingHanded(log, e);
    NothingTouched(unpersisted, log, e);
  }
}
