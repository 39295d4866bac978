/** Fences, thread exits and loads: what they record, and that the data follow the history. */
module DetectorEvents {
  import opened DetectorRecords
  import opened DetectorState
  import opened DetectorSteps
  import opened Events
  import opened FirstTouchFilters
  import opened HappensBefore
  import opened Ledger
  import opened LockHistory
  import opened Locksets
  import opened LogExtension
  import opened Records
  import opened Registry
  import opened VectorClocks

  // ------------------------------------------------------------------------- fences

  /** A fence shows every flushed byte to the heuristic. */
  ghost predicate FenceShown(m: Moment)
    requires m.history != []
  {
    m.end == m.start + Asking(m.Tid(), m.pending.flushed.Keys)
  }

  lemma FenceStarts(m: Moment, names: map<Mutex, nat>, log: Log, e: Event, n: nat, unpersisted: bool,
                    snaps: seq<Snapshot>)
    requires e.Fence? && Injective(names) && AllRep(names, log, n, unpersisted, snaps) && e.tid < |snaps|
    requires m == MomentOf(names, log, e, n, unpersisted)
    ensures Begins(m, snaps[e.tid]) && FenceShown(m)
  {
    MomentStarts(m, names, log, e, n, unpersisted, snaps);
    TouchIsAsking(m, names, log, e, n, unpersisted);
  }

  /** The flushed bytes are all from before and will be asked about, and none is recorded yet. */
  lemma FlushedReady(m: Moment, s: Snapshot)
    requires m.history != [] && m.Valid() && m.Past() && Before(m, s)
    requires forall a | a in m.pending.flushed :: (m.Tid(), a) in m.end
    ensures MemOk(m, s.flushed, m.pending.flushed)
    ensures NotYet(m, m.ledger, m.pending.flushed.Keys, true)
  {
  }

  lemma NothingFlushed(m: Moment, s: Snapshot)
    requires m.history != [] && Before(m, s) && s.flushed == map[]
    ensures m.pending.flushed == map[]
    ensures m.start + Asking(m.Tid(), m.pending.flushed.Keys) == m.start
    ensures AllDrained(m) == m.ledger
  {
    assert MemRep(m.names, m.history, m.Tid(), s.flushed, m.pending.flushed);
    assert Flat(s.flushed) == map[];
    assert m.pending.flushed.Keys == {};
  }

  /** The ledger after recording every flushed byte as persisted. */
  ghost function AllDrained(m: Moment): set<Entry>
    requires m.history != []
  {
    Extended(m, m.ledger, m.pending.flushed, m.pending.flushed.Keys, true, true)
  }

  /** What the thread's data are once the fence is carried out. */
  ghost predicate Fenced(m: Moment, s: Snapshot)
    requires m.history != []
  {
    && HasMem(m, s.mem, m.pending.dirty) && s.flushed == map[]
    && HasRecords(m, s.stores, s.entries, AllDrained(m))
  }

  lemma FenceEmits(m: Moment, names: map<Mutex, nat>, log: Log, e: Event, n: nat, unpersisted: bool)
    requires e.Fence? && m == MomentOf(names, log, e, n, unpersisted)
    ensures LedgerAt(n, unpersisted, log + [e], |log + [e]|, e.tid) == AllDrained(m)
  {
    LedgerNow(log, e, n, unpersisted);
  }

  lemma FenceKeeps(m: Moment, names: map<Mutex, nat>, log: Log, e: Event, n: nat, unpersisted: bool,
                   snaps: seq<Snapshot>, s': Snapshot)
    requires e.Fence? && AllRep(names, log, n, unpersisted, snaps) && e.tid < |snaps| && Stored(snaps[e.tid], s')
    requires m == MomentOf(names, log, e, n, unpersisted) && Fenced(m, s')
    ensures AllRep(names, log + [e], n, unpersisted, snaps[e.tid := s'])
    ensures HandsNothing(log, e)
  {
    CacheNow(unpersisted, log, e);
    FenceEmits(m, names, log, e, n, unpersisted);
    assert m.Tid() == e.tid;
    assert MemRep(m.names, m.history, m.Tid(), s'.mem, m.pending.dirty);
    assert StoresRep(m.names, m.history, m.Tid(), s'.stores, s'.entries, AllDrained(m));
    assert Flat(s'.flushed) == map[];
    StoredKeeps(names, log, e, n, unpersisted, snaps, s');
  }

  // -------------------------------------------------------------------------- exits

  /** With unpersisted checking on, an exit shows every pending byte to the heuristic. */
  ghost predicate ExitShown(m: Moment)
    requires m.history != []
  {
    m.end == if m.unpersisted
             then m.start + Asking(m.Tid(), m.pending.dirty.Keys) + Asking(m.Tid(), m.pending.flushed.Keys)
             else m.start
  }

  lemma ExitStarts(m: Moment, names: map<Mutex, nat>, log: Log, e: Event, n: nat, unpersisted: bool,
                   snaps: seq<Snapshot>)
    requires e.Exit? && Injective(names) && AllRep(names, log, n, unpersisted, snaps) && e.tid < |snaps|
    requires m == MomentOf(names, log, e, n, unpersisted)
    ensures Begins(m, snaps[e.tid]) && ExitShown(m)
  {
    MomentStarts(m, names, log, e, n, unpersisted, snaps);
    TouchIsAsking(m, names, log, e, n, unpersisted);
    AskingUnion(m.start, e.tid, m.pending.dirty.Keys, m.pending.flushed.Keys);
    AskingNone(m.start, e.tid);
  }

  /** The ledger after recording the dirty bytes, and after recording the flushed ones too. */
  ghost function DirtyLost(m: Moment): set<Entry>
    requires m.history != []
  {
    Extended(m, m.ledger, m.pending.dirty, m.pending.dirty.Keys, false, false)
  }

  ghost function AllLost(m: Moment): set<Entry>
    requires m.history != []
  {
    Extended(m, DirtyLost(m), m.pending.flushed, m.pending.flushed.Keys, false, true)
  }

  lemma PendingReady(m: Moment, s: Snapshot)
    requires m.history != [] && m.unpersisted && m.Valid() && m.Past() && Before(m, s) && ExitShown(m)
    ensures MemOk(m, s.mem, m.pending.dirty) && MemOk(m, s.flushed, m.pending.flushed)
    ensures NotYet(m, m.ledger, m.pending.dirty.Keys, false) && NotYet(m, DirtyLost(m), m.pending.flushed.Keys, true)
  {
  }

  /** From `s` to `s'` only records were made. */
  ghost predicate OnlyRecorded(s: Snapshot, s': Snapshot) {
    && s' == s.(cached := s'.cached, stores := s'.stores, entries := s'.entries)
    && (s'.cached.Some? ==> s'.cached.value.timestamps == s.timestamps)
  }

  /** The records of an exit, before its clock is pushed; quantified so that callers carry it whole. */
  ghost predicate AllRecorded(m: Moment, s: Snapshot, s': Snapshot)
    requires m.history != []
  {
    forall x {:trigger OnlyRecorded(s, x)} | x == s' ::
      OnlyRecorded(s, x) && HasRecords(m, x.stores, x.entries, if m.unpersisted then AllLost(m) else m.ledger)
  }

  lemma ExitEmits(m: Moment, names: map<Mutex, nat>, log: Log, e: Event, n: nat, unpersisted: bool)
    requires e.Exit? && m == MomentOf(names, log, e, n, unpersisted)
    ensures LedgerAt(n, unpersisted, log + [e], |log + [e]|, e.tid) == if m.unpersisted then AllLost(m) else m.ledger
  {
    LedgerNow(log, e, n, unpersisted);
  }

  lemma ExitRecords(m: Moment, names: map<Mutex, nat>, log: Log, e: Event, n: nat, unpersisted: bool, s: Snapshot,
                    s': Snapshot)
    requires e.Exit? && m == MomentOf(names, log, e, n, unpersisted) && AllRecorded(m, s, s')
    requires OutputRep(names, log, n, unpersisted, e.tid, s)
    ensures OutputRep(names, log + [e], n, unpersisted, e.tid, s')
  {
    ExitEmits(m, names, log, e, n, unpersisted);
    assert m.Tid() == e.tid && OnlyRecorded(s, s');
    assert StoresRep(m.names, m.history, m.Tid(), s'.stores, s'.entries, if m.unpersisted
          then AllLost(m) else m.ledger);
    LoadsKeep(names, names, log, e, e.tid, s.loads, s.ptrs);
    LoadSetStays(log, e, n, unpersisted, e.tid);
  }

  lemma ExitKeeps(m: Moment, names: map<Mutex, nat>, log: Log, e: Event, n: nat, unpersisted: bool,
                  snaps: seq<Snapshot>,
                  mid: Snapshot, s': Snapshot, clock: Clock)
    requires e.Exit? && AllRep(names, log, n, unpersisted, snaps) && e.tid < |snaps| && snaps[e.tid].clocks != []
    requires m == MomentOf(names, log, e, n, unpersisted) && AllRecorded(m, snaps[e.tid], mid)
    requires clock == Ticked(Last(snaps[e.tid].clocks), e.tid) && ClockPushed(mid, s', clock, mid.used)
    ensures AllRep(names, log + [e], n, unpersisted, snaps[e.tid := s'])
    ensures Hands(log, e, CreatorAt(log, |log|), {e.tid}, clock)
  {
    var s := snaps[e.tid];
    assert ThreadRep(names, log, n, unpersisted, e.tid, s);
    ReadClock(names, log, n, unpersisted, snaps, e.tid);
    ExitClock(log, e, Last(s.clocks));
    LocksStay(names, names, log, e, e.tid, s);
    CacheStays(names, names, log, e, unpersisted, e.tid, s);
    ExitRecords(m, names, log, e, n, unpersisted, s, mid);
    assert OnlyRecorded(s, mid);
    ExitRepresented(names, log, e, n, unpersisted, s, mid, s');
    Commit(names, names, log, e, n, unpersisted, snaps, s');
  }

  lemma ExitRepresented(names: map<Mutex, nat>, log: Log, e: Event, n: nat, unpersisted: bool, s: Snapshot,
                        mid: Snapshot, s': Snapshot)
    requires e.Exit? && ClocksRep(log, e.tid, s)
    requires LocksRep(names, log + [e], e.tid, s) && CacheRep(names, log + [e], unpersisted, e.tid, s)
    requires OnlyRecorded(s, mid)
    requires OutputRep(names, log + [e], n, unpersisted, e.tid, mid)
    requires ClockPushed(mid, s', NextClock(log, e), mid.used)
    ensures ThreadRep(names, log + [e], n, unpersisted, e.tid, s')
  {
    assert OneMoreClock(mid, s', NextClock(log, e), mid.used);
    ClockEvent(log, e, s, s');
  }

  // -------------------------------------------------------------------------- loads

  lemma LoadStarts(m: Moment, names: map<Mutex, nat>, log: Log, e: Event, n: nat, unpersisted: bool)
    requires e.Load? && m == MomentOf(names, log, e, n, unpersisted)
    ensures m.end == m.start + if e.size > 0 then {(e.tid, e.addr)} else {}
  {
    TouchIsAsking(m, names, log, e, n, unpersisted);
    AskingFirst(e.tid, e.addr, e.size);
  }

  lemma MaskIsNone(size: nat, published: bool)
    requires size <= 64
    ensures Any(UniformMask(size, published)) <==> size > 0 && published
  {
    if size > 0 && published {
      assert UniformMask(size, published)[0];
    }
  }

  /** Filing pointer `p` under `key`. */
  function FileLoad(loads: map<AccessKey, set<PLockset>>, key: AccessKey, p: PLockset): map<AccessKey, set<PLockset>> {
    loads[key := (if key in loads then loads[key] else {}) + {p}]
  }

  /** From `s` to `s'` the load `e`, the next event, was filed; or it was ignored. */
  ghost predicate LoadFiled(s: Snapshot, s': Snapshot, e: Event, l: nat, p: PLockset)
    requires e.Load?
  {
    && s' == s.(cached := s'.cached, ptrs := s.ptrs[l := p],
                loads := FileLoad(s.loads, AccessKey(e.addr, e.trace, (|s.clocks| - 1) % EPOCHS, LowMask(e.size)), p))
    && (s'.cached.Some? ==> s'.cached.value.timestamps == s.timestamps)
    && p.Content() == s.timestamps.Keys
  }

  ghost predicate LoadDone(s: Snapshot, s': Snapshot, e: Event, l: nat, recorded: bool)
    requires e.Load?
  {
    if recorded then l in s'.ptrs && LoadFiled(s, s', e, l, s'.ptrs[l]) else s' == s
  }

  lemma FiledStays(log: Log, loads: map<AccessKey, set<PLockset>>, ptrs: map<nat, PLockset>, l: nat, p: PLockset,
                   key: AccessKey, q: PLockset)
    requires l !in ptrs && Filed(log, ptrs, key, q)
    ensures Filed(log, ptrs[l := p], key, q)
  {
    var x :| x in ptrs && FiledFor(log, ptrs, key, q, x);
    assert FiledFor(log, ptrs[l := p], key, q, x);
  }

  lemma OneMoreLoad(names: map<Mutex, nat>, log: Log, t: Tid, loads: map<AccessKey, set<PLockset>>,
                    ptrs: map<nat, PLockset>, l: nat, p: PLockset)
    requires LoadsRep(names, log, t, loads, ptrs) && l !in ptrs && l < |log| && log[l].Load?
    requires LoadOk(names, log, t, FileLoad(loads, KeyOf(log, l), p), l, p)
    ensures LoadsRep(names, log, t, FileLoad(loads, KeyOf(log, l), p), ptrs[l := p])
  {
    var loads', ptrs' := FileLoad(loads, KeyOf(log, l), p), ptrs[l := p];
    forall x | x in ptrs'
      ensures LoadOk(names, log, t, loads', x, ptrs'[x])
    {
      assert x != l ==> LoadOk(names, log, t, loads, x, ptrs[x]);
    }
    forall key, q | key in loads' && q in loads'[key]
      ensures Filed(log, ptrs[l := p], key, q)
    {
      if key in loads && q in loads[key] {
        FiledStays(log, loads, ptrs, l, p, key, q);
      } else {
        assert FiledFor(log, ptrs[l := p], key, q, l);
      }
    }
  }

  lemma NewLoadOk(names: map<Mutex, nat>, log: Log, e: Event, s: Snapshot, p: PLockset)
    requires e.Load? && e.size <= 64 && LocksRep(names, log, e.tid, s) && ClocksRep(log, e.tid, s)
    requires p.Content() == s.timestamps.Keys
    ensures KeyOf(log + [e], |log|) == AccessKey(e.addr, e.trace, (|s.clocks| - 1) % EPOCHS, LowMask(e.size))
    ensures LoadOk(names, log + [e], e.tid, FileLoad(s.loads, KeyOf(log + [e], |log|), p), |log|, p)
  {
    SameClocks(log, e, |log|);
    SameLocks(log, e, |log|, e.tid);
    assert (log + [e])[|log|] == e;
    assert HeldSet(log + [e], |log|, e.tid) == LocksAt(log, |log|, e.tid).held.Keys;
  }

  lemma LoadSetGrows(n: nat, unpersisted: bool, log: Log, e: Event)
    ensures LoadsAt(n, unpersisted, log + [e], |log + [e]|, e.tid)
         == LoadsAt(n, unpersisted, log, |log|, e.tid)
               + if RecordedLoad(n, unpersisted, log + [e], |log|) then {|log|} else {}
  {
    SameLoads(n, unpersisted, log, e, |log|, e.tid);
    assert (log + [e])[|log|] == e;
  }

  lemma LoadsAfter(names: map<Mutex, nat>, log: Log, e: Event, s: Snapshot, s': Snapshot, p: PLockset)
    requires e.Load? && e.size <= 64 && LoadFiled(s, s', e, |log|, p)
    requires LocksRep(names, log, e.tid, s) && ClocksRep(log, e.tid, s) && LoadsRep(names, log, e.tid, s.loads, s.ptrs)
    ensures LoadsRep(names, log + [e], e.tid, s'.loads, s'.ptrs)
  {
    LoadsKeep(names, names, log, e, e.tid, s.loads, s.ptrs);
    NewLoadOk(names, log, e, s, p);
    OneMoreLoad(names, log + [e], e.tid, s.loads, s.ptrs, |log|, p);
  }

  lemma LoadOutput(names: map<Mutex, nat>, log: Log, e: Event, n: nat, unpersisted: bool, s: Snapshot, s': Snapshot,
                   recorded: bool)
    requires e.Load? && e.size <= 64
    requires LocksRep(names, log, e.tid, s) && ClocksRep(log, e.tid, s)
    requires OutputRep(names, log, n, unpersisted, e.tid, s)
    requires LoadDone(s, s', e, |log|, recorded)
    requires LoadsAt(n, unpersisted, log + [e], |log + [e]|, e.tid)
          == LoadsAt(n, unpersisted, log, |log|, e.tid) + if recorded then {|log|} else {}
    ensures OutputRep(names, log + [e], n, unpersisted, e.tid, s')
  {
    LedgerStays(log, e, n, unpersisted, e.tid);
    StoresKeep(names, names, log, e, e.tid, s.stores, s.entries, LedgerAt(n, unpersisted, log, |log|, e.tid));
    LoadsFollow(names, log, e, s, s', recorded);
  }

  lemma LoadsFollow(names: map<Mutex, nat>, log: Log, e: Event, s: Snapshot, s': Snapshot, recorded: bool)
    requires e.Load? && e.size <= 64 && LoadDone(s, s', e, |log|, recorded)
    requires LocksRep(names, log, e.tid, s) && ClocksRep(log, e.tid, s) && LoadsRep(names, log, e.tid, s.loads, s.ptrs)
    ensures LoadsRep(names, log + [e], e.tid, s'.loads, s'.ptrs)
    ensures s'.stores == s.stores && s'.entries == s.entries
    ensures s'.ptrs.Keys == s.ptrs.Keys + if recorded then {|log|} else {}
  {
    if recorded {
      LoadsAfter(names, log, e, s, s', s'.ptrs[|log|]);
    } else {
      LoadsKeep(names, names, log, e, e.tid, s.loads, s.ptrs);
    }
  }

  lemma LoadEventKeeps(names: map<Mutex, nat>, log: Log, e: Event, n: nat, unpersisted: bool, snaps: seq<Snapshot>,
                       s': Snapshot)
    requires e.Load? && e.size <= 64 && AllRep(names, log, n, unpersisted, snaps) && e.tid < |snaps|
    requires LoadDone(snaps[e.tid], s', e, |log|, RecordedLoad(n, unpersisted, log + [e], |log|))
    ensures AllRep(names, log + [e], n, unpersisted, snaps[e.tid := s'])
    ensures HandsNothing(log, e)
  {
    var s := snaps[e.tid];
    assert ThreadRep(names, log, n, unpersisted, e.tid, s);
    NothingHanded(log, e);
    LocksStay(names, names, log, e, e.tid, s);
    ClocksStay(log, e, e.tid, s);
    CacheStays(names, names, log, e, unpersisted, e.tid, s);
    LoadSetGrows(n, unpersisted, log, e);
    LoadOutput(names, log, e, n, unpersisted, s, s', RecordedLoad(n, unpersisted, log + [e], |log|));
    Commit(names, names, log, e, n, unpersisted, snaps, s');
  }

  /** If two more events fit, one does. */
  lemma FirstFits(unpersisted: bool, log: Log, e: Event, next: Event)
    ensures |Comers(TouchedAt(unpersisted, log + [e], |log + [e]|))|
         <= |Comers(TouchedAt(unpersisted, log + [e] + [next], |log + [e] + [next]|))|
  {
    var before := TouchedAt(unpersisted, log + [e], |log + [e]|);
    var after := TouchedAt(unpersisted, log + [e] + [next], |log + [e] + [next]|);
    TouchStep(unpersisted, log + [e], next);
    forall p | p in before
      ensures p.0 in Comers(after)
    {
      assert p in after;
    }
    SubsetIsSmaller(Comers(before), Comers(after));
  }
}
