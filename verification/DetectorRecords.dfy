/** Emitting store records at one event, byte by byte, while the heuristic is being asked. */
module DetectorRecords {
  import opened DetectorState
  import opened DetectorSteps
  import opened Events
  import opened FirstTouchFilters
  import opened HappensBefore
  import opened Ledger
  import opened LockHistory
  import opened LogExtension
  import opened Persistence
  import opened Records
  import opened Registry
  import opened TimedLocksets

  /**
   * The event being carried out is the last of `history`. The heuristic had seen `start`
   * before it and will have seen `end` after it; `pending` and `ledger` are the thread's
   * cached stores and its ledger just before.
   */
  datatype Moment = Moment(
    names: map<Mutex, nat>, history: Log, n: nat, unpersisted: bool,
    start: set<(Tid, Addr)>, end: set<(Tid, Addr)>, pending: Cache, ledger: set<Entry>)
  {
    ghost predicate Valid() {
      && history != [] && Injective(names)
      && start <= end && forall p | p in end :: p in start || p.0 == Tid()
    }

    /** The heuristic has a bit for every thread it will have seen. */
    ghost predicate Fits() {
      n >= 1 ==> |Comers(end)| <= 64
    }

    /** What is pending and recorded is from before. */
    ghost predicate Past()
      requires history != []
    {
      && (forall a | a in pending.dirty :: pending.dirty[a] < Now())
      && (forall a | a in pending.flushed :: pending.flushed[a] < Now())
      && (forall en | en in ledger :: en.at < Now())
    }

    function Tid(): Tid
      requires history != []
    {
      Last(history).tid
    }

    function Now(): nat
      requires history != []
    {
      |history| - 1
    }

    /** `timestamps` are the locks the thread holds now; quantified so that callers carry it whole. */
    ghost predicate Holding(timestamps: map<nat, nat>)
      requires history != []
    {
      forall held {:trigger Encodes(names, timestamps, held)} | held == LocksAt(history, Now(), Tid()).held ::
        Encodes(names, timestamps, held)
    }

    ghost predicate Asked(touched: set<(Tid, Addr)>) {
      start <= touched <= end
    }

    /** The bytes of `keys` that pass the heuristic. */
    ghost function Passing(keys: set<Addr>): set<Addr> {
      PublishedOnly(n, end, keys)
    }

    /** The entries this event emits for the pending bytes `idx`. */
    ghost function Emits(idx: map<Addr, nat>, keys: set<Addr>, persisted: bool, wasFlushed: bool): set<Entry>
      requires history != []
    {
      Entries(idx, Passing(keys), Now(), persisted, wasFlushed)
    }
  }

  // Three facts about the acting thread's data. Each is quantified over its last argument
  // only so that callers carry it whole.

  ghost predicate HasMem(m: Moment, mem: MemState, idx: map<Addr, nat>)
    requires m.history != []
  {
    forall i {:trigger MemRep(m.names, m.history, m.Tid(), mem, i)} | i == idx ::
          MemRep(m.names, m.history, m.Tid(), mem, i)
  }

  ghost predicate HasRecords(m: Moment, stores: seq<StoreFenceData>, entries: seq<Entry>, ledger: set<Entry>)
    requires m.history != []
  {
    forall l {:trigger StoresRep(m.names, m.history, m.Tid(), stores, entries, l)} | l == ledger ::
      StoresRep(m.names, m.history, m.Tid(), stores, entries, l)
  }

  ghost predicate HasData(m: Moment, data: StoreData, i: nat)
    requires m.history != []
  {
    forall j {:trigger DataOk(m.names, m.history, m.Tid(), data, j)} | j == i ::
          DataOk(m.names, m.history, m.Tid(), data, j)
  }

  /** Asking about `a` again, or about other bytes first, does not change the answer for `a`. */
  lemma AnswerIsFinal(m: Moment, touched: set<(Tid, Addr)>, a: Addr)
    requires m.Valid() && m.Asked(touched) && (m.Tid(), a) in m.end
    ensures m.Asked(touched + {(m.Tid(), a)})
    ensures Published(m.n, touched + {(m.Tid(), a)}, a) <==> Published(m.n, m.end, a)
  {
    var t := m.Tid();
    assert ThreadsOn(touched + {(t, a)}, a) == ThreadsOn(m.end, a) by {
      forall u | u in ThreadsOn(m.end, a)
        ensures u in ThreadsOn(touched + {(t, a)}, a)
      {
        assert (u, a) in m.end;
        assert (u, a) in touched + {(t, a)};
      }
      forall u | u in ThreadsOn(touched + {(t, a)}, a)
        ensures u in ThreadsOn(m.end, a)
      {
        assert (u, a) in touched + {(t, a)};
        assert (u, a) in m.end;
      }
    }
  }

  /** A thread about to be asked about has a bit, or finds one free. */
  lemma BitIsFree(m: Moment, touched: set<(Tid, Addr)>, a: Addr)
    requires m.Valid() && m.Fits() && m.n >= 1 && m.Asked(touched) && (m.Tid(), a) in m.end
    ensures m.Tid() in Comers(touched) || |Comers(touched)| < 64
  {
    var now := Comers(touched) + {m.Tid()};
    forall t | t in now
      ensures t in Comers(m.end)
    {
      var p :| (p in touched || p == (m.Tid(), a)) && p.0 == t;
      assert p in m.end;
    }
    SubsetIsSmaller(now, Comers(m.end));
  }

  /** No entry of the ledger was emitted now for one of `keys`. */
  ghost predicate NotYet(m: Moment, ledger: set<Entry>, keys: set<Addr>, wasFlushed: bool)
    requires m.history != []
  {
    forall en | en in ledger && en.at == m.Now() && en.wasFlushed == wasFlushed :: en.addr !in keys
  }

  /** The record for the pending store `data` of byte `a`, made now under the locks `ls`. */
  ghost predicate RecordFor(m: Moment, r: StoreFenceData, en: Entry, data: StoreData, ls: PTimedLockset, epochs: nat)
    requires m.history != []
  {
    && r.commonSet.Content() == Common(ls.timestamps, data.lockset.timestamps)
    && r == StoreFenceData(r.commonSet, (epochs - 1) % EPOCHS, data.trace, TraceOf(Last(m.history)), en.addr,
          en.persisted, en.wasFlushed)
    && en.at == m.Now() && en.stored < en.at
    && |ClocksAt(m.history, m.Now(), m.Tid())| == epochs
  }

  lemma RecordIsOk(m: Moment, r: StoreFenceData, en: Entry, data: StoreData, ls: PTimedLockset, epochs: nat)
    requires m.Valid() && m.Holding(ls.timestamps) && DataOk(m.names, m.history, m.Tid(), data, en.stored)
    requires RecordFor(m, r, en, data, ls, epochs)
    ensures RecordOk(m.names, m.history, m.Tid(), r, en)
  {
    var atStore, now := LocksAt(m.history, en.stored, m.Tid()).held, LocksAt(m.history, m.Now(), m.Tid()).held;
    assert Encodes(m.names, ls.timestamps, now);
    EncodesCommon(m.names, ls.timestamps, now, data.lockset.timestamps, atStore);
    CommonIsContained(now, atStore);
  }

  lemma RecordPushed(m: Moment, stores: seq<StoreFenceData>, entries: seq<Entry>, ledger: set<Entry>,
                     r: StoreFenceData, en: Entry, data: StoreData, ls: PTimedLockset, epochs: nat)
    requires m.Valid() && m.Holding(ls.timestamps) && HasData(m, data, en.stored)
    requires RecordFor(m, r, en, data, ls, epochs)
    requires HasRecords(m, stores, entries, ledger) && NotYet(m, ledger, {en.addr}, en.wasFlushed)
    ensures HasRecords(m, stores + [r], entries + [en], ledger + {en})
  {
    assert DataOk(m.names, m.history, m.Tid(), data, en.stored);
    assert StoresRep(m.names, m.history, m.Tid(), stores, entries, ledger);
    RecordIsOk(m, r, en, data, ls, epochs);
    PushRecord(m.names, m.history, m.Tid(), stores, entries, ledger, r, en);
  }

  /** The ledger after emitting, on top of `ledger`, for the bytes `done`. */
  ghost function Extended(m: Moment, ledger: set<Entry>, idx: map<Addr, nat>, done: set<Addr>, persisted: bool,
                          wasFlushed: bool): set<Entry>
    requires m.history != []
  {
    ledger + m.Emits(idx, done, persisted, wasFlushed)
  }

  lemma ExtendedByOne(m: Moment, ledger: set<Entry>, idx: map<Addr, nat>, done: set<Addr>, a: Addr, persisted: bool,
                      wasFlushed: bool)
    requires m.history != [] && a in idx
    ensures Extended(m, ledger, idx, done + {a}, persisted, wasFlushed)
          == Extended(m, ledger, idx, done, persisted, wasFlushed)
              + if Published(m.n, m.end, a) then {Entry(a, idx[a], m.Now(), persisted, wasFlushed)} else {}
  {
  }

  lemma ExtendedByMany(m: Moment, ledger: set<Entry>, idx: map<Addr, nat>, done: set<Addr>, more: set<Addr>,
                       persisted: bool, wasFlushed: bool)
    requires m.history != []
    ensures Extended(m, ledger, idx, done + more, persisted, wasFlushed)
         == Extended(m, Extended(m, ledger, idx, done, persisted, wasFlushed), idx, more, persisted, wasFlushed)
  {
  }

  lemma ExtendedByNone(m: Moment, ledger: set<Entry>, idx: map<Addr, nat>, persisted: bool, wasFlushed: bool)
    requires m.history != []
    ensures Extended(m, ledger, idx, {}, persisted, wasFlushed) == ledger
  {
  }

  lemma EmitsNotYet(m: Moment, idx: map<Addr, nat>, ledger: set<Entry>, done: set<Addr>, keys: set<Addr>,
                    persisted: bool, wasFlushed: bool)
    requires m.history != [] && NotYet(m, ledger, keys, wasFlushed)
    ensures NotYet(m, Extended(m, ledger, idx, done, persisted, wasFlushed), keys - done, wasFlushed)
  {
  }

  /** Every byte of `line` asks the heuristic once. */
  ghost function Asking(t: Tid, keys: set<Addr>): set<(Tid, Addr)> {
    set a | a in keys :: (t, a)
  }

  /** The bytes of `line` are pending stores from before now, and will be asked about. */
  ghost predicate LineOk(m: Moment, line: map<Addr, StoreData>, idx: map<Addr, nat>)
    requires m.history != []
  {
    forall a | a in line :: a in idx && idx[a] < m.Now() && (m.Tid(), a) in m.end
                            && HasData(m, line[a], idx[a])
  }

  ghost predicate MemOk(m: Moment, mem: MemState, idx: map<Addr, nat>)
    requires m.history != []
  {
    && HasMem(m, mem, idx)
    && forall a | a in idx :: idx[a] < m.Now() && (m.Tid(), a) in m.end
  }

  lemma OneByte(m: Moment, line: map<Addr, StoreData>, idx: map<Addr, nat>, ledger: set<Entry>, done: set<Addr>,
                todo: set<Addr>, a: Addr,
                persisted: bool, wasFlushed: bool)
    requires m.history != [] && LineOk(m, line, idx) && NotYet(m, ledger, line.Keys, wasFlushed)
    requires todo <= line.Keys && done == line.Keys - todo && a in todo
    ensures a in idx && idx[a] < m.Now() && (m.Tid(), a) in m.end && HasData(m, line[a], idx[a])
    ensures NotYet(m, Extended(m, ledger, idx, done, persisted, wasFlushed), {a}, wasFlushed)
    ensures line.Keys - (todo - {a}) == done + {a}
  {
    EmitsNotYet(m, idx, ledger, done, line.Keys, persisted, wasFlushed);
  }

  lemma OneLine(m: Moment, mem: MemState, idx: map<Addr, nat>, cl: Addr)
    requires m.history != [] && MemOk(m, mem, idx) && cl in mem
    ensures LineOk(m, mem[cl], idx)
    ensures mem[cl].Keys <= idx.Keys
  {
    assert MemRep(m.names, m.history, m.Tid(), mem, idx);
    forall a | a in mem[cl]
      ensures a in idx && mem[cl][a] == Flat(mem)[a]
    {
      FlatAt(mem, a);
    }
  }

  lemma OneMoreLine(m: Moment, mem: MemState, idx: map<Addr, nat>, todo: set<Addr>, cl: Addr)
    requires m.history != [] && MemOk(m, mem, idx) && cl in todo && todo <= mem.Keys
    ensures LineKeys(mem, mem.Keys - (todo - {cl})) == LineKeys(mem, mem.Keys - todo) + mem[cl].Keys
    ensures LineKeys(mem, mem.Keys - todo) !! mem[cl].Keys
  {
    assert MemRep(m.names, m.history, m.Tid(), mem, idx);
    assert mem.Keys - (todo - {cl}) == (mem.Keys - todo) + {cl};
  }

  lemma AllLines(m: Moment, mem: MemState, idx: map<Addr, nat>)
    requires m.history != [] && MemOk(m, mem, idx)
    ensures LineKeys(mem, mem.Keys - {}) == idx.Keys && LineKeys(mem, mem.Keys - mem.Keys) == {}
  {
    assert MemRep(m.names, m.history, m.Tid(), mem, idx);
    assert LineKeys(mem, mem.Keys - {}) == Flat(mem).Keys;
  }

  lemma AskingUnion(touched: set<(Tid, Addr)>, t: Tid, keys: set<Addr>, more: set<Addr>)
    ensures touched + Asking(t, keys + more) == touched + Asking(t, keys) + Asking(t, more)
  {
  }

  lemma AskingOne(touched: set<(Tid, Addr)>, t: Tid, keys: set<Addr>, a: Addr)
    ensures touched + Asking(t, keys + {a}) == touched + Asking(t, keys) + {(t, a)}
  {
  }

  lemma AskingNone(touched: set<(Tid, Addr)>, t: Tid)
    ensures touched + Asking(t, {}) == touched
  {
  }

  // ------------------------------------------------------------- setting up the moment

  /** The moment of event `e` after `log`. */
  ghost function MomentOf(names: map<Mutex, nat>, log: Log, e: Event, n: nat, unpersisted: bool): Moment {
    Moment(names, log + [e], n, unpersisted,
           TouchedAt(unpersisted, log, |log|), TouchedAt(unpersisted, log + [e], |log + [e]|),
           CacheAt(unpersisted, log, |log|, e.tid), LedgerAt(n, unpersisted, log, |log|, e.tid))
  }

  /** What a thread's data say just before the event, read in the longer history. */
  ghost predicate Before(m: Moment, s: Snapshot)
    requires m.history != []
  {
    && m.Holding(s.timestamps)
    && |s.clocks| == |ClocksAt(m.history, m.Now(), m.Tid())|
    && (s.cached.Some? ==> s.cached.value.timestamps == s.timestamps)
    && HasMem(m, s.mem, m.pending.dirty) && HasMem(m, s.flushed, m.pending.flushed)
    && HasRecords(m, s.stores, s.entries, m.ledger)
  }

  /** The same with what holds of the moment itself, quantified so that callers carry it whole. */
  ghost predicate Begins(m: Moment, s: Snapshot)
    requires m.history != []
  {
    forall x {:trigger Before(m, x)} | x == s :: m.Valid() && m.Past() && Before(m, x)
  }

  lemma MomentStarts(m: Moment, names: map<Mutex, nat>, log: Log, e: Event, n: nat, unpersisted: bool,
                     snaps: seq<Snapshot>)
    requires Injective(names) && AllRep(names, log, n, unpersisted, snaps) && e.tid < |snaps|
    requires m == MomentOf(names, log, e, n, unpersisted)
    ensures Begins(m, snaps[e.tid])
  {
    assert ThreadRep(names, log, n, unpersisted, e.tid, snaps[e.tid]);
    MomentIsValid(m, names, log, e, n, unpersisted);
    MomentReads(m, names, log, e, n, unpersisted, snaps[e.tid]);
  }

  lemma MomentIsValid(m: Moment, names: map<Mutex, nat>, log: Log, e: Event, n: nat, unpersisted: bool)
    requires Injective(names) && m == MomentOf(names, log, e, n, unpersisted)
    ensures m.Valid() && m.Past()
  {
    TouchStep(unpersisted, log, e);
    PendingAreStores(unpersisted, log, |log|, e.tid);
    LedgerIsPast(n, unpersisted, log, |log|, e.tid);
  }

  lemma MomentReads(m: Moment, names: map<Mutex, nat>, log: Log, e: Event, n: nat, unpersisted: bool, s: Snapshot)
    requires ThreadRep(names, log, n, unpersisted, e.tid, s) && m == MomentOf(names, log, e, n, unpersisted)
    ensures Before(m, s)
  {
    SameLocks(log, e, |log|, e.tid);
    SameClocks(log, e, |log|);
    MemKeeps(names, names, log, e, e.tid, s.mem, m.pending.dirty);
    MemKeeps(names, names, log, e, e.tid, s.flushed, m.pending.flushed);
    StoresKeep(names, names, log, e, e.tid, s.stores, s.entries, m.ledger);
  }

  /** What the event shows to the heuristic. */
  lemma WillAsk(m: Moment, names: map<Mutex, nat>, log: Log, e: Event, n: nat, unpersisted: bool, a: Addr)
    requires m == MomentOf(names, log, e, n, unpersisted)
    requires a in TouchedBytes(unpersisted, m.pending, e)
    ensures (e.tid, a) in m.end
  {
    TouchStep(unpersisted, log, e);
  }

  /** The ledger grows by what the event emits, read from the cache as it was. */
  lemma LedgerNow(log: Log, e: Event, n: nat, unpersisted: bool)
    ensures (log + [e])[|log|] == e
    ensures CacheAt(unpersisted, log + [e], |log|, e.tid) == CacheAt(unpersisted, log, |log|, e.tid)
    ensures LedgerAt(n, unpersisted, log + [e], |log + [e]|, e.tid)
         == LedgerAt(n, unpersisted, log, |log|, e.tid) + EmittedAt(n, unpersisted, log + [e], |log|)
  {
    SameLedger(n, unpersisted, log, e, |log|, e.tid);
    SameCache(unpersisted, log, e, |log|, e.tid);
  }

  // ---------------------------------------------------------------------- one store

  lemma EraseRep(m: Moment, mem: MemState, idx: map<Addr, nat>, a: Addr)
    requires m.history != [] && HasMem(m, mem, idx) && CacheLine(a) in mem
    ensures HasMem(m, mem[CacheLine(a) := mem[CacheLine(a)] - {a}], idx - {a})
    ensures a in mem[CacheLine(a)] <==> a in idx
    ensures a in idx ==> HasData(m, mem[CacheLine(a)][a], idx[a])
  {
    assert MemRep(m.names, m.history, m.Tid(), mem, idx);
    EraseFlat(mem, a);
    FlatAt(mem, a);
  }

  lemma EmptyLineRep(m: Moment, mem: MemState, idx: map<Addr, nat>, cl: Addr)
    requires m.history != [] && HasMem(m, mem, idx) && cl !in mem
    ensures HasMem(m, mem[cl := map[]], idx)
  {
    assert MemRep(m.names, m.history, m.Tid(), mem, idx);
    EmptyLineFlat(mem, cl);
  }

  lemma AbsentRep(idx: map<Addr, nat>, a: Addr)
    requires a !in idx
    ensures idx - {a} == idx
  {
  }

  lemma PutPending(names: map<Mutex, nat>, log: Log, t: Tid, mem: MemState, idx: map<Addr, nat>, a: Addr,
                   data: StoreData, i: nat)
    requires MemRep(names, log, t, mem, idx) && DataOk(names, log, t, data, i)
    ensures MemRep(names, log, t, Put(mem, a, data), idx[a := i])
  {
    PutFlat(mem, a, data);
  }

  lemma PutRep(m: Moment, mem: MemState, idx: map<Addr, nat>, a: Addr, data: StoreData, i: nat)
    requires m.history != [] && HasMem(m, mem, idx) && HasData(m, data, i)
    ensures HasMem(m, Put(mem, a, data), idx[a := i])
  {
    assert MemRep(m.names, m.history, m.Tid(), mem, idx) && DataOk(m.names, m.history, m.Tid(), data, i);
    PutPending(m.names, m.history, m.Tid(), mem, idx, a, data, i);
  }

  lemma NothingEmitted(m: Moment, ledger: set<Entry>, idx: map<Addr, nat>, a: Addr, wasFlushed: bool)
    requires m.history != [] && a !in idx
    ensures Extended(m, ledger, idx, {a}, false, wasFlushed) == ledger
  {
  }

  // The thread's data once the bytes `done` of the store being carried out are in.

  ghost function DirtyDuring(m: Moment, done: set<Addr>): map<Addr, nat>
    requires m.history != []
  {
    StoreAll(m.pending.dirty, done, m.Now())
  }

  ghost function FlushedDuring(m: Moment, done: set<Addr>): map<Addr, nat> {
    if m.unpersisted then m.pending.flushed - done else m.pending.flushed
  }

  ghost function LedgerDuring(m: Moment, done: set<Addr>): set<Entry>
    requires m.history != []
  {
    if !m.unpersisted then m.ledger else
      Extended(m, Extended(m, m.ledger, m.pending.dirty, done, false, false), m.pending.flushed, done, false, true)
  }

  ghost function AskedDuring(m: Moment, done: set<Addr>): set<(Tid, Addr)>
    requires m.history != []
  {
    if m.unpersisted then Asking(m.Tid(), done * (m.pending.dirty.Keys + m.pending.flushed.Keys)) else {}
  }

  lemma DuringNothing(m: Moment, touched: set<(Tid, Addr)>)
    requires m.history != []
    ensures DirtyDuring(m, {}) == m.pending.dirty && FlushedDuring(m, {}) == m.pending.flushed
    ensures LedgerDuring(m, {}) == m.ledger
    ensures touched + AskedDuring(m, {}) == touched
  {
    ExtendedByNone(m, m.ledger, m.pending.dirty, false, false);
    ExtendedByNone(m, m.ledger, m.pending.flushed, false, true);
  }

  /** What one more byte of the store does to each of them. */
  lemma DuringOneMore(m: Moment, done: set<Addr>, a: Addr)
    requires m.history != [] && a !in done
    ensures DirtyDuring(m, done + {a}) == DirtyDuring(m, done)[a := m.Now()]
          == (DirtyDuring(m, done) - {a})[a := m.Now()]
    ensures FlushedDuring(m, done + {a}) == if m.unpersisted then FlushedDuring(m, done) - {a} else m.pending.flushed
  {
  }

  lemma LedgerOneMore(m: Moment, done: set<Addr>, a: Addr)
    requires m.history != [] && a !in done && m.unpersisted
    ensures LedgerDuring(m, done + {a})
         == Extended(m, Extended(m, LedgerDuring(m, done), DirtyDuring(m, done), {a}, false, false),
                     FlushedDuring(m, done), {a}, false, true)
  {
    assert m.Emits(DirtyDuring(m, done), {a}, false, false) == m.Emits(m.pending.dirty, {a}, false, false);
    assert m.Emits(FlushedDuring(m, done), {a}, false, true) == m.Emits(m.pending.flushed, {a}, false, true);
    ExtendedByMany(m, m.ledger, m.pending.dirty, done, {a}, false, false);
    ExtendedByMany(m, m.ledger, m.pending.flushed, done, {a}, false, true);
  }

  lemma NotYetDuring(m: Moment, done: set<Addr>, a: Addr)
    requires m.history != [] && a !in done && m.unpersisted && m.Past()
    ensures NotYet(m, LedgerDuring(m, done), {a}, false)
    ensures NotYet(m, Extended(m, LedgerDuring(m, done), DirtyDuring(m, done), {a}, false, false), {a}, true)
  {
  }

  lemma AskedOneMore(m: Moment, touched: set<(Tid, Addr)>, done: set<Addr>, a: Addr)
    requires m.history != [] && a !in done && m.unpersisted
    ensures touched + AskedDuring(m, done + {a})
         == touched + AskedDuring(m, done)
            + (if a in DirtyDuring(m, done) then {(m.Tid(), a)} else {})
            + (if a in FlushedDuring(m, done) then {(m.Tid(), a)} else {})
  {
  }

  /**
   * The bytes `done` are in, and the heuristic has been asked about them; quantified so that
   * callers carry it whole.
   */
  ghost predicate StoreUnderWay(m: Moment, done: set<Addr>, s: Snapshot, asked: set<(Tid, Addr)>,
                                touched: set<(Tid, Addr)>)
    requires m.history != []
  {
    forall d {:trigger DuringStore(m, d, s)} | d == done :: DuringStore(m, d, s) && touched == asked + AskedDuring(m, d)
  }

  ghost predicate DuringStore(m: Moment, done: set<Addr>, s: Snapshot)
    requires m.history != []
  {
    && HasMem(m, s.mem, DirtyDuring(m, done)) && HasMem(m, s.flushed, FlushedDuring(m, done))
    && HasRecords(m, s.stores, s.entries, LedgerDuring(m, done))
  }

  /** If byte `a` was pending, the heuristic will have been asked about it. */
  ghost predicate ByteKnown(m: Moment, a: Addr)
    requires m.history != []
  {
    a in m.pending.dirty || a in m.pending.flushed ==> (m.Tid(), a) in m.end
  }

  ghost predicate BytesKnown(m: Moment, address: Addr, size: nat)
    requires m.history != []
  {
    forall a | a in Bytes(address, size) :: ByteKnown(m, a)
  }

  lemma StoreBytesKnown(m: Moment, names: map<Mutex, nat>, log: Log, e: Event, n: nat, unpersisted: bool)
    requires e.Store? && m == MomentOf(names, log, e, n, unpersisted)
    ensures unpersisted ==> BytesKnown(m, e.addr, e.size)
    ensures e.size > 0 ==> (e.tid, e.addr) in m.end
  {
    if e.size > 0 {
      WillAsk(m, names, log, e, n, unpersisted, e.addr);
    }
    if unpersisted {
      forall a | a in Bytes(e.addr, e.size) && (a in m.pending.dirty || a in m.pending.flushed)
        ensures (e.tid, a) in m.end
      {
        WillAsk(m, names, log, e, n, unpersisted, a);
      }
    }
  }

  /** From `s` to `s'` only what stores and fences touch has changed. */
  ghost predicate Stored(s: Snapshot, s': Snapshot) {
    forall x {:trigger OnlyStored(s, x)} | x == s' :: OnlyStored(s, x)
  }

  ghost predicate OnlyStored(s: Snapshot, s': Snapshot) {
    && s' == s.(mem := s'.mem, flushed := s'.flushed, cached := s'.cached, stores := s'.stores, entries := s'.entries)
    && (s'.cached.Some? ==> s'.cached.value.timestamps == s.timestamps)
  }

  lemma StoredLocksAndClocks(names: map<Mutex, nat>, log: Log, e: Event, s: Snapshot, s': Snapshot)
    requires (e.Store? || e.Fence?) && OnlyStored(s, s') && LocksRep(names, log, e.tid, s) && ClocksRep(log, e.tid, s)
    ensures LocksRep(names, log + [e], e.tid, s') && ClocksRep(log + [e], e.tid, s')
  {
    LocksStay(names, names, log, e, e.tid, s);
    ClocksStay(log, e, e.tid, s);
  }

  lemma StoredLoads(names: map<Mutex, nat>, log: Log, e: Event, n: nat, unpersisted: bool, s: Snapshot, s': Snapshot)
    requires (e.Store? || e.Fence?) && OnlyStored(s, s')
    requires LoadsRep(names, log, e.tid, s.loads, s.ptrs) && s.ptrs.Keys == LoadsAt(n, unpersisted, log, |log|, e.tid)
    ensures LoadsRep(names, log + [e], e.tid, s'.loads, s'.ptrs)
    ensures s'.ptrs.Keys == LoadsAt(n, unpersisted, log + [e], |log + [e]|, e.tid)
  {
    LoadsKeep(names, names, log, e, e.tid, s.loads, s.ptrs);
    LoadSetStays(log, e, n, unpersisted, e.tid);
  }

  lemma StoredRepresents(names: map<Mutex, nat>, log: Log, e: Event, n: nat, unpersisted: bool, s: Snapshot,
                         s': Snapshot)
    requires (e.Store? || e.Fence?) && ThreadRep(names, log, n, unpersisted, e.tid, s) && OnlyStored(s, s')
    requires CacheRep(names, log + [e], unpersisted, e.tid, s')
    requires StoresRep(names, log + [e], e.tid, s'.stores, s'.entries,
          LedgerAt(n, unpersisted, log + [e], |log + [e]|, e.tid))
    ensures ThreadRep(names, log + [e], n, unpersisted, e.tid, s')
  {
    StoredLocksAndClocks(names, log, e, s, s');
    StoredLoads(names, log, e, n, unpersisted, s, s');
  }

  lemma StoredKeeps(names: map<Mutex, nat>, log: Log, e: Event, n: nat, unpersisted: bool, snaps: seq<Snapshot>,
                    s': Snapshot)
    requires (e.Store? ||
          e.Fence?) && AllRep(names, log, n, unpersisted, snaps) && e.tid < |snaps| && Stored(snaps[e.tid], s')
    requires CacheRep(names, log + [e], unpersisted, e.tid, s')
    requires StoresRep(names, log + [e], e.tid, s'.stores, s'.entries,
          LedgerAt(n, unpersisted, log + [e], |log + [e]|, e.tid))
    ensures AllRep(names, log + [e], n, unpersisted, snaps[e.tid := s'])
    ensures HandsNothing(log, e)
  {
    assert ThreadRep(names, log, n, unpersisted, e.tid, snaps[e.tid]) && OnlyStored(snaps[e.tid], s');
    NothingHanded(log, e);
    StoredRepresents(names, log, e, n, unpersisted, snaps[e.tid], s');
    Commit(names, names, log, e, n, unpersisted, snaps, s');
  }

  /** What the store being carried out leaves in the cache. */
  lemma NewDataOk(m: Moment, ls: PTimedLockset, trace: Trace)
    requires m.history != [] && Last(m.history).Store? && m.Holding(ls.timestamps) && trace == TraceOf(Last(m.history))
    ensures HasData(m, StoreData(ls, trace), m.Now())
  {
    assert Encodes(m.names, ls.timestamps, LocksAt(m.history, m.Now(), m.Tid()).held);
  }

  /** The next byte of the store, and what is known of it. */
  lemma NextByte(m: Moment, address: Addr, size: nat, done: set<Addr>, i: nat)
    requires m.history != [] && i < size && done == Bytes(address, i) && (m.unpersisted ==>
          BytesKnown(m, address, size))
    ensures Bytes(address, i + 1) == done + {address + i} && address + i !in done
    ensures m.unpersisted ==> ByteKnown(m, address + i)
  {
    assert address + i in Bytes(address, size);
  }

  lemma StoreStarts(m: Moment, names: map<Mutex, nat>, log: Log, e: Event, n: nat, unpersisted: bool,
                    snaps: seq<Snapshot>)
    requires e.Store? && Injective(names) && AllRep(names, log, n, unpersisted, snaps) && e.tid < |snaps|
    requires m == MomentOf(names, log, e, n, unpersisted)
    ensures Begins(m, snaps[e.tid]) && StoreShown(m, e)
  {
    MomentStarts(m, names, log, e, n, unpersisted, snaps);
    StoreBytesKnown(m, names, log, e, n, unpersisted);
    StoreAsked(m, names, log, e, n, unpersisted);
  }

  /** What the heuristic has seen once the store `e` has asked for its first byte. */
  ghost function AskedFirst(m: Moment, e: Event): set<(Tid, Addr)>
    requires m.history != [] && e.Store?
  {
    m.start + if e.size > 0 then {(e.tid, e.addr)} else {}
  }

  /** What the store `e` shows to the heuristic. */
  ghost predicate StoreShown(m: Moment, e: Event)
    requires m.history != [] && e.Store? && e.tid == m.Tid()
  {
    && (m.unpersisted ==> BytesKnown(m, e.addr, e.size))
    && (e.size > 0 ==> (e.tid, e.addr) in m.end)
    && m.end == AskedFirst(m, e) + AskedDuring(m, Bytes(e.addr, e.size))
  }

  /** Once every byte is in, the data say what the longer history says. */
  lemma StoreKeeps(m: Moment, names: map<Mutex, nat>, log: Log, e: Event, n: nat, unpersisted: bool,
                   snaps: seq<Snapshot>, s': Snapshot,
                   touched: set<(Tid, Addr)>)
    requires e.Store? && AllRep(names, log, n, unpersisted, snaps) && e.tid < |snaps| && Stored(snaps[e.tid], s')
    requires m == MomentOf(names, log, e, n, unpersisted)
    requires StoreUnderWay(m, Bytes(e.addr, e.size), s', AskedFirst(m, e), touched)
    ensures AllRep(names, log + [e], n, unpersisted, snaps[e.tid := s'])
    ensures HandsNothing(log, e)
  {
    CacheNow(unpersisted, log, e);
    StoreEmits(m, names, log, e, n, unpersisted);
    assert m.Tid() == e.tid && DuringStore(m, Bytes(e.addr, e.size), s');
    assert MemRep(m.names, m.history, m.Tid(), s'.mem, DirtyDuring(m, Bytes(e.addr, e.size)));
    assert MemRep(m.names, m.history, m.Tid(), s'.flushed, FlushedDuring(m, Bytes(e.addr, e.size)));
    assert StoresRep(m.names, m.history, m.Tid(), s'.stores, s'.entries, LedgerDuring(m, Bytes(e.addr, e.size)));
    StoredKeeps(names, log, e, n, unpersisted, snaps, s');
  }

  lemma StoreEmits(m: Moment, names: map<Mutex, nat>, log: Log, e: Event, n: nat, unpersisted: bool)
    requires e.Store? && m == MomentOf(names, log, e, n, unpersisted)
    ensures LedgerAt(n, unpersisted, log + [e], |log + [e]|, e.tid) == LedgerDuring(m, Bytes(e.addr, e.size))
  {
    LedgerNow(log, e, n, unpersisted);
  }

  lemma TouchIsAsking(m: Moment, names: map<Mutex, nat>, log: Log, e: Event, n: nat, unpersisted: bool)
    requires m == MomentOf(names, log, e, n, unpersisted)
    ensures m.end == m.start + Asking(e.tid, TouchedBytes(unpersisted, m.pending, e))
  {
    TouchStep(unpersisted, log, e);
  }

  /** What the heuristic has seen once every byte is in. */
  lemma StoreAsked(m: Moment, names: map<Mutex, nat>, log: Log, e: Event, n: nat, unpersisted: bool)
    requires e.Store? && m == MomentOf(names, log, e, n, unpersisted)
    ensures m.end == AskedFirst(m, e) + AskedDuring(m, Bytes(e.addr, e.size))
  {
    var first: set<Addr> := if e.size > 0 then {e.addr} else {};
    var pending: set<Addr> := if unpersisted
          then Bytes(e.addr, e.size) * (m.pending.dirty.Keys + m.pending.flushed.Keys) else {};
    TouchIsAsking(m, names, log, e, n, unpersisted);
    assert TouchedBytes(unpersisted, m.pending, e) == first + pending;
    AskingUnion(m.start, e.tid, first, pending);
    AskingFirst(e.tid, e.addr, e.size);
  }

  lemma AskingFirst(t: Tid, a: Addr, size: nat)
    ensures Asking(t, if size > 0 then {a} else {}) == if size > 0 then {(t, a)} else {}
  {
  }
}
