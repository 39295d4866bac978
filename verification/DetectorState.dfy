/**
 * How the detector's concrete data stand for the history: locks by index, pending
 * stores in nested maps, records and loads behind shared pointers.
 */
module DetectorState {
  import opened Events
  import opened FirstTouchFilters
  import opened HappensBefore
  import opened Ledger
  import opened LockHistory
  import opened Locksets
  import opened LogExtension
  import opened Persistence
  import opened Records
  import opened Registry
  import opened TimedLocksets
  import opened VectorClocks

  // ------------------------------------------------------------------ locks by index

  ghost function Image(names: map<Mutex, nat>, locks: set<Mutex>): set<nat> {
    set m | m in locks && m in names :: names[m]
  }

  /** `conc` is `abs` with every lock replaced by its index. */
  ghost predicate Encodes(names: map<Mutex, nat>, conc: map<nat, nat>, abs: map<Mutex, nat>) {
    && abs.Keys <= names.Keys
    && conc.Keys == Image(names, abs.Keys)
    && forall m | m in abs :: conc[names[m]] == abs[m]
  }

  lemma ImageExtends(names: map<Mutex, nat>, more: map<Mutex, nat>, locks: set<Mutex>)
    requires Extends(more, names) && locks <= names.Keys
    ensures Image(more, locks) == Image(names, locks) && locks <= more.Keys
  {
  }

  lemma EncodesExtends(names: map<Mutex, nat>, more: map<Mutex, nat>, conc: map<nat, nat>, abs: map<Mutex, nat>)
    requires Extends(more, names) && Encodes(names, conc, abs)
    ensures Encodes(more, conc, abs)
  {
    ImageExtends(names, more, abs.Keys);
  }

  lemma EncodesLock(names: map<Mutex, nat>, conc: map<nat, nat>, abs: map<Mutex, nat>, m: Mutex, ts: nat)
    requires Injective(names) && Encodes(names, conc, abs) && m in names
    ensures Encodes(names, conc[names[m] := ts], abs[m := ts])
  {
    assert Image(names, abs[m := ts].Keys) == Image(names, abs.Keys) + {names[m]};
  }

  lemma EncodesUnlock(names: map<Mutex, nat>, conc: map<nat, nat>, abs: map<Mutex, nat>, m: Mutex)
    requires Injective(names) && Encodes(names, conc, abs) && m in names
    ensures Encodes(names, conc - {names[m]}, abs - {m})
  {
    assert Image(names, (abs - {m}).Keys) == Image(names, abs.Keys) - {names[m]};
  }

  /** Intersecting by index is intersecting by lock. */
  lemma EncodesCommon(names: map<Mutex, nat>, c1: map<nat, nat>, a1: map<Mutex, nat>, c2: map<nat, nat>,
                      a2: map<Mutex, nat>)
    requires Injective(names) && Encodes(names, c1, a1) && Encodes(names, c2, a2)
    ensures Common(c1, c2) == Image(names, Common(a1, a2))
  {
    forall i | i in Common(c1, c2)
      ensures i in Image(names, Common(a1, a2))
    {
      var m1 :| m1 in a1 && names[m1] == i;
      var m2 :| m2 in a2 && names[m2] == i;
      assert m1 in Common(a1, a2);
    }
  }

  lemma ImageDisjoint(names: map<Mutex, nat>, a: set<Mutex>, b: set<Mutex>)
    requires Injective(names) && a <= names.Keys && b <= names.Keys
    ensures Image(names, a) !! Image(names, b) <==> a !! b
  {
    if a !! b {
      forall i | i in Image(names, a)
        ensures i !in Image(names, b)
      {
        var m :| m in a && names[m] == i;
        assert forall m' | m' in b :: names[m'] != i;
      }
    } else {
      var m :| m in a && m in b;
      assert names[m] in Image(names, a) && names[m] in Image(names, b);
    }
  }

  // --------------------------------------------------------------- the nested line maps

  /** cache line -> address -> pending store */
  type MemState = map<Addr, map<Addr, StoreData>>

  /** Every inner key stays in its own line. */
  ghost predicate InLines(m: MemState) {
    forall cl | cl in m :: forall a | a in m[cl] :: CacheLine(a) == cl
  }

  ghost function LineKeys(m: MemState, lines: set<Addr>): set<Addr> {
    set cl, a | cl in lines && cl in m && a in m[cl] :: a
  }

  ghost function Flat(m: MemState): map<Addr, StoreData>
    requires InLines(m)
  {
    map a | a in LineKeys(m, m.Keys) :: m[CacheLine(a)][a]
  }

  function Put(m: MemState, a: Addr, data: StoreData): MemState {
    var cl := CacheLine(a);
    m[cl := (if cl in m then m[cl] else map[])[a := data]]
  }

  lemma FlatAt(m: MemState, a: Addr)
    requires InLines(m)
    ensures a in Flat(m) <==> CacheLine(a) in m && a in m[CacheLine(a)]
    ensures a in Flat(m) ==> Flat(m)[a] == m[CacheLine(a)][a]
  {
  }

  lemma FlatIs(m: MemState, f: map<Addr, StoreData>)
    requires InLines(m)
    requires forall a :: a in f <==> CacheLine(a) in m && a in m[CacheLine(a)]
    requires forall a | a in f :: f[a] == m[CacheLine(a)][a]
    ensures Flat(m) == f
  {
    forall a
      ensures a in Flat(m) <==> a in f
      ensures a in Flat(m) ==> Flat(m)[a] == f[a]
    {
      FlatAt(m, a);
    }
  }

  lemma PutFlat(m: MemState, a: Addr, data: StoreData)
    requires InLines(m)
    ensures InLines(Put(m, a, data)) && Flat(Put(m, a, data)) == Flat(m)[a := data]
  {
    forall x { FlatAt(m, x); }
    FlatIs(Put(m, a, data), Flat(m)[a := data]);
  }

  /** `mem_state[cl]` with no such line makes an empty one. */
  lemma EmptyLineFlat(m: MemState, cl: Addr)
    requires InLines(m) && cl !in m
    ensures InLines(m[cl := map[]]) && Flat(m[cl := map[]]) == Flat(m)
  {
    forall x { FlatAt(m, x); }
    FlatIs(m[cl := map[]], Flat(m));
  }

  lemma EraseFlat(m: MemState, a: Addr)
    requires InLines(m) && CacheLine(a) in m
    ensures InLines(m[CacheLine(a) := m[CacheLine(a)] - {a}])
    ensures Flat(m[CacheLine(a) := m[CacheLine(a)] - {a}]) == Flat(m) - {a}
  {
    forall x { FlatAt(m, x); }
    FlatIs(m[CacheLine(a) := m[CacheLine(a)] - {a}], Flat(m) - {a});
  }

  lemma LineOfFlat(m: MemState, cl: Addr)
    requires InLines(m)
    ensures OfLine(Flat(m), cl) == if cl in m then m[cl] else map[]
  {
    forall x { FlatAt(m, x); }
  }

  lemma DropLineFlat(m: MemState, cl: Addr)
    requires InLines(m)
    ensures InLines(m - {cl}) && Flat(m - {cl}) == Flat(m) - OfLine(Flat(m), cl).Keys
  {
    forall x { FlatAt(m, x); }
    FlatIs(m - {cl}, Flat(m) - OfLine(Flat(m), cl).Keys);
  }

  // ---------------------------------------------------------------- pending stores

  function TraceOf(e: Event): Trace {
    match e
    case Store(_, _, _, trace) => trace
    case Fence(_, trace) => trace
    case Load(_, _, _, trace) => trace
    case _ => NoTrace
  }

  /** `data` is what the store at `i` left: its locks then, and its site. */
  ghost predicate DataOk(names: map<Mutex, nat>, log: Log, t: Tid, data: StoreData, i: nat) {
    && i < |log| && data.trace == TraceOf(log[i])
    && Encodes(names, data.lockset.timestamps, LocksAt(log, i, t).held)
  }

  ghost predicate PendRep(names: map<Mutex, nat>, log: Log, t: Tid, m: map<Addr, StoreData>, idx: map<Addr, nat>) {
    m.Keys == idx.Keys && forall a | a in m :: DataOk(names, log, t, m[a], idx[a])
  }

  ghost predicate MemRep(names: map<Mutex, nat>, log: Log, t: Tid, m: MemState, idx: map<Addr, nat>) {
    InLines(m) && PendRep(names, log, t, Flat(m), idx)
  }

  // ------------------------------------------------------------------------ records

  ghost predicate RecordOk(names: map<Mutex, nat>, log: Log, t: Tid, r: StoreFenceData, en: Entry) {
    && en.stored < en.at < |log|
    && LocksAt(log, en.stored, t).held.Keys <= names.Keys
    && r.commonSet.Content() == Image(names, Common(LocksAt(log, en.stored, t).held, LocksAt(log, en.at, t).held))
    && r.clockI == EpochAt(log, en.at, t) % EPOCHS
    && r.writeTrace == TraceOf(log[en.stored]) && r.fenceTrace == TraceOf(log[en.at])
    && r.address == en.addr && r.persisted == en.persisted && r.wasFlushed == en.wasFlushed
  }

  /** The records stand one to one for the entries of the ledger. */
  ghost predicate StoresRep(names: map<Mutex, nat>, log: Log, t: Tid, stores: seq<StoreFenceData>, entries: seq<Entry>,
                            ledger: set<Entry>) {
    && |stores| == |entries|
    && (forall j | 0 <= j < |entries| :: entries[j] in ledger && RecordOk(names, log, t, stores[j], entries[j]))
    && (forall en | en in ledger :: en in entries)
    && (forall i, j | 0 <= i < j < |entries| :: entries[i] != entries[j])
  }

  lemma PushRecord(names: map<Mutex, nat>, log: Log, t: Tid, stores: seq<StoreFenceData>, entries: seq<Entry>,
                   ledger: set<Entry>,
                   r: StoreFenceData, en: Entry)
    requires StoresRep(names, log, t, stores, entries, ledger) && en !in ledger && RecordOk(names, log, t, r, en)
    ensures StoresRep(names, log, t, stores + [r], entries + [en], ledger + {en})
  {
  }

  // -------------------------------------------------------------------------- loads

  function KeyOf(log: Log, l: nat): AccessKey
    requires l < |log| && log[l].Load?
  {
    AccessKey(log[l].addr, log[l].trace, EpochAt(log, l, log[l].tid) % EPOCHS, LowMask(log[l].size))
  }

  /** `ptrs` names, for every recorded load, the lockset pointer filed under its key. */
  ghost predicate LoadsRep(names: map<Mutex, nat>, log: Log, t: Tid, loads: map<AccessKey, set<PLockset>>,
                           ptrs: map<nat, PLockset>) {
    && (forall l | l in ptrs :: LoadOk(names, log, t, loads, l, ptrs[l]))
    && (forall key | key in loads :: loads[key] != {} && forall p | p in loads[key] :: Filed(log, ptrs, key, p))
  }

  /** Every pointer under a key is there because of some load. */
  ghost predicate Filed(log: Log, ptrs: map<nat, PLockset>, key: AccessKey, p: PLockset) {
    exists l | l in ptrs :: FiledFor(log, ptrs, key, p, l)
  }

  ghost predicate FiledFor(log: Log, ptrs: map<nat, PLockset>, key: AccessKey, p: PLockset, l: nat) {
    l in ptrs && ptrs[l] == p && l < |log| && log[l].Load? && KeyOf(log, l) == key
  }

  ghost predicate LoadOk(names: map<Mutex, nat>, log: Log, t: Tid, loads: map<AccessKey, set<PLockset>>, l: nat,
                         p: PLockset) {
    && l < |log| && log[l].Load? && log[l].tid == t && log[l].size <= 64
    && KeyOf(log, l) in loads && p in loads[KeyOf(log, l)]
    && HeldSet(log, l, t) <= names.Keys
    && p.Content() == Image(names, HeldSet(log, l, t))
  }

  // ------------------------------------------------------------- one thread, all of it

  /** The fields of one thread's data, as a value. */
  datatype Snapshot = Snapshot(
    timestamps: map<nat, nat>, lockClock: nat, cached: Option<PTimedLockset>,
    clocks: seq<Clock>, mem: MemState, flushed: MemState,
    stores: seq<StoreFenceData>, entries: seq<Entry>,
    loads: map<AccessKey, set<PLockset>>, ptrs: map<nat, PLockset>, used: bool)

  ghost predicate LocksRep(names: map<Mutex, nat>, log: Log, t: Tid, s: Snapshot) {
    && Encodes(names, s.timestamps, LocksAt(log, |log|, t).held)
    && s.lockClock == LocksAt(log, |log|, t).next
    && (s.cached.Some? ==> s.cached.value.timestamps == s.timestamps)
  }

  ghost predicate ClocksRep(log: Log, t: Tid, s: Snapshot) {
    s.clocks == ClocksAt(log, |log|, t) && (s.used <==> Started(log, |log|, t))
  }

  ghost predicate CacheRep(names: map<Mutex, nat>, log: Log, unpersisted: bool, t: Tid, s: Snapshot) {
    && MemRep(names, log, t, s.mem, CacheAt(unpersisted, log, |log|, t).dirty)
    && MemRep(names, log, t, s.flushed, CacheAt(unpersisted, log, |log|, t).flushed)
  }

  ghost predicate OutputRep(names: map<Mutex, nat>, log: Log, n: nat, unpersisted: bool, t: Tid, s: Snapshot) {
    && StoresRep(names, log, t, s.stores, s.entries, LedgerAt(n, unpersisted, log, |log|, t))
    && LoadsRep(names, log, t, s.loads, s.ptrs)
    && s.ptrs.Keys == LoadsAt(n, unpersisted, log, |log|, t)
  }

  ghost predicate ThreadRep(names: map<Mutex, nat>, log: Log, n: nat, unpersisted: bool, t: Tid, s: Snapshot) {
    && LocksRep(names, log, t, s)
    && ClocksRep(log, t, s)
    && CacheRep(names, log, unpersisted, t, s)
    && OutputRep(names, log, n, unpersisted, t, s)
  }

  ghost predicate TidsFit(log: Log, threads: nat) {
    forall k | 0 <= k < |log| :: log[k].tid < threads
  }

  // -------------------------------------------------------- keeping it all, event by event

  lemma DataKeeps(names: map<Mutex, nat>, more: map<Mutex, nat>, log: Log, e: Event, t: Tid, data: StoreData, i: nat)
    requires Extends(more, names) && DataOk(names, log, t, data, i)
    ensures DataOk(more, log + [e], t, data, i)
  {
    SameLocks(log, e, i, t);
    EncodesExtends(names, more, data.lockset.timestamps, LocksAt(log, i, t).held);
  }

  lemma MemKeeps(names: map<Mutex, nat>, more: map<Mutex, nat>, log: Log, e: Event, t: Tid, m: MemState,
                 idx: map<Addr, nat>)
    requires Extends(more, names) && MemRep(names, log, t, m, idx)
    ensures MemRep(more, log + [e], t, m, idx)
  {
    forall a | a in Flat(m)
      ensures DataOk(more, log + [e], t, Flat(m)[a], idx[a])
    {
      DataKeeps(names, more, log, e, t, Flat(m)[a], idx[a]);
    }
  }

  lemma RecordKeeps(names: map<Mutex, nat>, more: map<Mutex, nat>, log: Log, e: Event, t: Tid, r: StoreFenceData,
                    en: Entry)
    requires Extends(more, names) && RecordOk(names, log, t, r, en)
    ensures RecordOk(more, log + [e], t, r, en)
  {
    SameLocks(log, e, en.stored, t);
    SameLocks(log, e, en.at, t);
    SameClocks(log, e, en.at);
    assert EpochAt(log + [e], en.at, t) == EpochAt(log, en.at, t);
    ImageExtends(names, more, Common(LocksAt(log, en.stored, t).held, LocksAt(log, en.at, t).held));
  }

  lemma StoresKeep(names: map<Mutex, nat>, more: map<Mutex, nat>, log: Log, e: Event, t: Tid,
                   stores: seq<StoreFenceData>, entries: seq<Entry>, ledger: set<Entry>)
    requires Extends(more, names) && StoresRep(names, log, t, stores, entries, ledger)
    ensures StoresRep(more, log + [e], t, stores, entries, ledger)
  {
    forall j | 0 <= j < |entries|
      ensures RecordOk(more, log + [e], t, stores[j], entries[j])
    {
      RecordKeeps(names, more, log, e, t, stores[j], entries[j]);
    }
  }

  lemma KeyKeeps(log: Log, e: Event, l: nat)
    requires l < |log| && log[l].Load?
    ensures KeyOf(log + [e], l) == KeyOf(log, l)
  {
    SameClocks(log, e, l);
    assert EpochAt(log + [e], l, log[l].tid) == EpochAt(log, l, log[l].tid);
  }

  lemma LoadKeeps(names: map<Mutex, nat>, more: map<Mutex, nat>, log: Log, e: Event, t: Tid,
                  loads: map<AccessKey, set<PLockset>>, l: nat, p: PLockset)
    requires Extends(more, names) && LoadOk(names, log, t, loads, l, p)
    ensures LoadOk(more, log + [e], t, loads, l, p)
  {
    KeyKeeps(log, e, l);
    SameLocks(log, e, l, t);
    ImageExtends(names, more, HeldSet(log, l, t));
  }

  lemma LoadsKeep(names: map<Mutex, nat>, more: map<Mutex, nat>, log: Log, e: Event, t: Tid,
                  loads: map<AccessKey, set<PLockset>>, ptrs: map<nat, PLockset>)
    requires Extends(more, names) && LoadsRep(names, log, t, loads, ptrs)
    ensures LoadsRep(more, log + [e], t, loads, ptrs)
  {
    forall l | l in ptrs
      ensures LoadOk(more, log + [e], t, loads, l, ptrs[l])
    {
      LoadKeeps(names, more, log, e, t, loads, l, ptrs[l]);
    }
    forall key, p | key in loads && p in loads[key]
      ensures Filed(log + [e], ptrs, key, p)
    {
      assert Filed(log, ptrs, key, p);
      var l :| l in ptrs && FiledFor(log, ptrs, key, p, l);
      KeyKeeps(log, e, l);
      assert FiledFor(log + [e], ptrs, key, p, l);
    }
  }

  // What stays for a thread when `e` is not an event of that kind on that thread.

  lemma LocksStay(names: map<Mutex, nat>, more: map<Mutex, nat>, log: Log, e: Event, t: Tid, s: Snapshot)
    requires Extends(more, names) && LocksRep(names, log, t, s)
    requires e.tid == t ==> !e.Lock? && !e.Unlock?
    ensures LocksRep(more, log + [e], t, s)
    ensures LocksAt(log + [e], |log| + 1, t) == LocksAt(log + [e], |log|, t) == LocksAt(log, |log|, t)
  {
    SameLocks(log, e, |log|, t);
    EncodesExtends(names, more, s.timestamps, LocksAt(log, |log|, t).held);
  }

  lemma ClocksStay(log: Log, e: Event, t: Tid, s: Snapshot)
    requires ClocksRep(log, t, s) && (e.tid == t ==> !PushesClock(e))
    ensures ClocksRep(log + [e], t, s)
    ensures ClocksAt(log + [e], |log|, t) == s.clocks
  {
    SameClocks(log, e, |log|);
    StartedStays(log, e, t);
  }

  lemma StartedStays(log: Log, e: Event, t: Tid)
    ensures Started(log + [e], |log| + 1, t) <==> Started(log, |log|, t) || e == Init(t)
  {
    if Started(log, |log|, t) {
      var x: nat :| x < |log| && log[x] == Init(t);
      assert (log + [e])[x] == Init(t);
    }
    if e == Init(t) {
      assert (log + [e])[|log|] == Init(t);
    }
  }

  lemma CacheStays(names: map<Mutex, nat>, more: map<Mutex, nat>, log: Log, e: Event, unpersisted: bool, t: Tid,
                   s: Snapshot)
    requires Extends(more, names) && CacheRep(names, log, unpersisted, t, s)
    requires e.tid == t ==> !e.Store? && !e.Flush? && !e.Fence?
    ensures CacheRep(more, log + [e], unpersisted, t, s)
  {
    var c := CacheAt(unpersisted, log, |log|, t);
    SameCache(unpersisted, log, e, |log|, t);
    MemKeeps(names, more, log, e, t, s.mem, c.dirty);
    MemKeeps(names, more, log, e, t, s.flushed, c.flushed);
  }

  lemma OutputStays(names: map<Mutex, nat>, more: map<Mutex, nat>, log: Log, e: Event, n: nat, unpersisted: bool,
                    t: Tid, s: Snapshot)
    requires Extends(more, names) && OutputRep(names, log, n, unpersisted, t, s)
    requires e.tid == t ==> !e.Load? && !e.Fence? && (unpersisted ==> !e.Store? && !e.Exit?)
    ensures OutputRep(more, log + [e], n, unpersisted, t, s)
  {
    LedgerStays(log, e, n, unpersisted, t);
    LoadSetStays(log, e, n, unpersisted, t);
    StoresKeep(names, more, log, e, t, s.stores, s.entries, LedgerAt(n, unpersisted, log, |log|, t));
    LoadsKeep(names, more, log, e, t, s.loads, s.ptrs);
  }

  lemma LedgerStays(log: Log, e: Event, n: nat, unpersisted: bool, t: Tid)
    requires e.tid == t ==> !e.Fence? && (unpersisted ==> !e.Store? && !e.Exit?)
    ensures LedgerAt(n, unpersisted, log + [e], |log + [e]|, t) == LedgerAt(n, unpersisted, log, |log|, t)
  {
    SameLedger(n, unpersisted, log, e, |log|, t);
    assert (log + [e])[|log|] == e;
    assert e.tid == t ==> EmittedAt(n, unpersisted, log + [e], |log|) == {};
  }

  lemma LoadSetStays(log: Log, e: Event, n: nat, unpersisted: bool, t: Tid)
    requires e.tid == t ==> !e.Load?
    ensures LoadsAt(n, unpersisted, log + [e], |log + [e]|, t) == LoadsAt(n, unpersisted, log, |log|, t)
  {
    SameLoads(n, unpersisted, log, e, |log|, t);
    assert (log + [e])[|log|] == e;
  }

  /** Another thread's event leaves a thread as it was. */
  lemma OtherThreadStays(names: map<Mutex, nat>, more: map<Mutex, nat>, log: Log, e: Event, n: nat, unpersisted: bool,
                         t: Tid, s: Snapshot)
    requires Extends(more, names) && e.tid != t && ThreadRep(names, log, n, unpersisted, t, s)
    ensures ThreadRep(more, log + [e], n, unpersisted, t, s)
  {
    LocksStay(names, more, log, e, t, s);
    ClocksStay(log, e, t, s);
    CacheStays(names, more, log, e, unpersisted, t, s);
    OutputStays(names, more, log, e, n, unpersisted, t, s);
  }

  /** Registering more locks leaves every encoding as it was. */
  lemma ThreadKeepsNames(names: map<Mutex, nat>, more: map<Mutex, nat>, log: Log, n: nat, unpersisted: bool, t: Tid,
                         s: Snapshot)
    requires Extends(more, names) && ThreadRep(names, log, n, unpersisted, t, s)
    ensures ThreadRep(more, log, n, unpersisted, t, s)
  {
    EncodesExtends(names, more, s.timestamps, LocksAt(log, |log|, t).held);
    var c := CacheAt(unpersisted, log, |log|, t);
    MemKeepsNames(names, more, log, t, s.mem, c.dirty);
    MemKeepsNames(names, more, log, t, s.flushed, c.flushed);
    forall j | 0 <= j < |s.entries|
      ensures RecordOk(more, log, t, s.stores[j], s.entries[j])
    {
      ImageExtends(names, more,
                   Common(LocksAt(log, s.entries[j].stored, t).held, LocksAt(log, s.entries[j].at, t).held));
    }
    forall l | l in s.ptrs
      ensures LoadOk(more, log, t, s.loads, l, s.ptrs[l])
    {
      ImageExtends(names, more, HeldSet(log, l, t));
    }
  }

  lemma MemKeepsNames(names: map<Mutex, nat>, more: map<Mutex, nat>, log: Log, t: Tid, m: MemState, idx: map<Addr, nat>)
    requires Extends(more, names) && MemRep(names, log, t, m, idx)
    ensures MemRep(more, log, t, m, idx)
  {
    forall a | a in Flat(m)
      ensures DataOk(more, log, t, Flat(m)[a], idx[a])
    {
      EncodesExtends(names, more, Flat(m)[a].lockset.timestamps, LocksAt(log, idx[a], t).held);
    }
  }
}
