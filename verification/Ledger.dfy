/**
 * What the detector records of a run: store records in a per-thread ledger, loads,
 * and the first-touch heuristic that filters both.
 *
 * A ledger entry names its store and the event that ended its life: the fence that
 * persisted it or, with unpersisted checking on, the overwriting store or thread exit.
 */
module Ledger {
  import opened Events
  import opened Persistence

  // ------------------------------------------------------- first-touch heuristic

  /** The bytes event `e` shows to the heuristic; a multi-byte access shows only its first. */
  function TouchedBytes(unpersisted: bool, c: Cache, e: Event): set<Addr> {
    var pending := c.dirty.Keys + c.flushed.Keys;
    match e
    case Store(_, addr, size, _) =>
      (if size > 0 then {addr} else {}) + (if unpersisted then Bytes(addr, size) * pending else {})
    case Load(_, addr, size, _) => if size > 0 then {addr} else {}
    case Fence(_, _) => c.flushed.Keys
    case Exit(_) => if unpersisted then pending else {}
    case _ => {}
  }

  function TouchedAt(unpersisted: bool, log: Log, k: nat): set<(Tid, Addr)>
    requires k <= |log|
  {
    if k == 0 then {} else
      var e := log[k - 1];
      TouchedAt(unpersisted, log, k - 1)
      + set a | a in TouchedBytes(unpersisted, CacheAt(unpersisted, log, k - 1, e.tid), e) :: (e.tid, a)
  }

  function ThreadsOn(touched: set<(Tid, Addr)>, a: Addr): set<Tid> {
    set p | p in touched && p.1 == a :: p.0
  }

  /** Threshold `n` lets an access to `a` through: the heuristic is off, or more than `n` threads came. */
  predicate Published(n: nat, touched: set<(Tid, Addr)>, a: Addr) {
    n == 0 || |ThreadsOn(touched, a)| > n
  }

  // ---------------------------------------------------------------- store records

  datatype Entry = Entry(addr: Addr, stored: nat, at: nat, persisted: bool, wasFlushed: bool)

  function Entries(m: map<Addr, nat>, keys: set<Addr>, k: nat, persisted: bool, wasFlushed: bool): set<Entry> {
    set a | a in keys && a in m :: Entry(a, m[a], k, persisted, wasFlushed)
  }

  function PublishedOnly(n: nat, touched: set<(Tid, Addr)>, keys: set<Addr>): set<Addr> {
    set a | a in keys && Published(n, touched, a)
  }

  /** The entries event `k` adds to its thread's ledger. */
  function EmittedAt(n: nat, unpersisted: bool, log: Log, k: nat): set<Entry>
    requires k < |log|
  {
    var c := CacheAt(unpersisted, log, k, log[k].tid);
    var touched := TouchedAt(unpersisted, log, k + 1);
    match log[k]
    case Fence(_, _) =>
      Entries(c.flushed, PublishedOnly(n, touched, c.flushed.Keys), k, true, true)
    case Store(_, addr, size, _) =>
      if !unpersisted then {} else
        var keys := PublishedOnly(n, touched, Bytes(addr, size));
        Entries(c.dirty, keys, k, false, false) + Entries(c.flushed, keys, k, false, true)
    case Exit(_) =>
      if !unpersisted then {} else
        Entries(c.dirty, PublishedOnly(n, touched, c.dirty.Keys), k, false, false)
        + Entries(c.flushed, PublishedOnly(n, touched, c.flushed.Keys), k, false, true)
    case _ => {}
  }

  function LedgerAt(n: nat, unpersisted: bool, log: Log, k: nat, t: Tid): set<Entry>
    requires k <= |log|
  {
    if k == 0 then {} else
      LedgerAt(n, unpersisted, log, k - 1, t)
      + if log[k - 1].tid == t then EmittedAt(n, unpersisted, log, k - 1) else {}
  }

  // ------------------------------------------------------------------------ loads

  predicate RecordedLoad(n: nat, unpersisted: bool, log: Log, l: nat)
    requires l < |log|
  {
    log[l].Load? && log[l].size > 0 && Published(n, TouchedAt(unpersisted, log, l + 1), log[l].addr)
  }

  function LoadsAt(n: nat, unpersisted: bool, log: Log, k: nat, t: Tid): (loads: set<nat>)
    requires k <= |log|
    ensures forall l: nat :: l in loads <==> l < k && log[l].tid == t && RecordedLoad(n, unpersisted, log, l)
  {
    if k == 0 then {} else
      LoadsAt(n, unpersisted, log, k - 1, t)
      + if log[k - 1].tid == t && RecordedLoad(n, unpersisted, log, k - 1) then {k - 1} else {}
  }

  // ------------------------------------------------------ the heuristic only filters

  /** Raising the threshold never records more, on the same run. */
  lemma {:induction false} LedgerIsAntitone(m: nat, n: nat, unpersisted: bool, log: Log, k: nat, t: Tid)
    requires n <= m && k <= |log|
    ensures LedgerAt(m, unpersisted, log, k, t) <= LedgerAt(n, unpersisted, log, k, t)
    ensures LoadsAt(m, unpersisted, log, k, t) <= LoadsAt(n, unpersisted, log, k, t)
  {
    if k > 0 {
      LedgerIsAntitone(m, n, unpersisted, log, k - 1, t);
    }
  }

  lemma {:induction false} SubsetIsSmaller<T>(a: set<T>, b: set<T>)
    requires a <= b
    ensures |a| <= |b|
  {
    if a != {} {
      var x :| x in a;
      SubsetIsSmaller(a - {x}, b - {x});
    }
  }

  /** An address once published stays published. */
  lemma {:induction false} StaysPublished(n: nat, unpersisted: bool, log: Log, j: nat, k: nat, a: Addr)
    requires j <= k <= |log|
    ensures TouchedAt(unpersisted, log, j) <= TouchedAt(unpersisted, log, k)
    ensures Published(n, TouchedAt(unpersisted, log, j), a) ==> Published(n, TouchedAt(unpersisted, log, k), a)
    decreases k
  {
    if j < k {
      StaysPublished(n, unpersisted, log, j, k - 1, a);
      SubsetIsSmaller(ThreadsOn(TouchedAt(unpersisted, log, k - 1), a), ThreadsOn(TouchedAt(unpersisted, log, k), a));
    }
  }

  // ----------------------------------------------------------- conservation of stores

  /** Number of byte stores thread `t` has executed. */
  function StoredBytes(log: Log, k: nat, t: Tid): nat
    requires k <= |log|
  {
    if k == 0 then 0 else
      StoredBytes(log, k - 1, t) + if log[k - 1].Store? && log[k - 1].tid == t then log[k - 1].size else 0
  }

  lemma {:induction false} CountKnown(m: map<Addr, nat>, keys: set<Addr>, k: nat, persisted: bool, wasFlushed: bool)
    requires keys <= m.Keys
    ensures |Entries(m, keys, k, persisted, wasFlushed)| == |keys|
  {
    if keys != {} {
      var a :| a in keys;
      var rest := keys - {a};
      CountKnown(m, rest, k, persisted, wasFlushed);
      var en := Entry(a, m[a], k, persisted, wasFlushed);
      var fewer := Entries(m, rest, k, persisted, wasFlushed);
      assert en !in fewer;
      assert Entries(m, keys, k, persisted, wasFlushed) == fewer + {en};
    }
  }

  lemma CountEntries(m: map<Addr, nat>, keys: set<Addr>, k: nat, persisted: bool, wasFlushed: bool)
    ensures |Entries(m, keys, k, persisted, wasFlushed)| == |m.Keys * keys|
  {
    var known := m.Keys * keys;
    CountKnown(m, known, k, persisted, wasFlushed);
    assert Entries(m, keys, k, persisted, wasFlushed) == Entries(m, known, k, persisted, wasFlushed);
  }

  lemma {:induction false} LedgerIsPast(n: nat, unpersisted: bool, log: Log, k: nat, t: Tid)
    requires k <= |log|
    ensures forall en | en in LedgerAt(n, unpersisted, log, k, t) :: en.at < k
  {
    if k > 0 {
      LedgerIsPast(n, unpersisted, log, k - 1, t);
    }
  }

  /** Every entry is about a store of this thread, made before the event that recorded it. */
  lemma {:induction false} LedgerStoredBefore(n: nat, unpersisted: bool, log: Log, k: nat, t: Tid)
    requires k <= |log|
    ensures forall en | en in LedgerAt(n, unpersisted, log, k, t) ::
              en.stored < en.at < k && log[en.at].tid == t && IsStore(log, en.stored, t, en.addr)
  {
    if k > 0 {
      LedgerStoredBefore(n, unpersisted, log, k - 1, t);
      PendingAreStores(unpersisted, log, k - 1, t);
    }
  }

  // Membership in the ledger and in what an event emits, quantified so that callers carry it whole.

  ghost predicate EmittedIn(n: nat, unpersisted: bool, log: Log, k: nat, en: Entry) {
    forall j {:trigger EmittedAt(n, unpersisted, log, j)} | j == k ::
          j < |log| && en in EmittedAt(n, unpersisted, log, j)
  }

  ghost predicate InLedger(n: nat, unpersisted: bool, log: Log, k: nat, t: Tid, en: Entry) {
    forall j {:trigger LedgerAt(n, unpersisted, log, j, t)} | j == k ::
          j <= |log| && en in LedgerAt(n, unpersisted, log, j, t)
  }

  lemma EmittedInNow(n: nat, unpersisted: bool, log: Log, k: nat, en: Entry)
    requires k < |log|
    ensures EmittedIn(n, unpersisted, log, k, en) ==> en.at == k
  {
    EmittedNow(n, unpersisted, log, k);
    assert EmittedIn(n, unpersisted, log, k, en) ==> en in EmittedAt(n, unpersisted, log, k);
  }

  lemma LedgerGrows(n: nat, unpersisted: bool, log: Log, k: nat, t: Tid, en: Entry)
    requires k < |log|
    ensures InLedger(n, unpersisted, log, k + 1, t, en) <==>
              InLedger(n, unpersisted, log, k, t, en) || (log[k].tid == t && EmittedIn(n, unpersisted, log, k, en))
  {
    var before, now := LedgerAt(n, unpersisted, log, k, t), EmittedAt(n, unpersisted, log, k);
    assert LedgerAt(n, unpersisted, log, k + 1, t) == before + if log[k].tid == t then now else {};
    assert InLedger(n, unpersisted, log, k, t, en) <==> en in before;
    assert EmittedIn(n, unpersisted, log, k, en) <==> en in now;
  }

  lemma LedgerGains(n: nat, unpersisted: bool, log: Log, k: nat, t: Tid, en: Entry)
    requires k < |log|
    ensures InLedger(n, unpersisted, log, k + 1, t, en) <==>
              InLedger(n, unpersisted, log, k, t, en) || (en.at == k && EmittedBy(n, unpersisted, log, t, en))
  {
    LedgerGrows(n, unpersisted, log, k, t, en);
    EmittedInNow(n, unpersisted, log, k, en);
  }

  ghost predicate EmittedBy(n: nat, unpersisted: bool, log: Log, t: Tid, en: Entry) {
    en.at < |log| && log[en.at].tid == t && EmittedIn(n, unpersisted, log, en.at, en)
  }

  lemma {:induction false} LedgerIsEmittedBy(n: nat, unpersisted: bool, log: Log, k: nat, t: Tid, en: Entry)
    requires k <= |log|
    ensures InLedger(n, unpersisted, log, k, t, en) <==> en.at < k && EmittedBy(n, unpersisted, log, t, en)
  {
    if k > 0 {
      LedgerIsEmittedBy(n, unpersisted, log, k - 1, t, en);
      LedgerGains(n, unpersisted, log, k - 1, t, en);
      assert k - 1 + 1 == k;
    } else {
      assert InLedger(n, unpersisted, log, 0, t, en) ==> en in LedgerAt(n, unpersisted, log, 0, t);
    }
  }

  /** The ledger is what its thread's events emitted. */
  lemma LedgerIsEmitted(n: nat, unpersisted: bool, log: Log, k: nat, t: Tid, en: Entry)
    requires k <= |log|
    ensures en in LedgerAt(n, unpersisted, log, k, t) <==>
              en.at < k && log[en.at].tid == t && en in EmittedAt(n, unpersisted, log, en.at)
  {
    LedgerIsEmittedBy(n, unpersisted, log, k, t, en);
    assert InLedger(n, unpersisted, log, k, t, en) <==> en in LedgerAt(n, unpersisted, log, k, t);
    if en.at < k {
      assert EmittedIn(n, unpersisted, log, en.at, en) <==> en in EmittedAt(n, unpersisted, log, en.at);
    }
  }

  lemma EmittedNow(n: nat, unpersisted: bool, log: Log, k: nat)
    requires k < |log|
    ensures forall en | en in EmittedAt(n, unpersisted, log, k) :: en.at == k
  {
  }

  lemma LedgerStep(n: nat, unpersisted: bool, log: Log, k: nat)
    requires k < |log|
    ensures var t := log[k].tid;
            |LedgerAt(n, unpersisted, log, k + 1, t)|
                  == |LedgerAt(n, unpersisted, log, k, t)| + |EmittedAt(n, unpersisted, log, k)|
  {
    LedgerIsPast(n, unpersisted, log, k, log[k].tid);
    EmittedNow(n, unpersisted, log, k);
    assert LedgerAt(n, unpersisted, log, k, log[k].tid) !! EmittedAt(n, unpersisted, log, k);
  }

  /** With the heuristic off every key counts as published. */
  lemma NothingFiltered(touched: set<(Tid, Addr)>, keys: set<Addr>)
    ensures PublishedOnly(0, touched, keys) == keys
  {
  }

  lemma MapSplit(m: map<Addr, nat>, keys: set<Addr>)
    ensures |(m - keys).Keys| + |m.Keys * keys| == |m|
  {
    assert (m - keys).Keys == m.Keys - keys;
    assert m.Keys == (m.Keys - keys) + (m.Keys * keys);
  }

  function PendingBytes(c: Cache): nat {
    |c.dirty| + |c.flushed|
  }

  /** Two batches of entries that differ in the flushed flag, counted together. */
  lemma CountBoth(c: Cache, dirtyKeys: set<Addr>, flushedKeys: set<Addr>, k: nat)
    ensures |Entries(c.dirty, dirtyKeys, k, false, false) + Entries(c.flushed, flushedKeys, k, false, true)|
         == |c.dirty.Keys * dirtyKeys| + |c.flushed.Keys * flushedKeys|
  {
    CountEntries(c.dirty, dirtyKeys, k, false, false);
    CountEntries(c.flushed, flushedKeys, k, false, true);
    assert Entries(c.dirty, dirtyKeys, k, false, false) !! Entries(c.flushed, flushedKeys, k, false, true);
  }

  lemma StoreCounts(c: Cache, t: Tid, k: nat, e: Event)
    requires e.Store? && e.tid == t
    ensures PendingBytes(CacheStep(true, c, t, k, e))
         == PendingBytes(c) + e.size - |c.dirty.Keys * Bytes(e.addr, e.size)| - |c.flushed.Keys * Bytes(e.addr, e.size)|
  {
    var bytes := Bytes(e.addr, e.size);
    MapSplit(c.dirty, bytes);
    MapSplit(c.flushed, bytes);
    assert StoreAll(c.dirty, bytes, k).Keys == (c.dirty - bytes).Keys + bytes;
  }

  lemma FlushCounts(c: Cache, t: Tid, k: nat, e: Event)
    requires e.Flush? && e.tid == t && c.dirty.Keys !! c.flushed.Keys
    ensures PendingBytes(CacheStep(true, c, t, k, e)) == PendingBytes(c)
  {
    var moved := OfLine(c.dirty, CacheLine(e.addr));
    MapSplit(c.dirty, moved.Keys);
    assert c.dirty.Keys * moved.Keys == moved.Keys;
    assert (c.flushed + moved).Keys == c.flushed.Keys + moved.Keys;
  }

  lemma ExitCounts(c: Cache, k: nat)
    ensures |Entries(c.dirty, c.dirty.Keys, k, false, false) + Entries(c.flushed, c.flushed.Keys, k, false, true)|
         == PendingBytes(c)
  {
    CountBoth(c, c.dirty.Keys, c.flushed.Keys, k);
    assert c.dirty.Keys * c.dirty.Keys == c.dirty.Keys;
    assert c.flushed.Keys * c.flushed.Keys == c.flushed.Keys;
  }

  /** How many entries an event adds, and how the pending bytes change with it. */
  lemma StepCounts(log: Log, k: nat)
    requires k < |log|
    ensures var before := PendingBytes(CacheAt(true, log, k, log[k].tid));
            var after := PendingBytes(CacheAt(true, log, k + 1, log[k].tid));
            (|EmittedAt(0, true, log, k)|
                  == before + (if log[k].Store? then log[k].size else 0) - (if log[k].Exit? then 0 else after))
  {
    var e, t := log[k], log[k].tid;
    var c := CacheAt(true, log, k, t);
    var touched := TouchedAt(true, log, k + 1);
    assert CacheAt(true, log, k + 1, t) == CacheStep(true, c, t, k, e);
    match e
    case Store(_, addr, size, _) =>
      var bytes := Bytes(addr, size);
      NothingFiltered(touched, bytes);
      CountBoth(c, bytes, bytes, k);
      StoreCounts(c, t, k, e);
    case Flush(_, addr) =>
      NeverDirtyAndFlushed(log, k, t);
      FlushCounts(c, t, k, e);
    case Fence(_, _) =>
      NothingFiltered(touched, c.flushed.Keys);
      CountEntries(c.flushed, c.flushed.Keys, k, true, true);
      assert c.flushed.Keys * c.flushed.Keys == c.flushed.Keys;
    case Exit(_) =>
      NothingFiltered(touched, c.dirty.Keys);
      NothingFiltered(touched, c.flushed.Keys);
      ExitCounts(c, k);
    case _ =>
  }

  ghost predicate Exited(log: Log, k: nat, t: Tid)
    requires k <= |log|
  {
    exists x: nat :: x < k && log[x] == Exit(t)
  }

  ghost predicate NothingAfterExit(log: Log) {
    forall x: nat, y: nat | x < y < |log| && log[x].tid == log[y].tid :: !log[x].Exit?
  }

  lemma ExitedStep(log: Log, k: nat, t: Tid)
    requires NothingAfterExit(log) && k < |log|
    ensures log[k].tid == t ==> !Exited(log, k, t) && (Exited(log, k + 1, t) <==> log[k].Exit?)
    ensures log[k].tid != t ==> (Exited(log, k + 1, t) <==> Exited(log, k, t))
  {
    if log[k] == Exit(t) {
      assert Exited(log, k + 1, t);
    }
    if Exited(log, k, t) {
      var x: nat :| x < k && log[x] == Exit(t);
      assert x < k + 1;
    }
  }

  function Unrecorded(exited: bool, c: Cache): nat {
    if exited then 0 else PendingBytes(c)
  }

  /** Byte stores executed that are neither recorded nor pending. */
  ghost function Lost(log: Log, k: nat, t: Tid): int
    requires k <= |log|
  {
    StoredBytes(log, k, t) - |LedgerAt(0, true, log, k, t)| - Unrecorded(Exited(log, k, t), CacheAt(true, log, k, t))
  }

  lemma OwnEventLosesNothing(log: Log, k: nat)
    requires NothingAfterExit(log) && k < |log|
    ensures Lost(log, k + 1, log[k].tid) == Lost(log, k, log[k].tid)
  {
    var t := log[k].tid;
    ExitedStep(log, k, t);
    StepCounts(log, k);
    LedgerStep(0, true, log, k);
    assert StoredBytes(log, k + 1, t) == StoredBytes(log, k, t) + if log[k].Store? then log[k].size else 0;
    assert Unrecorded(Exited(log, k, t), CacheAt(true, log, k, t)) == PendingBytes(CacheAt(true, log, k, t));
  }

  lemma OtherEventLosesNothing(log: Log, k: nat, t: Tid)
    requires NothingAfterExit(log) && k < |log| && log[k].tid != t
    ensures Lost(log, k + 1, t) == Lost(log, k, t)
  {
    ExitedStep(log, k, t);
    assert LedgerAt(0, true, log, k + 1, t) == LedgerAt(0, true, log, k, t);
    assert CacheAt(true, log, k + 1, t) == CacheAt(true, log, k, t);
  }

  lemma EventLosesNothing(log: Log, k: nat, t: Tid)
    requires NothingAfterExit(log) && k < |log|
    ensures Lost(log, k + 1, t) == Lost(log, k, t)
  {
    if log[k].tid == t {
      OwnEventLosesNothing(log, k);
    } else {
      OtherEventLosesNothing(log, k, t);
    }
  }

  ghost predicate LostIs(log: Log, k: nat, t: Tid, lost: int) {
    forall j {:trigger Lost(log, j, t)} | j == k :: j <= |log| && Lost(log, j, t) == lost
  }

  lemma EventKeepsLost(log: Log, k: nat, t: Tid, lost: int)
    requires NothingAfterExit(log) && k < |log| && LostIs(log, k, t, lost)
    ensures LostIs(log, k + 1, t, lost)
  {
    EventLosesNothing(log, k, t);
    assert Lost(log, k, t) == lost;
  }

  lemma {:induction false} NothingIsLost(log: Log, k: nat, t: Tid, lost: int)
    requires NothingAfterExit(log) && k <= |log| && LostIs(log, 0, t, lost)
    ensures LostIs(log, k, t, lost)
  {
    if k > 0 {
      NothingIsLost(log, k - 1, t, lost);
      EventKeepsLost(log, k - 1, t, lost);
      assert k - 1 + 1 == k;
    }
  }

  /**
   * Conservation, with unpersisted checking on and the heuristic off: at every step each
   * byte store is recorded, dirty or flushed; once the thread has exited, all are recorded.
   */
  lemma StoresAreConserved(log: Log, k: nat, t: Tid)
    requires NothingAfterExit(log) && k <= |log|
    ensures var recorded, c := |LedgerAt(0, true, log, k, t)|, CacheAt(true, log, k, t);
            StoredBytes(log, k, t) == if Exited(log, k, t) then recorded else recorded + |c.dirty| + |c.flushed|
  {
    assert LedgerAt(0, true, log, 0, t) == {} && Lost(log, 0, t) == 0;
    NothingIsLost(log, k, t, 0);
    assert Lost(log, k, t) == 0;
  }

  /** Where the store at `i` to byte `a` is now. */
  datatype Fate = IsDirty | IsFlushed | IsRecorded(entry: Entry)

  ghost predicate HasFate(log: Log, k: nat, t: Tid, a: Addr, i: nat, fate: Fate)
    requires k <= |log|
  {
    var c := CacheAt(true, log, k, t);
    match fate
    case IsDirty => !Exited(log, k, t) && a in c.dirty && c.dirty[a] == i
    case IsFlushed => !Exited(log, k, t) && a in c.flushed && c.flushed[a] == i
    case IsRecorded(en) => en in LedgerAt(0, true, log, k, t) && en.addr == a && en.stored == i
  }

  lemma {:induction false} FateExists(log: Log, k: nat, t: Tid, a: Addr, i: nat) returns (fate: Fate)
    requires NothingAfterExit(log) && k <= |log| && i < k && IsStore(log, i, t, a)
    ensures HasFate(log, k, t, a, i, fate)
  {
    var e := log[k - 1];
    if i == k - 1 {
      fate := IsDirty;
      assert a in Bytes(e.addr, e.size);
      assert !Exited(log, k, t);
    } else {
      var was := FateExists(log, k - 1, t, a, i);
      fate := NextFate(log, k - 1, t, a, i, was);
    }
  }

  lemma NextFate(log: Log, k: nat, t: Tid, a: Addr, i: nat, was: Fate) returns (fate: Fate)
    requires NothingAfterExit(log) && k < |log| && i < k && HasFate(log, k, t, a, i, was)
    ensures HasFate(log, k + 1, t, a, i, fate)
  {
    var e := log[k];
    fate := was;
    if e.tid != t {
      assert Exited(log, k + 1, t) <==> Exited(log, k, t);
    } else if !was.IsRecorded? {
      assert Exited(log, k + 1, t) <==> e.Exit?;
      NothingFiltered(TouchedAt(true, log, k + 1), {a});
      if e.Store? && Covers(e, a) {
        fate := IsRecorded(Entry(a, i, k, false, was.IsFlushed?));
      } else if e.Exit? {
        fate := IsRecorded(Entry(a, i, k, false, was.IsFlushed?));
      } else if e.Fence? && was.IsFlushed? {
        fate := IsRecorded(Entry(a, i, k, true, true));
      } else if e.Flush? && CacheLine(e.addr) == CacheLine(a) {
        NeverDirtyAndFlushed(log, k, t);
        fate := IsFlushed;
      }
    }
  }

  /** Exactly one fate: no byte store is recorded twice, nor recorded and still pending. */
  lemma {:induction false} FateIsUnique(log: Log, k: nat, t: Tid, a: Addr, i: nat, f: Fate, g: Fate)
    requires NothingAfterExit(log) && k <= |log|
    requires HasFate(log, k, t, a, i, f) && HasFate(log, k, t, a, i, g)
    ensures f == g
  {
    NeverDirtyAndFlushed(log, k, t);
    if f.IsRecorded? && k > 0 {
      RecordedIsGone(log, k, t, a, i, f.entry);
      if g.IsRecorded? {
        RecordedIsGone(log, k, t, a, i, g.entry);
      }
    } else if g.IsRecorded? && k > 0 {
      RecordedIsGone(log, k, t, a, i, g.entry);
    }
  }

  ghost predicate Holds(m: map<Addr, nat>, a: Addr, i: nat) {
    a in m && m[a] == i
  }

  /** What an event emits was pending just before it, and no longer is. */
  lemma EmittedWasPending(log: Log, k: nat, en: Entry)
    requires k < |log| && en in EmittedAt(0, true, log, k)
    ensures var c, d := CacheAt(true, log, k, log[k].tid), CacheAt(true, log, k + 1, log[k].tid);
            && en == Entry(en.addr, en.stored, k, log[k].Fence?, en.wasFlushed)
            && (if en.wasFlushed then Holds(c.flushed, en.addr, en.stored) else Holds(c.dirty, en.addr, en.stored))
            && en.stored < k
            && (log[k].Exit? || (!Holds(d.dirty, en.addr, en.stored) && !Holds(d.flushed, en.addr, en.stored)))
  {
    PendingAreStores(true, log, k, log[k].tid);
    NeverDirtyAndFlushed(log, k, log[k].tid);
  }

  /** A store does not come back: pending after an event means just stored or pending before. */
  lemma PendingWasPending(log: Log, k: nat, t: Tid, a: Addr, i: nat)
    requires k < |log| && i < k
    ensures var c, d := CacheAt(true, log, k, t), CacheAt(true, log, k + 1, t);
            && (Holds(d.dirty, a, i) ==> Holds(c.dirty, a, i))
            && (Holds(d.flushed, a, i) ==> Holds(c.flushed, a, i) || Holds(c.dirty, a, i))
  {
  }

  /** A recorded byte store has left the cache, and has no second entry. */
  lemma {:induction false} RecordedIsGone(log: Log, k: nat, t: Tid, a: Addr, i: nat, en: Entry)
    requires NothingAfterExit(log) && k <= |log|
    requires HasFate(log, k, t, a, i, IsRecorded(en))
    ensures !HasFate(log, k, t, a, i, IsDirty) && !HasFate(log, k, t, a, i, IsFlushed)
    ensures forall other | HasFate(log, k, t, a, i, IsRecorded(other)) :: other == en
  {
    var past := LedgerAt(0, true, log, k - 1, t);
    if en in past {
      RecordedIsGone(log, k - 1, t, a, i, en);
      RecordedStaysGone(log, k - 1, t, a, i, en);
    } else {
      EmittedWasPending(log, k - 1, en);
      assert !Exited(log, k - 1, t);
      forall other | HasFate(log, k, t, a, i, IsRecorded(other))
        ensures other == en
      {
        if other in past {
          RecordedIsGone(log, k - 1, t, a, i, other);
        } else {
          EmittedWasPending(log, k - 1, other);
          NeverDirtyAndFlushed(log, k - 1, t);
        }
      }
      assert log[k - 1].Exit? ==> Exited(log, k, t);
    }
  }

  lemma RecordedStaysGone(log: Log, k: nat, t: Tid, a: Addr, i: nat, en: Entry)
    requires NothingAfterExit(log) && k < |log| && HasFate(log, k, t, a, i, IsRecorded(en))
    requires !HasFate(log, k, t, a, i, IsDirty) && !HasFate(log, k, t, a, i, IsFlushed)
    requires forall other | HasFate(log, k, t, a, i, IsRecorded(other)) :: other == en
    ensures !HasFate(log, k + 1, t, a, i, IsDirty) && !HasFate(log, k + 1, t, a, i, IsFlushed)
    ensures forall other | HasFate(log, k + 1, t, a, i, IsRecorded(other)) :: other == en
  {
    LedgerStoredBefore(0, true, log, k, t);
    PendingWasPending(log, k, t, a, i);
    ExitedStep(log, k, t);
    forall other | HasFate(log, k + 1, t, a, i, IsRecorded(other))
      ensures other == en
    {
      if other !in LedgerAt(0, true, log, k, t) {
        EmittedWasPending(log, k, other);
      }
    }
  }
}
