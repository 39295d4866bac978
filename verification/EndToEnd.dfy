/**
 * The reports in terms of the run alone: program order, creates and joins, lock and
 * unlock events, stores, flushes, fences and loads. `n` is the heuristic's threshold
 * and `unpersisted` the option to record stores that were never persisted.
 */
module EndToEnd {
  import opened DetectorReports
  import opened DetectorState
  import opened Events
  import opened Exactness
  import opened HappensBefore
  import opened Ledger
  import opened LockHistory
  import opened Persistence
  import opened RaceAnalysis
  import opened Records
  import opened VectorClocks

  /** The 16-bit epoch numbers and the 32-bit timestamps of the run do not wrap. */
  ghost predicate InRange(log: Log) {
    forall t: Tid :: |ClocksAt(log, |log|, t)| <= 65536 && Acquisitions(log, |log|, t) <= 0x1_0000_0000
  }

  // ------------------------------------------------------------------ what a race is

  /** The store at `i` has been flushed and a fence at `k` would persist it. */
  ghost predicate Draining(unpersisted: bool, log: Log, k: nat, t: Tid, a: Addr, i: nat) {
    if unpersisted then WaitsForFence(log, k, t, a, i) else DrainedBy(log, k, t, a, i)
  }

  /** Event `k` overwrites byte `a` or ends the thread. */
  ghost predicate Drops(log: Log, k: nat, t: Tid, a: Addr) {
    IsStore(log, k, t, a) || (k < |log| && log[k] == Exit(t))
  }

  /** How thread `t`'s store at `en.stored` to byte `en.addr` ended: persisted by a fence, or lost. */
  ghost predicate Ended(unpersisted: bool, log: Log, t: Tid, en: Entry) {
    if en.persisted then
      en.wasFlushed && IsFence(log, en.at, t) && Draining(unpersisted, log, en.at, t, en.addr, en.stored)
    else
      unpersisted && Drops(log, en.at, t, en.addr)
      && if en.wasFlushed
            then WaitsForFence(log, en.at, t, en.addr, en.stored) else DirtySince(log, en.at, t, en.addr, en.stored)
  }

  ghost predicate IsLoad(log: Log, l: nat, u: Tid, a: Addr) {
    l < |log| && log[l].Load? && log[l].tid == u && Covers(log[l], a)
  }

  ghost predicate Unordered(log: Log, k: nat, l: nat)
    requires k < |log| && l < |log|
  {
    !Precedes(log, k, l) && !Precedes(log, l, k)
  }

  /** No lock is held both by `t` without a break from `i` to `k` and by `u` at `l`. */
  ghost predicate Unprotected(log: Log, t: Tid, i: nat, k: nat, u: Tid, l: nat)
    requires i <= k <= |log| && l <= |log|
  {
    forall m :: !(HeldThroughout(log, i, k, t, m) && HeldAt(log, l, u, m))
  }

  /** A store to `a` waits in the cache of `t` just before event `k`: flushed, or still dirty. */
  ghost predicate FlushedPending(unpersisted: bool, log: Log, k: nat, t: Tid, a: Addr) {
    exists i: nat :: Draining(unpersisted, log, k, t, a, i)
  }

  ghost predicate DirtyPending(log: Log, k: nat, t: Tid, a: Addr) {
    exists i: nat :: DirtySince(log, k, t, a, i)
  }

  /**
   * Event `j` counts as an access to `a` for the heuristic: a store or load that starts
   * there, a fence that drains it, or the loss of a pending store to it.
   */
  ghost predicate Asks(unpersisted: bool, log: Log, j: nat, a: Addr)
    requires j < |log|
  {
    var e, t := log[j], log[j].tid;
    || ((e.Store? || e.Load?) && e.size > 0 && e.addr == a)
    || (e.Fence? && FlushedPending(unpersisted, log, j, t, a))
    || (unpersisted && Drops(log, j, t, a) && (FlushedPending(unpersisted, log, j, t, a) || DirtyPending(log, j, t, a)))
  }

  /** The threads that have accessed `a` in the first `k` events. */
  ghost function Askers(unpersisted: bool, log: Log, k: nat, a: Addr): set<Tid>
    requires k <= |log|
  {
    set j | 0 <= j < k && Asks(unpersisted, log, j, a) :: log[j].tid
  }

  /** Event `k` on byte `a` is let through: always, or because more than `n` threads have come, this one included. */
  ghost predicate Passes(n: nat, unpersisted: bool, log: Log, k: nat, a: Addr)
    requires k < |log|
  {
    n == 0 || |Askers(unpersisted, log, k + 1, a)| > n
  }

  /** Both accesses are let through; a load goes by its first byte. */
  ghost predicate Shown(n: nat, unpersisted: bool, log: Log, a: Addr, k: nat, l: nat)
    requires k < |log| && l < |log| && log[l].Load?
  {
    Passes(n, unpersisted, log, k, a) && Passes(n, unpersisted, log, l, log[l].addr)
  }

  /**
   * The store `en` of `t` races with the load at `l` of `u`: the end of the store and the
   * load are unordered, and no lock covers the whole window as well as the load.
   */
  ghost predicate RaceAt(n: nat, unpersisted: bool, log: Log, t: Tid, en: Entry, u: Tid, l: nat) {
    && t != u && en.stored < en.at < |log| && Ended(unpersisted, log, t, en) && IsLoad(log, l, u, en.addr)
    && Shown(n, unpersisted, log, en.addr, en.at, l)
    && Unordered(log, en.at, l) && Unprotected(log, t, en.stored, en.at, u, l)
  }

  /**
   * The sites of the store, of what ended it (none for an exit) and of the load are those
   * of a report.
   */
  ghost predicate SeenAt(log: Log, en: Entry, l: nat, key: ReportKey, lt: Trace)
    requires en.stored < |log| && en.at < |log| && l < |log|
  {
    && log[en.stored].Store? && key.0 == log[en.stored].trace
    && (if log[en.at].Exit? then key.1 == NoTrace
        else (log[en.at].Store? || log[en.at].Fence?) && key.1 == log[en.at].trace)
    && key.2 == en.wasFlushed
    && log[l].Load? && lt == log[l].trace
  }

  /** The same, seen at its sites; quantified so that callers carry it whole. */
  ghost predicate RaceSeen(n: nat, unpersisted: bool, log: Log, t: Tid, en: Entry, u: Tid, l: nat, key: ReportKey,
                           lt: Trace) {
    forall load {:trigger RaceAt(n, unpersisted, log, t, en, u, load)} | load == l ::
      RaceAt(n, unpersisted, log, t, en, u, load) && SeenAt(log, en, load, key, lt)
  }

  ghost predicate RaceOnByte(n: nat, unpersisted: bool, log: Log, persisted: bool, a: Addr, key: ReportKey, lt: Trace) {
    exists t: Tid, en: Entry, u: Tid, l: nat ::
      en.addr == a && en.persisted == persisted && RaceSeen(n, unpersisted, log, t, en, u, l, key, lt)
  }

  // ---------------------------------------------------------------- the ingredients

  lemma LiveThreadsStart(log: Log)
    requires ThreadsLive(log)
    ensures AllStarted(log)
  {
    assert ThreadsBehave(log);
  }

  /** A byte is flushed exactly when its store is draining. */
  lemma FlushedIsDraining(unpersisted: bool, log: Log, k: nat, t: Tid, a: Addr, i: nat)
    requires k <= |log|
    ensures var flushed := CacheAt(unpersisted, log, k, t).flushed;
            a in flushed && flushed[a] == i <==> Draining(unpersisted, log, k, t, a, i)
  {
    if unpersisted {
      WaitsExactly(log, k, t, a, i);
    } else {
      DrainsExactly(log, k, t, a);
    }
  }

  /** Event `k` ended the store of `en`, and the heuristic lets its byte through. */
  ghost predicate EndedNow(n: nat, unpersisted: bool, log: Log, k: nat, en: Entry)
    requires k < |log|
  {
    && en.at == k && Ended(unpersisted, log, log[k].tid, en)
    && Published(n, TouchedAt(unpersisted, log, k + 1), en.addr)
  }

  lemma FenceEnds(n: nat, unpersisted: bool, log: Log, k: nat, en: Entry)
    requires k < |log| && log[k].Fence?
    ensures en in EmittedAt(n, unpersisted, log, k) <==> EndedNow(n, unpersisted, log, k, en)
  {
    FlushedIsDraining(unpersisted, log, k, log[k].tid, en.addr, en.stored);
  }

  lemma StoreEnds(n: nat, unpersisted: bool, log: Log, k: nat, en: Entry)
    requires k < |log| && unpersisted && log[k].Store?
    ensures en in EmittedAt(n, unpersisted, log, k) <==> EndedNow(n, unpersisted, log, k, en)
  {
    FlushedIsDraining(unpersisted, log, k, log[k].tid, en.addr, en.stored);
    DirtyExactly(unpersisted, log, k, log[k].tid, en.addr, en.stored);
  }

  lemma ExitEnds(n: nat, unpersisted: bool, log: Log, k: nat, en: Entry)
    requires k < |log| && unpersisted && log[k].Exit?
    ensures en in EmittedAt(n, unpersisted, log, k) <==> EndedNow(n, unpersisted, log, k, en)
  {
    FlushedIsDraining(unpersisted, log, k, log[k].tid, en.addr, en.stored);
    DirtyExactly(unpersisted, log, k, log[k].tid, en.addr, en.stored);
  }

  lemma EmittedIsEnded(n: nat, unpersisted: bool, log: Log, k: nat, en: Entry)
    requires k < |log|
    ensures en in EmittedAt(n, unpersisted, log, k) <==> EndedNow(n, unpersisted, log, k, en)
  {
    if log[k].Fence? {
      FenceEnds(n, unpersisted, log, k, en);
    } else if unpersisted && log[k].Store? {
      StoreEnds(n, unpersisted, log, k, en);
    } else if unpersisted && log[k].Exit? {
      ExitEnds(n, unpersisted, log, k, en);
    }
  }

  /** The ledger holds exactly the ended stores that the heuristic lets through. */
  lemma EntriesAreEnded(n: nat, unpersisted: bool, log: Log, t: Tid, en: Entry)
    ensures en in LedgerAt(n, unpersisted, log, |log|, t) <==>
              en.at < |log| && Ended(unpersisted, log, t, en) && Passes(n, unpersisted, log, en.at, en.addr)
  {
    LedgerIsEmitted(n, unpersisted, log, |log|, t, en);
    if en.at < |log| {
      EmittedIsEnded(n, unpersisted, log, en.at, en);
      PublishedIsPasses(n, unpersisted, log, en.at, en.addr);
    }
  }

  lemma RecordedIsPasses(n: nat, unpersisted: bool, log: Log, u: Tid, l: nat)
    ensures l in LoadsAt(n, unpersisted, log, |log|, u) <==>
              l < |log| && log[l].Load? && log[l].tid
                    == u && log[l].size > 0 && Passes(n, unpersisted, log, l, log[l].addr)
  {
    if l < |log| && log[l].Load? {
      PublishedIsPasses(n, unpersisted, log, l, log[l].addr);
    }
  }

  lemma AsksNow(unpersisted: bool, log: Log, j: nat, a: Addr)
    requires j < |log|
    ensures a in TouchedBytes(unpersisted, CacheAt(unpersisted, log, j, log[j].tid), log[j])
          <==> Asks(unpersisted, log, j, a)
  {
    var t := log[j].tid;
    var c := CacheAt(unpersisted, log, j, t);
    forall i: nat
      ensures a in c.flushed && c.flushed[a] == i <==> Draining(unpersisted, log, j, t, a, i)
      ensures a in c.dirty && c.dirty[a] == i <==> DirtySince(log, j, t, a, i)
    {
      FlushedIsDraining(unpersisted, log, j, t, a, i);
      DirtyExactly(unpersisted, log, j, t, a, i);
    }
    assert a in c.flushed ==> Draining(unpersisted, log, j, t, a, c.flushed[a]);
    assert a in c.dirty ==> DirtySince(log, j, t, a, c.dirty[a]);
    PendingIsHistory(unpersisted, log, j, t, a, c);
  }

  lemma PendingIsHistory(unpersisted: bool, log: Log, j: nat, t: Tid, a: Addr, c: Cache)
    requires forall i: nat :: a in c.flushed && c.flushed[a] == i <==> Draining(unpersisted, log, j, t, a, i)
    requires forall i: nat :: a in c.dirty && c.dirty[a] == i <==> DirtySince(log, j, t, a, i)
    ensures a in c.flushed <==> FlushedPending(unpersisted, log, j, t, a)
    ensures a in c.dirty <==> DirtyPending(log, j, t, a)
  {
    assert a in c.flushed ==> Draining(unpersisted, log, j, t, a, c.flushed[a]);
    assert a in c.dirty ==> DirtySince(log, j, t, a, c.dirty[a]);
  }

  /**
   * The heuristic has seen a thread at an address exactly when one of the thread's events counts
   * as an access to it.
   */
  lemma {:induction false} SeenIsAsked(unpersisted: bool, log: Log, k: nat, a: Addr)
    requires k <= |log|
    ensures ThreadsOn(TouchedAt(unpersisted, log, k), a) == Askers(unpersisted, log, k, a)
  {
    if k > 0 {
      SeenIsAsked(unpersisted, log, k - 1, a);
      AsksNow(unpersisted, log, k - 1, a);
      OneMoreAsker(unpersisted, log, k - 1, a);
      var e := log[k - 1];
      OneMoreTouch(TouchedAt(unpersisted, log, k - 1), e.tid,
                   TouchedBytes(unpersisted, CacheAt(unpersisted, log, k - 1, e.tid), e), a);
    }
  }

  lemma OneMoreAsker(unpersisted: bool, log: Log, j: nat, a: Addr)
    requires j < |log|
    ensures Askers(unpersisted, log, j + 1, a)
         == Askers(unpersisted, log, j, a) + if Asks(unpersisted, log, j, a) then {log[j].tid} else {}
  {
  }

  lemma OneMoreTouch(touched: set<(Tid, Addr)>, t: Tid, bytes: set<Addr>, a: Addr)
    ensures ThreadsOn(touched + (set x | x in bytes :: (t, x)), a)
          == ThreadsOn(touched, a) + if a in bytes then {t} else {}
  {
    var more := touched + (set x | x in bytes :: (t, x));
    forall u
      ensures u in ThreadsOn(more, a) <==> u in ThreadsOn(touched, a) || (a in bytes && u == t)
    {
      assert (u, a) in more <==> (u, a) in touched || (a in bytes && u == t);
    }
  }

  lemma PublishedIsPasses(n: nat, unpersisted: bool, log: Log, k: nat, a: Addr)
    requires k < |log|
    ensures Published(n, TouchedAt(unpersisted, log, k + 1), a) <==> Passes(n, unpersisted, log, k, a)
  {
    SeenIsAsked(unpersisted, log, k + 1, a);
  }

  /** The stored epoch number names the clock of the event's epoch. */
  lemma EpochClockIsSource(log: Log, k: nat)
    requires ThreadsLive(log) && InRange(log) && k < |log| && !log[k].Init?
    ensures EpochClock(log, k, log[k].tid) == Source(log, k)
    ensures Positive(Source(log, k))
  {
    ActsStarted(log, k);
    EpochNamesClock(log, k);
    ClocksPositive(log, |log|, log[k].tid);
  }

  /** A 16-bit epoch number names the event's epoch exactly when it has not wrapped. */
  lemma EpochNumberIsExact(log: Log, k: nat)
    requires ThreadsLive(log) && k < |log| && !log[k].Init?
    ensures EpochClock(log, k, log[k].tid) == Source(log, k) <==> EpochAt(log, k, log[k].tid) < 65536
  {
    ActsStarted(log, k);
    EpochNamesClock(log, k);
    OwnEntriesGrow(log, |log|, log[k].tid);
    var clocks, i := ClocksAt(log, |log|, log[k].tid), EpochAt(log, k, log[k].tid);
    assert i >= EPOCHS ==> Get(clocks[i % EPOCHS], log[k].tid) < Get(clocks[i], log[k].tid);
  }

  /** The stored clocks are concurrent exactly when the events are unordered. */
  lemma ConcurrentIsUnordered(log: Log, k: nat, l: nat)
    requires WellFormed(log) && InRange(log) && k < |log| && l < |log| && log[k].tid != log[l].tid
    requires !log[k].Init? && !log[k].Join? && log[l].Load?
    ensures Concurrent(EpochClock(log, l, log[l].tid), EpochClock(log, k, log[k].tid)) <==> Unordered(log, k, l)
  {
    EpochClockIsSource(log, k);
    EpochClockIsSource(log, l);
    ConcurrentIsIncomparable(Source(log, l), Source(log, k));
    ClocksAreExact(log, l, k);
  }

  /** The recorded locksets are disjoint exactly when no lock protects the pair. */
  lemma DisjointIsUnprotected(log: Log, t: Tid, i: nat, k: nat, u: Tid, l: nat)
    requires InRange(log) && i <= k <= |log| && l <= |log|
    ensures HeldSet(log, l, u) !! Common(LocksAt(log, i, t).held, LocksAt(log, k, t).held)
          <==> Unprotected(log, t, i, k, u, l)
  {
    assert Acquisitions(log, |log|, t) <= 0x1_0000_0000;
    AcquisitionsGrow(log, k, |log|, t);
    forall m
      ensures m in Common(LocksAt(log, i, t).held, LocksAt(log, k, t).held) <==> HeldThroughout(log, i, k, t, m)
      ensures m in HeldSet(log, l, u) <==> HeldAt(log, l, u, m)
    {
      CommonIsHeldThroughout(log, i, k, t, m);
      LocksAreHistory(log, l, u, m);
    }
  }

  // --------------------------------------------------------------------- theorems

  lemma SitesAreSeen(unpersisted: bool, log: Log, t: Tid, en: Entry, l: nat, key: ReportKey, lt: Trace)
    requires en.stored < en.at < |log| && Ended(unpersisted, log, t, en) && l < |log| && log[l].Load?
    ensures SeenAt(log, en, l, key, lt) <==> key == SitesOf(log, en) && lt == TraceOf(log[l])
  {
    assert IsStore(log, en.stored, t, en.addr);
  }

  lemma EntryRaceIsRace(n: nat, unpersisted: bool, log: Log, t: Tid, en: Entry, u: Tid, l: nat, key: ReportKey,
                        lt: Trace)
    requires WellFormed(log) && InRange(log)
    ensures (en in LedgerAt(n, unpersisted, log, |log|, t) && l in LoadsAt(n, unpersisted, log, |log|, u)
             && EntryRaces(log, t, en, u, l, en.persisted, key, lt))
            <==> RaceSeen(n, unpersisted, log, t, en, u, l, key, lt)
  {
    EntriesAreEnded(n, unpersisted, log, t, en);
    RecordedIsPasses(n, unpersisted, log, u, l);
    assert RaceSeen(n, unpersisted, log, t, en, u, l, key, lt) ==> RaceAt(n, unpersisted, log, t, en, u, l);
    if Ended(unpersisted, log, t, en) && en.stored < en.at < |log| && l < |log| && log[l].Load? && log[l].tid
          == u && t != u {
      SitesAreSeen(unpersisted, log, t, en, l, key, lt);
      ConcurrentIsUnordered(log, en.at, l);
      DisjointIsUnprotected(log, t, en.stored, en.at, u, l);
    }
  }

  /** The run's race behind a report. */
  lemma ReportHasRace(n: nat, unpersisted: bool, log: Log, persisted: bool, key: ReportKey, lt: Trace) returns (a: Addr)
    requires WellFormed(log) && InRange(log) && HistoryRace(n, unpersisted, log, persisted, key, lt)
    ensures RaceOnByte(n, unpersisted, log, persisted, a, key, lt)
  {
    var t: Tid, en: Entry, u: Tid, l: nat :|
      && en in LedgerAt(n, unpersisted, log, |log|, t) && l in LoadsAt(n, unpersisted, log, |log|, u)
      && EntryRaces(log, t, en, u, l, persisted, key, lt);
    EntryRaceIsRace(n, unpersisted, log, t, en, u, l, key, lt);
    a := en.addr;
  }

  lemma RaceIsReported(n: nat, unpersisted: bool, log: Log, persisted: bool, a: Addr, key: ReportKey, lt: Trace)
    requires WellFormed(log) && InRange(log) && RaceOnByte(n, unpersisted, log, persisted, a, key, lt)
    ensures HistoryRace(n, unpersisted, log, persisted, key, lt)
  {
    var t: Tid, en: Entry, u: Tid, l: nat :|
      en.addr == a && en.persisted == persisted && RaceSeen(n, unpersisted, log, t, en, u, l, key, lt);
    EntryRaceIsRace(n, unpersisted, log, t, en, u, l, key, lt);
  }

  /**
   * End to end, for every well-formed run, every threshold and both settings of the
   * unpersisted option: a pair of store and ending sites is reported against a load site
   * exactly when the run has a race on some byte at those sites.
   */
  lemma ReportsAreRaces(n: nat, unpersisted: bool, log: Log, persisted: bool, key: ReportKey, lt: Trace)
    requires WellFormed(log) && InRange(log)
    ensures HistoryRace(n, unpersisted, log, persisted, key, lt)
            <==> exists a :: RaceOnByte(n, unpersisted, log, persisted, a, key, lt)
  {
    if HistoryRace(n, unpersisted, log, persisted, key, lt) {
      var a := ReportHasRace(n, unpersisted, log, persisted, key, lt);
    }
    if a :| RaceOnByte(n, unpersisted, log, persisted, a, key, lt) {
      RaceIsReported(n, unpersisted, log, persisted, a, key, lt);
    }
  }

  /** Every window from a store of `a` to its end, and every load of `a`, is inside `m`. */
  ghost predicate GuardedBy(unpersisted: bool, log: Log, a: Addr, m: Mutex) {
    && (forall t: Tid, en: Entry | en.addr == a && en.stored < en.at < |log| && Ended(unpersisted, log, t, en) ::
          HeldThroughout(log, en.stored, en.at, t, m))
    && (forall u: Tid, l: nat | IsLoad(log, l, u, a) :: HeldAt(log, l, u, m))
  }

  ghost predicate Guarded(unpersisted: bool, log: Log, a: Addr) {
    exists m :: GuardedBy(unpersisted, log, a, m)
  }

  /** A byte with a common lock has no race, as races are defined here. */
  lemma GuardedBytesDoNotRace(n: nat, unpersisted: bool, log: Log, persisted: bool, a: Addr, key: ReportKey, lt: Trace)
    requires Guarded(unpersisted, log, a)
    ensures !RaceOnByte(n, unpersisted, log, persisted, a, key, lt)
  {
    var m :| GuardedBy(unpersisted, log, a, m);
    forall t: Tid, en: Entry, u: Tid, l: nat | en.addr == a
      ensures !RaceSeen(n, unpersisted, log, t, en, u, l, key, lt)
    {
      assert !RaceAt(n, unpersisted, log, t, en, u, l);
    }
  }

  /** A lock held throughout stays in the recorded set even when timestamps wrap. */
  lemma GuardedEntryDoesNotRace(n: nat, unpersisted: bool, log: Log, t: Tid, en: Entry, u: Tid, l: nat,
                                persisted: bool, key: ReportKey, lt: Trace)
    requires Guarded(unpersisted, log, en.addr)
    requires en in LedgerAt(n, unpersisted, log, |log|, t) && l in LoadsAt(n, unpersisted, log, |log|, u)
    ensures !EntryRaces(log, t, en, u, l, persisted, key, lt)
  {
    EntriesAreEnded(n, unpersisted, log, t, en);
    LedgerStoredBefore(n, unpersisted, log, |log|, t);
    var m :| GuardedBy(unpersisted, log, en.addr, m);
    CommonIsThroughoutOrWrapped(log, en.stored, en.at, t, m);
    LocksAreHistory(log, l, u, m);
    assert m in LocksOf(log, t, en);
    assert IsLoad(log, l, u, en.addr) ==> m in HeldSet(log, l, u);
  }

  ghost predicate UnguardedRace(n: nat, unpersisted: bool, log: Log, persisted: bool, key: ReportKey, lt: Trace) {
    exists t: Tid, en: Entry, u: Tid, l: nat ::
      && en in LedgerAt(n, unpersisted, log, |log|, t) && l in LoadsAt(n, unpersisted, log, |log|, u)
      && EntryRaces(log, t, en, u, l, persisted, key, lt) && !Guarded(unpersisted, log, en.addr)
  }

  /** Consistent locking is never reported, for every run: each report comes from a byte without a common lock. */
  lemma ReportsAreUnguarded(n: nat, unpersisted: bool, log: Log, persisted: bool, key: ReportKey, lt: Trace)
    ensures HistoryRace(n, unpersisted, log, persisted, key, lt) ==>
          UnguardedRace(n, unpersisted, log, persisted, key, lt)
  {
    if HistoryRace(n, unpersisted, log, persisted, key, lt) {
      var t: Tid, en: Entry, u: Tid, l: nat :|
        && en in LedgerAt(n, unpersisted, log, |log|, t) && l in LoadsAt(n, unpersisted, log, |log|, u)
        && EntryRaces(log, t, en, u, l, persisted, key, lt);
      if Guarded(unpersisted, log, en.addr) {
        GuardedEntryDoesNotRace(n, unpersisted, log, t, en, u, l, persisted, key, lt);
      }
    }
  }

  /** With the option off nothing is reported as unpersisted. */
  lemma NothingUnpersisted(n: nat, log: Log, key: ReportKey, lt: Trace)
    ensures !HistoryRace(n, false, log, false, key, lt)
  {
    forall t: Tid, en: Entry, u: Tid, l: nat | en in LedgerAt(n, false, log, |log|, t)
      ensures !EntryRaces(log, t, en, u, l, false, key, lt)
    {
      EntriesAreEnded(n, false, log, t, en);
    }
  }

  /** The heuristic only filters: on the same run a higher threshold never reports more, and 0 reports most. */
  lemma ReportsAreAntitone(m: nat, n: nat, unpersisted: bool, log: Log, persisted: bool, key: ReportKey, lt: Trace)
    requires n <= m
    ensures HistoryRace(m, unpersisted, log, persisted, key, lt) ==>
          HistoryRace(n, unpersisted, log, persisted, key, lt)
  {
    if HistoryRace(m, unpersisted, log, persisted, key, lt) {
      var t: Tid, en: Entry, u: Tid, l: nat :|
        && en in LedgerAt(m, unpersisted, log, |log|, t) && l in LoadsAt(m, unpersisted, log, |log|, u)
        && EntryRaces(log, t, en, u, l, persisted, key, lt);
      LedgerIsAntitone(m, n, unpersisted, log, |log|, t);
      LedgerIsAntitone(m, n, unpersisted, log, |log|, u);
    }
  }
}
