/** What the final analysis reports, said of the history alone. */
module DetectorReports {
  import opened DetectorState
  import opened DetectorSteps
  import opened Events
  import opened HappensBefore
  import opened Ledger
  import opened LockHistory
  import opened Locksets
  import opened RaceAnalysis
  import opened Records
  import opened Registry
  import opened VectorClocks

  /** Only started threads act. */
  ghost predicate AllStarted(log: Log) {
    forall k: nat | k < |log| && !log[k].Init? :: Started(log, k, log[k].tid)
  }

  /** The clock that a stored 16-bit epoch number names at the end of the run. */
  ghost function EpochClock(log: Log, k: nat, t: Tid): Clock
    requires k <= |log|
  {
    var clocks, i := ClocksAt(log, |log|, t), EpochAt(log, k, t) % EPOCHS;
    if i < |clocks| then clocks[i] else map[]
  }

  /** The load at `l` of thread `u` races with an access of byte `a` under `locks` at `clock`. */
  ghost predicate LoadRaces(log: Log, u: Tid, l: nat, a: Addr, locks: set<Mutex>, clock: Clock, lt: Trace)
    requires l < |log|
  {
    && Covers(log[l], a) && TraceOf(log[l]) == lt
    && Concurrent(EpochClock(log, l, u), clock)
    && HeldSet(log, l, u) !! locks
  }

  /** The locks a store record carries: those of the store and of the event that recorded it. */
  ghost function LocksOf(log: Log, t: Tid, en: Entry): set<Mutex>
    requires en.stored <= |log| && en.at <= |log|
  {
    Common(LocksAt(log, en.stored, t).held, LocksAt(log, en.at, t).held)
  }

  ghost function SitesOf(log: Log, en: Entry): ReportKey
    requires en.stored < |log| && en.at < |log|
  {
    (TraceOf(log[en.stored]), TraceOf(log[en.at]), en.wasFlushed)
  }

  ghost predicate EntryRaces(log: Log, t: Tid, en: Entry, u: Tid, l: nat, persisted: bool, key: ReportKey, lt: Trace) {
    && en.stored < |log| && en.at < |log| && l < |log| && t != u
    && en.persisted == persisted && SitesOf(log, en) == key
    && LoadRaces(log, u, l, en.addr, LocksOf(log, t, en), EpochClock(log, en.at, t), lt)
  }

  /** Some recorded store and some recorded load of another thread race. */
  ghost predicate HistoryRace(n: nat, unpersisted: bool, log: Log, persisted: bool, key: ReportKey, lt: Trace) {
    exists t: Tid, en: Entry, u: Tid, l: nat ::
      && en in LedgerAt(n, unpersisted, log, |log|, t) && l in LoadsAt(n, unpersisted, log, |log|, u)
      && EntryRaces(log, t, en, u, l, persisted, key, lt)
  }

  // ------------------------------------------------------------- one thread's view

  function ViewOf(s: Snapshot): View {
    View(s.used, s.clocks, s.stores, s.loads)
  }

  lemma EpochIsStored(log: Log, k: nat)
    requires AllStarted(log) && k < |log| && !log[k].Init?
    ensures EpochAt(log, k, log[k].tid) % EPOCHS < |ClocksAt(log, |log|, log[k].tid)|
    ensures Started(log, |log|, log[k].tid)
  {
    EpochNamesClock(log, k);
  }

  /** A record's entry: its event is the thread's own, and no start. */
  lemma EntryIsOwn(n: nat, unpersisted: bool, log: Log, t: Tid, en: Entry)
    requires AllStarted(log) && en in LedgerAt(n, unpersisted, log, |log|, t)
    ensures en.stored < en.at < |log| && log[en.at].tid == t
    ensures EpochAt(log, en.at, t) % EPOCHS < |ClocksAt(log, |log|, t)|
    ensures Started(log, |log|, t)
  {
    LedgerIsEmitted(n, unpersisted, log, |log|, t, en);
    LedgerStoredBefore(n, unpersisted, log, |log|, t);
    EpochIsStored(log, en.at);
  }

  lemma ViewIsValid(names: map<Mutex, nat>, log: Log, n: nat, unpersisted: bool, t: Tid, s: Snapshot)
    requires AllStarted(log) && ThreadRep(names, log, n, unpersisted, t, s)
    ensures ViewOf(s).Valid()
  {
    forall j | 0 <= j < |s.stores|
      ensures s.stores[j].clockI < |s.clocks|
    {
      EntryIsOwn(n, unpersisted, log, t, s.entries[j]);
    }
    forall key | key in s.loads
      ensures key.clockI < |s.clocks|
    {
      KeyIsStored(names, log, t, s.loads, s.ptrs, key);
    }
  }

  lemma KeyIsStored(names: map<Mutex, nat>, log: Log, t: Tid, loads: map<AccessKey, set<PLockset>>,
                    ptrs: map<nat, PLockset>, key: AccessKey)
    requires AllStarted(log) && LoadsRep(names, log, t, loads, ptrs) && key in loads
    ensures key.clockI < |ClocksAt(log, |log|, t)|
  {
    var p :| p in loads[key];
    assert Filed(log, ptrs, key, p);
    var l :| l in ptrs && FiledFor(log, ptrs, key, p, l);
    assert LoadOk(names, log, t, loads, l, ptrs[l]);
    EpochIsStored(log, l);
  }

  /** A key covers exactly the bytes of its load. */
  lemma KeyCoversLoad(log: Log, l: nat, a: Addr)
    requires l < |log| && log[l].Load? && log[l].size <= 64
    ensures KeyCovers(KeyOf(log, l), a) <==> Covers(log[l], a)
    ensures KeyCovers(KeyOf(log, l), a) <==> log[l].addr <= a < log[l].addr + log[l].size
  {
  }

  /** A filed key and pointer race exactly when the load they were filed for does. */
  lemma FiledRaces(names: map<Mutex, nat>, log: Log, u: Tid, s: Snapshot, l: nat, a: Addr, locks: set<Mutex>,
                   clock: Clock, lt: Trace)
    requires AllStarted(log) && Injective(names) && locks <= names.Keys && s.clocks == ClocksAt(log, |log|, u)
    requires l in s.ptrs && LoadOk(names, log, u, s.loads, l, s.ptrs[l]) && KeyOf(log, l).clockI < |s.clocks|
    ensures RacesWith(ViewOf(s), KeyOf(log, l), s.ptrs[l], a, Image(names, locks), clock, lt)
          <==> LoadRaces(log, u, l, a, locks, clock, lt)
  {
    KeyCoversLoad(log, l, a);
    ImageDisjoint(names, HeldSet(log, l, u), locks);
  }

  lemma LoadIsSeen(names: map<Mutex, nat>, log: Log, n: nat, unpersisted: bool, u: Tid, s: Snapshot, l: nat,
                   a: Addr, locks: set<Mutex>, clock: Clock, lt: Trace)
    requires AllStarted(log) && Injective(names) && locks <= names.Keys
    requires ThreadRep(names, log, n, unpersisted, u, s) && ViewOf(s).Valid()
    requires l in LoadsAt(n, unpersisted, log, |log|, u) && LoadRaces(log, u, l, a, locks, clock, lt)
    ensures s.used && RacyLoadOf(ViewOf(s), a, Image(names, locks), clock, lt)
  {
    EpochIsStored(log, l);
    assert LoadOk(names, log, u, s.loads, l, s.ptrs[l]);
    FiledRaces(names, log, u, s, l, a, locks, clock, lt);
  }

  lemma SeenIsLoad(names: map<Mutex, nat>, log: Log, n: nat, unpersisted: bool, u: Tid, s: Snapshot,
                   a: Addr, locks: set<Mutex>, clock: Clock, lt: Trace) returns (l: nat)
    requires AllStarted(log) && Injective(names) && locks <= names.Keys
    requires ThreadRep(names, log, n, unpersisted, u, s) && ViewOf(s).Valid()
    requires RacyLoadOf(ViewOf(s), a, Image(names, locks), clock, lt)
    ensures l in LoadsAt(n, unpersisted, log, |log|, u) && LoadRaces(log, u, l, a, locks, clock, lt)
  {
    var key, p :| key in s.loads && p in s.loads[key] &&
          RacesWith(ViewOf(s), key, p, a, Image(names, locks), clock, lt);
    assert Filed(log, s.ptrs, key, p);
    l :| l in s.ptrs && FiledFor(log, s.ptrs, key, p, l);
    assert LoadOk(names, log, u, s.loads, l, s.ptrs[l]);
    FiledRaces(names, log, u, s, l, a, locks, clock, lt);
  }

  /** What a record says of its entry. */
  ghost predicate RecordSays(names: map<Mutex, nat>, log: Log, t: Tid, r: StoreFenceData, en: Entry) {
    && en.stored < en.at < |log|
    && r.address == en.addr && r.persisted == en.persisted && KeyOfRecord(r) == SitesOf(log, en)
    && LocksOf(log, t, en) <= names.Keys && r.commonSet.Content() == Image(names, LocksOf(log, t, en))
    && r.clockI < |ClocksAt(log, |log|, t)| && ClocksAt(log, |log|, t)[r.clockI] == EpochClock(log, en.at, t)
  }

  lemma RecordIsRead(names: map<Mutex, nat>, log: Log, t: Tid, r: StoreFenceData, en: Entry)
    requires RecordOk(names, log, t, r, en) && EpochAt(log, en.at, t) % EPOCHS < |ClocksAt(log, |log|, t)|
    ensures RecordSays(names, log, t, r, en)
  {
    CommonIsContained(LocksAt(log, en.stored, t).held, LocksAt(log, en.at, t).held);
  }

  lemma RecordReads(names: map<Mutex, nat>, log: Log, n: nat, unpersisted: bool, t: Tid, s: Snapshot, j: nat)
    requires AllStarted(log) && ThreadRep(names, log, n, unpersisted, t, s) && j < |s.stores|
    ensures s.used && s.clocks == ClocksAt(log, |log|, t)
    ensures s.entries[j] in LedgerAt(n, unpersisted, log, |log|, t)
    ensures RecordSays(names, log, t, s.stores[j], s.entries[j])
  {
    EntryIsOwn(n, unpersisted, log, t, s.entries[j]);
    RecordIsRead(names, log, t, s.stores[j], s.entries[j]);
  }

  // ------------------------------------------------------------------- all threads

  ghost predicate AreViews(views: seq<View>, snaps: seq<Snapshot>) {
    |views| == |snaps| && forall i | 0 <= i < |views| :: views[i] == ViewOf(snaps[i])
  }

  lemma ViewsAreValid(names: map<Mutex, nat>, log: Log, n: nat, unpersisted: bool, snaps: seq<Snapshot>,
                      views: seq<View>)
    requires AllStarted(log) && AllRep(names, log, n, unpersisted, snaps) && AreViews(views, snaps)
    ensures AllValid(views)
  {
    forall t: nat | t < |views|
      ensures views[t].Valid()
    {
      assert ThreadRep(names, log, n, unpersisted, t, snaps[t]);
      ViewIsValid(names, log, n, unpersisted, t, snaps[t]);
    }
  }

  /** Comparing all stored data finds exactly the races of the history. */
  lemma ReportsAreHistory(names: map<Mutex, nat>, log: Log, n: nat, unpersisted: bool, snaps: seq<Snapshot>,
                          views: seq<View>,
                          persisted: bool, key: ReportKey, lt: Trace)
    requires AllStarted(log) && TidsFit(log, |snaps|) && Injective(names)
    requires AllRep(names, log, n, unpersisted, snaps) && AreViews(views, snaps) && AllValid(views)
    ensures NaiveReport(views, persisted, key, lt) <==> HistoryRace(n, unpersisted, log, persisted, key, lt)
  {
    if NaiveReport(views, persisted, key, lt) {
      ReportIsHistory(names, log, n, unpersisted, snaps, views, persisted, key, lt);
    }
    if HistoryRace(n, unpersisted, log, persisted, key, lt) {
      HistoryIsReported(names, log, n, unpersisted, snaps, views, persisted, key, lt);
    }
  }

  lemma AllReportsAreHistory(names: map<Mutex, nat>, log: Log, n: nat, unpersisted: bool, snaps: seq<Snapshot>,
                             views: seq<View>)
    requires AllStarted(log) && TidsFit(log, |snaps|) && Injective(names)
    requires AllRep(names, log, n, unpersisted, snaps) && AreViews(views, snaps) && AllValid(views)
    ensures forall persisted, key, lt ::
              NaiveReport(views, persisted, key, lt) <==> HistoryRace(n, unpersisted, log, persisted, key, lt)
  {
    forall persisted, key, lt
      ensures NaiveReport(views, persisted, key, lt) <==> HistoryRace(n, unpersisted, log, persisted, key, lt)
    {
      ReportsAreHistory(names, log, n, unpersisted, snaps, views, persisted, key, lt);
    }
  }

  lemma ReportIsHistory(names: map<Mutex, nat>, log: Log, n: nat, unpersisted: bool, snaps: seq<Snapshot>,
                        views: seq<View>,
                        persisted: bool, key: ReportKey, lt: Trace)
    requires AllStarted(log) && Injective(names)
    requires AllRep(names, log, n, unpersisted, snaps) && AreViews(views, snaps) && AllValid(views)
    requires NaiveReport(views, persisted, key, lt)
    ensures HistoryRace(n, unpersisted, log, persisted, key, lt)
  {
    var t: nat, r :| t < |views| && views[t].used && r in views[t].stores
                     && r.persisted == persisted && KeyOfRecord(r) == key && RecordRaces(views, t, r, lt);
    var j :| 0 <= j < |snaps[t].stores| && snaps[t].stores[j] == r;
    RecordIsHistory(names, log, n, unpersisted, snaps, views, t, j, lt);
  }

  lemma RecordIsHistory(names: map<Mutex, nat>, log: Log, n: nat, unpersisted: bool, snaps: seq<Snapshot>,
                        views: seq<View>,
                        t: nat, j: nat, lt: Trace)
    requires AllStarted(log) && Injective(names)
    requires AllRep(names, log, n, unpersisted, snaps) && AreViews(views, snaps) && AllValid(views)
    requires t < |views| && j < |snaps[t].stores| && snaps[t].stores[j].clockI < |views[t].clocks|
    requires RecordRaces(views, t, snaps[t].stores[j], lt)
    ensures var r := snaps[t].stores[j]; HistoryRace(n, unpersisted, log, r.persisted, KeyOfRecord(r), lt)
  {
    assert ThreadRep(names, log, n, unpersisted, t, snaps[t]);
    RecordReads(names, log, n, unpersisted, t, snaps[t], j);
    var r, en := snaps[t].stores[j], snaps[t].entries[j];
    var l, u := RacyIsHistory(names, log, n, unpersisted, snaps, views, t, en.addr, LocksOf(log, t, en),
                              EpochClock(log, en.at, t), lt);
    assert EntryRaces(log, t, en, u, l, r.persisted, KeyOfRecord(r), lt);
  }

  lemma RacyIsHistory(names: map<Mutex, nat>, log: Log, n: nat, unpersisted: bool, snaps: seq<Snapshot>,
                      views: seq<View>,
                      t: nat, a: Addr, locks: set<Mutex>, clock: Clock, lt: Trace) returns (l: nat, u: Tid)
    requires AllStarted(log) && Injective(names) && locks <= names.Keys
    requires AllRep(names, log, n, unpersisted, snaps) && AreViews(views, snaps) && AllValid(views)
    requires RacyLoad(views, t, a, Image(names, locks), clock, lt)
    ensures u != t && l in LoadsAt(n, unpersisted, log, |log|, u) && LoadRaces(log, u, l, a, locks, clock, lt)
  {
    u :| u < |views| && u != t && views[u].used && RacyLoadOf(views[u], a, Image(names, locks), clock, lt);
    assert ThreadRep(names, log, n, unpersisted, u, snaps[u]);
    l := SeenIsLoad(names, log, n, unpersisted, u, snaps[u], a, locks, clock, lt);
  }

  lemma HistoryIsReported(names: map<Mutex, nat>, log: Log, n: nat, unpersisted: bool, snaps: seq<Snapshot>,
                          views: seq<View>,
                          persisted: bool, key: ReportKey, lt: Trace)
    requires AllStarted(log) && TidsFit(log, |snaps|) && Injective(names)
    requires AllRep(names, log, n, unpersisted, snaps) && AreViews(views, snaps) && AllValid(views)
    requires HistoryRace(n, unpersisted, log, persisted, key, lt)
    ensures NaiveReport(views, persisted, key, lt)
  {
    var t: Tid, en: Entry, u: Tid, l: nat :|
      && en in LedgerAt(n, unpersisted, log, |log|, t) && l in LoadsAt(n, unpersisted, log, |log|, u)
      && EntryRaces(log, t, en, u, l, persisted, key, lt);
    LedgerIsEmitted(n, unpersisted, log, |log|, t, en);
    PairIsReported(names, log, n, unpersisted, snaps, views, t, en, u, l, key, lt);
  }

  lemma PairIsReported(names: map<Mutex, nat>, log: Log, n: nat, unpersisted: bool, snaps: seq<Snapshot>,
                       views: seq<View>,
                       t: Tid, en: Entry, u: Tid, l: nat, key: ReportKey, lt: Trace)
    requires AllStarted(log) && Injective(names) && t < |snaps| && u < |snaps|
    requires AllRep(names, log, n, unpersisted, snaps) && AreViews(views, snaps) && AllValid(views)
    requires en in LedgerAt(n, unpersisted, log, |log|, t) && l in LoadsAt(n, unpersisted, log, |log|, u)
    requires EntryRaces(log, t, en, u, l, en.persisted, key, lt)
    ensures NaiveReport(views, en.persisted, key, lt)
  {
    assert ThreadRep(names, log, n, unpersisted, t, snaps[t]);
    var j := EntryHasRecord(names, log, n, unpersisted, t, snaps[t], en);
    RecordReads(names, log, n, unpersisted, t, snaps[t], j);
    assert ThreadRep(names, log, n, unpersisted, u, snaps[u]);
    LoadIsSeen(names, log, n, unpersisted, u, snaps[u], l, en.addr, LocksOf(log, t, en), EpochClock(log, en.at, t), lt);
    assert RecordRaces(views, t, snaps[t].stores[j], lt);
  }

  lemma EntryHasRecord(names: map<Mutex, nat>, log: Log, n: nat, unpersisted: bool, t: Tid, s: Snapshot,
                       en: Entry) returns (j: nat)
    requires ThreadRep(names, log, n, unpersisted, t, s) && en in LedgerAt(n, unpersisted, log, |log|, t)
    ensures j < |s.entries| && j < |s.stores| && s.entries[j] == en
  {
    j :| j < |s.entries| && s.entries[j] == en;
  }
}
