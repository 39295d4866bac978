/** Whole runs: feeding a detector event by event, and what it reports at the end. */
module Runs {
  import opened Detector
  import opened DetectorReports
  import opened DetectorState
  import opened DetectorSteps
  import opened EndToEnd
  import opened Events
  import opened FirstTouchFilters
  import opened HappensBefore
  import opened Ledger
  import opened Persistence
  import opened RaceAnalysis
  import opened Registry

  /** A call of the instrumentation into the detector; a read-modify-write is one call and two events. */
  datatype Callback = Single(event: Event) | Rmw(tid: Tid, address: Addr, size: nat, trace: Trace)

  function EventsOf(call: Callback): Log {
    match call
    case Single(e) => [e]
    case Rmw(tid, address, size, trace) =>
      if size != 0 then [Store(tid, address, size, trace), Fence(tid, trace)] else [Fence(tid, trace)]
  }

  /** The run that a sequence of calls amounts to. */
  function RunOf(calls: seq<Callback>): Log {
    if calls == [] then [] else RunOf(calls[..|calls| - 1]) + EventsOf(Last(calls))
  }

  /** The acquire/release scopes the run enters were numbered when the program was loaded. */
  ghost predicate ScopesKnown(log: Log, names: map<Mutex, nat>) {
    forall k | 0 <= k < |log| && (log[k].Lock? || log[k].Unlock?) && log[k].mutex.Special? :: log[k].mutex in names
  }

  /** The heuristic, when on, has a bit for every thread that comes to it. */
  ghost predicate HeuristicFits(log: Log, n: nat, unpersisted: bool) {
    n >= 1 ==> |Comers(TouchedAt(unpersisted, log, |log|))| <= 64
  }

  /** Runs the detector takes: threads live once, within its tables, accesses of at most 64 bytes. */
  ghost predicate Runnable(run: Log, n: nat, unpersisted: bool) {
    && ThreadsLive(run) && TidsFit(run, 1000) && HeuristicFits(run, n, unpersisted)
    && forall k | 0 <= k < |run| && (run[k].Store? || run[k].Load?) :: run[k].size <= 64
  }

  lemma {:induction false} PrefixCache(unpersisted: bool, run: Log, j: nat, k: nat, t: Tid)
    requires j <= k <= |run|
    ensures CacheAt(unpersisted, run[..k], j, t) == CacheAt(unpersisted, run, j, t)
    decreases j
  {
    if j > 0 {
      PrefixCache(unpersisted, run, j - 1, k, t);
    }
  }

  lemma {:induction false} PrefixTouched(unpersisted: bool, run: Log, j: nat, k: nat)
    requires j <= k <= |run|
    ensures TouchedAt(unpersisted, run[..k], j) == TouchedAt(unpersisted, run, j)
    decreases j
  {
    if j > 0 {
      PrefixTouched(unpersisted, run, j - 1, k);
      PrefixCache(unpersisted, run, j - 1, k, run[j - 1].tid);
    }
  }

  /** What fits in the end fits all along. */
  lemma PrefixFits(run: Log, k: nat, n: nat, unpersisted: bool)
    requires k <= |run| && HeuristicFits(run, n, unpersisted)
    ensures HeuristicFits(run[..k], n, unpersisted)
  {
    PrefixTouched(unpersisted, run, k, k);
    StaysPublished(n, unpersisted, run, k, |run|, 0);
    var before, after := TouchedAt(unpersisted, run, k), TouchedAt(unpersisted, run, |run|);
    forall p | p in before
      ensures p.0 in Comers(after)
    {
      assert p in after;
    }
    SubsetIsSmaller(Comers(before), Comers(after));
  }

  /** The next event of a runnable run meets what its callback asks for. */
  ghost predicate Acceptable(log: Log, e: Event, n: nat, unpersisted: bool, names: map<Mutex, nat>) {
    && e.tid < 1000
    && ((e.Store? || e.Load?) ==> e.size <= 64)
    && (PushesClock(e) && !e.Init? ==> Started(log, |log|, e.tid))
    && ((e.Lock? || e.Unlock?) && e.mutex.Special? ==> e.mutex in names)
    && HeuristicFits(log + [e], n, unpersisted)
  }

  ghost predicate CallAcceptable(log: Log, call: Callback, n: nat, unpersisted: bool, names: map<Mutex, nat>) {
    match call
    case Single(e) => Acceptable(log, e, n, unpersisted, names)
    case Rmw(tid, _, size, _) => tid < 1000 && size <= 64 && HeuristicFits(log + EventsOf(call), n, unpersisted)
  }

  lemma NextIsAcceptable(run: Log, k: nat, n: nat, unpersisted: bool, names: map<Mutex, nat>)
    requires Runnable(run, n, unpersisted) && ScopesKnown(run, names) && k < |run|
    ensures Acceptable(run[..k], run[k], n, unpersisted, names)
  {
    if !run[k].Init? {
      ActsStarted(run, k);
      var x: nat :| x < k && run[x] == Init(run[k].tid);
      assert run[..k][x] == Init(run[k].tid);
    }
    PrefixFits(run, k + 1, n, unpersisted);
    assert run[..k + 1] == run[..k] + [run[k]];
  }

  lemma {:induction false} RunPrefix(calls: seq<Callback>, k: nat)
    requires k <= |calls|
    ensures RunOf(calls[..k]) <= RunOf(calls)
    decreases |calls|
  {
    if k == |calls| {
      assert calls[..k] == calls;
    } else {
      var fewer := calls[..|calls| - 1];
      assert fewer[..k] == calls[..k];
      RunPrefix(fewer, k);
    }
  }

  lemma RunGrows(calls: seq<Callback>, k: nat)
    requires k < |calls|
    ensures RunOf(calls[..k + 1]) == RunOf(calls[..k]) + EventsOf(calls[k])
    ensures RunOf(calls[..k]) + EventsOf(calls[k]) <= RunOf(calls)
  {
    assert calls[..k + 1][..k] == calls[..k];
    RunPrefix(calls, k + 1);
  }

  lemma CallIsAcceptable(run: Log, log: Log, call: Callback, n: nat, unpersisted: bool, names: map<Mutex, nat>)
    requires Runnable(run, n, unpersisted) && ScopesKnown(run, names) && log + EventsOf(call) <= run
    ensures CallAcceptable(log, call, n, unpersisted, names)
  {
    var events := EventsOf(call);
    assert run[..|log|] == log && run[|log|] == events[0];
    if call.Single? {
      NextIsAcceptable(run, |log|, n, unpersisted, names);
    } else {
      PrefixFits(run, |log + events|, n, unpersisted);
      assert run[..|log + events|] == log + events;
      RmwIsBounded(run, |log|, call);
    }
  }

  lemma RmwIsBounded(run: Log, k: nat, call: Callback)
    requires TidsFit(run, 1000) && call.Rmw? && k < |run| && run[k] == EventsOf(call)[0]
    requires forall k | 0 <= k < |run| && (run[k].Store? || run[k].Load?) :: run[k].size <= 64
    ensures call.tid < 1000 && call.size <= 64
  {
  }

  lemma NextCallIsAcceptable(calls: seq<Callback>, k: nat, n: nat, unpersisted: bool, names: map<Mutex, nat>)
    requires Runnable(RunOf(calls), n, unpersisted) && ScopesKnown(RunOf(calls), names) && k < |calls|
    ensures CallAcceptable(RunOf(calls[..k]), calls[k], n, unpersisted, names)
  {
    RunGrows(calls, k);
    CallIsAcceptable(RunOf(calls), RunOf(calls[..k]), calls[k], n, unpersisted, names);
  }

  ghost function Parts(d: HawkSet): set<object> {
    {d, d.filter, d.registry, d.locksetCache, d.timedCache}
    + (set td: ThreadData | td in d.tls) + (set td: ThreadData | td in d.tls :: td.current)
  }

  lemma StartedThreadsHaveClocks(d: HawkSet, tid: Tid)
    requires d.Valid() && tid < |d.tls| && Started(d.log, |d.log|, tid)
    ensures d.tls[tid].vectorClocks != []
  {
    StartedHasClocks(d.log, |d.log|, tid);
    assert d.tls[tid].Snap() == d.snaps[tid];
    ReadClock(d.registry.names, d.log, d.n, d.unpersisted, d.snaps, tid);
  }

  /** One event of the program, delivered to its callback. */
  method Process(d: HawkSet, e: Event)
    requires d.Valid() && Acceptable(d.log, e, d.n, d.unpersisted, d.registry.names)
    modifies Parts(d)
    ensures d.Valid() && d.log == old(d.log) + [e] && Extends(d.registry.names, old(d.registry.names))
  {
    if PushesClock(e) {
      ProcessThread(d, e);
    } else if e.Lock? || e.Unlock? {
      ProcessMutex(d, e.tid, if e.Lock? then Acquire else Release, e.mutex);
    } else {
      ProcessMemory(d, e);
    }
  }

  method ProcessMemory(d: HawkSet, e: Event)
    requires e.Store? || e.Flush? || e.Fence? || e.Load?
    requires d.Valid() && Acceptable(d.log, e, d.n, d.unpersisted, d.registry.names)
    modifies Parts(d)
    ensures d.Valid() && d.log == old(d.log) + [e] && d.registry.names == old(d.registry.names)
  {
    match e
    case Store(tid, addr, size, trace) => d.ProcessStore(tid, addr, size, trace);
    case Flush(tid, addr) => d.ProcessFlush(tid, addr);
    case Fence(tid, trace) => d.ProcessFence(tid, false, 0, 0, trace);
    case Load(tid, addr, size, trace) => d.ProcessRead(tid, addr, size, trace);
  }

  method ProcessMutex(d: HawkSet, tid: Tid, op: LockOp, mutex: Mutex)
    requires d.Valid() && tid < |d.tls| && (mutex.Special? ==> mutex in d.registry.names)
    modifies Parts(d)
    ensures d.Valid() && Extends(d.registry.names, old(d.registry.names))
    ensures d.log == old(d.log) + [if op.Acquire? then Lock(tid, mutex) else Unlock(tid, mutex)]
  {
    match mutex
    case Ordinary(addr) => d.ProcessLock(tid, op, addr, false);
    case Special(id) => d.ProcessLock(tid, op, id, true);
  }

  method ProcessThread(d: HawkSet, e: Event)
    requires PushesClock(e) && d.Valid() && Acceptable(d.log, e, d.n, d.unpersisted, d.registry.names)
    modifies Parts(d)
    ensures d.Valid() && d.log == old(d.log) + [e] && d.registry.names == old(d.registry.names)
  {
    if !e.Init? {
      StartedThreadsHaveClocks(d, e.tid);
    }
    match e
    case Create(tid, child) => d.ProcessThreadCreate(tid, child);
    case Init(tid) => d.ProcessThreadInit(tid);
    case Join(tid, other) => d.ProcessThreadJoin(tid, other);
    case Exit(tid) => d.ProcessThreadExit(tid);
  }

  /** One call, delivered; a read-modify-write goes to the fence callback. */
  method Deliver(d: HawkSet, call: Callback)
    requires d.Valid() && CallAcceptable(d.log, call, d.n, d.unpersisted, d.registry.names)
    modifies Parts(d)
    ensures d.Valid() && d.log == old(d.log) + EventsOf(call) && Extends(d.registry.names, old(d.registry.names))
    ensures call.Single? ==> d.log == old(d.log) + [call.event]
    ensures call.Rmw? && call.size != 0 ==>
              d.log == old(d.log) + [Store(call.tid, call.address, call.size, call.trace), Fence(call.tid, call.trace)]
    ensures call.Rmw? && call.size == 0 ==> d.log == old(d.log) + [Fence(call.tid, call.trace)]
  {
    match call
    case Single(e) => Process(d, e);
    case Rmw(tid, address, size, trace) => d.ProcessFence(tid, true, address, size, trace);
  }

  /** The detector has taken the first `k` calls. */
  ghost predicate Fed(d: HawkSet, calls: seq<Callback>, k: nat)
    reads Parts(d)
  {
    k <= |calls| && d.Valid() && d.log == RunOf(calls[..k]) && ScopesKnown(RunOf(calls), d.registry.names)
  }

  lemma ScopesStayKnown(run: Log, names: map<Mutex, nat>, more: map<Mutex, nat>)
    requires ScopesKnown(run, names) && Extends(more, names)
    ensures ScopesKnown(run, more)
  {
  }

  method FeedNext(d: HawkSet, calls: seq<Callback>, k: nat)
    requires Runnable(RunOf(calls), d.n, d.unpersisted) && k < |calls| && Fed(d, calls, k)
    modifies Parts(d)
    ensures Fed(d, calls, k + 1)
  {
    ghost var names := d.registry.names;
    NextCallIsAcceptable(calls, k, d.n, d.unpersisted, names);
    RunGrows(calls, k);
    Deliver(d, calls[k]);
    ScopesStayKnown(RunOf(calls), names, d.registry.names);
  }

  /** Every runnable run can be fed to the detector, call by call. */
  method Feed(d: HawkSet, calls: seq<Callback>)
    requires Runnable(RunOf(calls), d.n, d.unpersisted) && Fed(d, calls, 0)
    modifies Parts(d)
    ensures d.Valid() && d.log == RunOf(calls)
  {
    for k := 0 to |calls|
      invariant Fed(d, calls, k)
    {
      FeedNext(d, calls, k);
    }
    assert calls[..|calls|] == calls;
  }

  /** The run has a race on some byte, seen at these sites. */
  ghost predicate RunRaces(n: nat, unpersisted: bool, run: Log, persisted: bool, key: ReportKey, lt: Trace) {
    exists a :: RaceOnByte(n, unpersisted, run, persisted, a, key, lt)
  }

  lemma HistoryIsRun(n: nat, unpersisted: bool, run: Log)
    requires WellFormed(run) && InRange(run)
    ensures forall persisted, key, lt ::
              HistoryRace(n, unpersisted, run, persisted, key, lt) <==>
              RunRaces(n, unpersisted, run, persisted, key, lt)
  {
    forall persisted, key, lt
      ensures HistoryRace(n, unpersisted, run, persisted, key, lt)
            <==> RunRaces(n, unpersisted, run, persisted, key, lt)
    {
      ReportsAreRaces(n, unpersisted, run, persisted, key, lt);
    }
  }

  /**
   * What is reported for any runnable run are the races among its records, and they are
   * its races byte for byte when hand-offs are timely and no counter wraps.
   */
  method Check(d: HawkSet, calls: seq<Callback>) returns (races: Reports, unpersistedRaces: Reports)
    requires Runnable(RunOf(calls), d.n, d.unpersisted) && Fed(d, calls, 0)
    modifies Parts(d)
    ensures AreReports(races, d.n, d.unpersisted, RunOf(calls), true)
    ensures AreReports(unpersistedRaces, d.n, d.unpersisted, RunOf(calls), false)
    ensures HandOffsAreTimely(RunOf(calls)) && InRange(RunOf(calls)) ==>
              && AreRunRaces(races, d.n, d.unpersisted, RunOf(calls), true)
              && AreRunRaces(unpersistedRaces, d.n, d.unpersisted, RunOf(calls), false)
    ensures !d.unpersisted ==> unpersistedRaces == map[]
  {
    ghost var run := RunOf(calls);
    Feed(d, calls);
    LiveThreadsStart(run);
    races, unpersistedRaces := d.CheckPMRaces();
    if HandOffsAreTimely(run) && InRange(run) {
      HistoryIsRun(d.n, d.unpersisted, run);
    }
    NonEmptyIsReport(unpersistedRaces);
    if !d.unpersisted {
      forall key, lt
        ensures !Reported(unpersistedRaces, key, lt)
      {
        NothingUnpersisted(d.n, run, key, lt);
      }
    }
  }

  ghost predicate AreReports(reports: Reports, n: nat, unpersisted: bool, run: Log, persisted: bool) {
    forall key, lt :: Reported(reports, key, lt) <==> HistoryRace(n, unpersisted, run, persisted, key, lt)
  }

  ghost predicate AreRunRaces(reports: Reports, n: nat, unpersisted: bool, run: Log, persisted: bool) {
    forall key, lt :: Reported(reports, key, lt) <==> RunRaces(n, unpersisted, run, persisted, key, lt)
  }

  lemma NonEmptyIsReport(reports: Reports)
    requires {} !in reports.Values
    ensures reports == map[] || exists key, lt :: Reported(reports, key, lt)
  {
    if reports != map[] {
      var key :| key in reports;
      assert reports[key] in reports.Values && reports[key] != {};
      var lt :| lt in reports[key];
      assert Reported(reports, key, lt);
    }
  }
}
