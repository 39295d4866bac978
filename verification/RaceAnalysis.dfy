/**
 * The final analysis: regrouped loads, regrouped stores, early exits, against the
 * plain comparison of every store record with every load of every other thread.
 */
module RaceAnalysis {
  import opened Events
  import opened Locksets
  import opened Records
  import opened VectorClocks

  type ReportKey = (Trace, Trace, bool)
  type Reports = map<ReportKey, set<Trace>>

  // ------------------------------------------------------------ the naive comparison

  ghost predicate Concurrent(a: Clock, b: Clock) {
    !RankLeq(a, b) && !RankLeq(b, a)
  }

  /** A recorded load of byte `a`, from site `lt`, in an unordered epoch and under disjoint locks. */
  ghost predicate RacyLoadOf(v: View, a: Addr, locks: set<nat>, clock: Clock, lt: Trace)
    requires v.Valid()
  {
    exists key, p :: key in v.loads && p in v.loads[key] && RacesWith(v, key, p, a, locks, clock, lt)
  }

  ghost predicate RacesWith(v: View, key: AccessKey, p: PLockset, a: Addr, locks: set<nat>, clock: Clock, lt: Trace)
    requires key.clockI < |v.clocks|
  {
    && key.trace == lt && KeyCovers(key, a)
    && Concurrent(v.clocks[key.clockI], clock)
    && p.Content() !! locks
  }

  ghost predicate AllValid(threads: seq<View>) {
    forall u | 0 <= u < |threads| :: threads[u].Valid()
  }

  ghost predicate RacyLoad(threads: seq<View>, t: nat, a: Addr, locks: set<nat>, clock: Clock, lt: Trace)
    requires AllValid(threads)
  {
    exists u: nat :: u < |threads| && u != t && threads[u].used && RacyLoadOf(threads[u], a, locks, clock, lt)
  }

  /** Store record `r` of thread `t` races with a load from site `lt`. */
  ghost predicate RecordRaces(threads: seq<View>, t: nat, r: StoreFenceData, lt: Trace)
    requires AllValid(threads) && t < |threads| && r.clockI < |threads[t].clocks|
  {
    RacyLoad(threads, t, r.address, r.commonSet.Content(), threads[t].clocks[r.clockI], lt)
  }

  function KeyOfRecord(r: StoreFenceData): ReportKey {
    (r.writeTrace, r.fenceTrace, r.wasFlushed)
  }

  /** What the reports should hold: all pairs, compared one by one. */
  ghost predicate NaiveReport(threads: seq<View>, persisted: bool, key: ReportKey, lt: Trace)
    requires AllValid(threads)
  {
    exists t: nat, r :: t < |threads| && threads[t].used && r in threads[t].stores
                        && r.persisted == persisted && KeyOfRecord(r) == key && RecordRaces(threads, t, r, lt)
  }

  predicate Reported(reports: Reports, key: ReportKey, lt: Trace) {
    key in reports && lt in reports[key]
  }

  // ------------------------------------------------------------------ regrouped loads

  type LoadsOpt = map<Addr, map<(Trace, nat), set<PLockset>>>

  function OptSet(opt: LoadsOpt, a: Addr, at: (Trace, nat)): set<PLockset> {
    if a in opt && at in opt[a] then opt[a][at] else {}
  }

  predicate KeyIsFor(key: AccessKey, a: Addr, at: (Trace, nat)) {
    (key.trace, key.clockI) == at && KeyCovers(key, a)
  }

  /** The locksets of the loads of byte `a` from one site in one epoch, under the keys `done`. */
  ghost function LoadSet(v: View, done: set<AccessKey>, a: Addr, at: (Trace, nat)): set<PLockset> {
    set key, p | key in done && key in v.loads && p in v.loads[key] && KeyIsFor(key, a, at) :: p
  }

  ghost predicate Regrouped(v: View, opt: LoadsOpt) {
    forall a: Addr, at: (Trace, nat) :: OptSet(opt, a, at) == LoadSet(v, v.loads.Keys, a, at)
  }

  function InsertLoads(opt: LoadsOpt, a: Addr, at: (Trace, nat), ps: set<PLockset>): LoadsOpt {
    var entry := if a in opt then opt[a] else map[];
    var locksets := if at in entry then entry[at] else {};
    opt[a := entry[at := locksets + ps]]
  }

  /** The per-byte tables the analysis fills before it compares anything. */
  class Tables {
    const threads: seq<View>
    var loadsOpt: seq<LoadsOpt>

    ghost predicate Valid()
      reads this
    {
      && AllValid(threads) && |loadsOpt| == |threads|
      && forall u | 0 <= u < |threads| && threads[u].used :: Regrouped(threads[u], loadsOpt[u])
    }

    constructor (threads: seq<View>)
      requires AllValid(threads)
      ensures this.threads == threads && loadsOpt == seq(|threads|, _ => map[])
    {
      this.threads := threads;
      loadsOpt := seq(|threads|, _ => map[]);
    }

    method RegroupLoads()
      requires AllValid(threads) && loadsOpt == seq(|threads|, _ => map[])
      modifies this
      ensures Valid()
    {
      for u := 0 to |threads|
        invariant |loadsOpt| == |threads|
        invariant forall i | u <= i < |threads| :: loadsOpt[i] == map[]
        invariant forall i | 0 <= i < u && threads[i].used :: Regrouped(threads[i], loadsOpt[i])
      {
        if threads[u].used {
          var opt := RegroupThread(threads[u]);
          loadsOpt := loadsOpt[u := opt];
        }
      }
    }

    static method RegroupThread(v: View) returns (opt: LoadsOpt)
      ensures Regrouped(v, opt)
    {
      opt := map[];
      var todo := v.loads.Keys;
      while todo != {}
        invariant todo <= v.loads.Keys
        invariant forall a: Addr, at: (Trace, nat) :: OptSet(opt, a, at) == LoadSet(v, v.loads.Keys - todo, a, at)
        decreases |todo|
      {
        var key :| key in todo;
        ghost var done := v.loads.Keys - todo;
        opt := InsertKey(opt, key, v.loads[key]);
        todo := todo - {key};
        assert v.loads.Keys - todo == done + {key};
        OneMoreKey(v, done, key);
      }
    }

    static lemma OneMoreKey(v: View, done: set<AccessKey>, key: AccessKey)
      requires key in v.loads
      ensures forall a: Addr, at: (Trace, nat) :: LoadSet(v, done + {key}, a, at)
                == LoadSet(v, done, a, at) + if KeyIsFor(key, a, at) then v.loads[key] else {}
    {
    }

    static method InsertKey(before: LoadsOpt, key: AccessKey, ps: set<PLockset>) returns (opt: LoadsOpt)
      ensures forall a: Addr, at: (Trace, nat) ::
            OptSet(opt, a, at) == OptSet(before, a, at) + if KeyIsFor(key, a, at) then ps else {}
    {
      opt := before;
      for i := 0 to 64
        invariant forall a: Addr, at: (Trace, nat) :: OptSet(opt, a, at) ==
                    OptSet(before, a, at) + if KeyIsFor(key, a, at) && a < key.address + i then ps else {}
      {
        if key.mask[i] {
          opt := InsertLoads(opt, key.address + i, (key.trace, key.clockI), ps);
        }
      }
    }

    // ---------------------------------------------------------------- one comparison

    /** Adds the racing sites of one thread, looking at each site until it is known to race. */
    method RacyLoadsOfThread(u: nat, a: Addr, writeSet: PLockset, writeClock: Clock,
                             known: set<Trace>) returns (racy: set<Trace>)
      requires Valid() && u < |threads| && threads[u].used
      ensures forall lt :: lt in racy <==> lt in known || RacyLoadOf(threads[u], a, writeSet.Content(), writeClock, lt)
    {
      racy := known;
      var v, opt := threads[u], loadsOpt[u];
      if a in opt {
        var todo := opt[a].Keys;
        while todo != {}
          invariant todo <= opt[a].Keys
          invariant forall lt :: lt in racy ==> lt in known || RacyLoadOf(v, a, writeSet.Content(), writeClock, lt)
          invariant known <= racy
          invariant forall at, p | at in opt[a] && at !in todo && p in opt[a][at] ::
                Settled(v, at, p, writeSet, writeClock, racy)
          decreases |todo|
        {
          var at :| at in todo;
          todo := todo - {at};
          if at.0 !in racy {
            racy := RacySite(u, a, at, writeSet, writeClock, racy);
          }
        }
      }
      OnlySettled(v, opt, a, writeSet, writeClock, known, racy);
    }

    /** This load site is known to race, or this load does not race. */
    static ghost predicate Settled(v: View, at: (Trace, nat), p: PLockset, writeSet: PLockset, writeClock: Clock,
                                   racy: set<Trace>)
    {
      at.0 in racy || (at.1 < |v.clocks| ==>
            !(Concurrent(v.clocks[at.1], writeClock) && p.Content() !! writeSet.Content()))
    }

    static lemma OnlySettled(v: View, opt: LoadsOpt, a: Addr, writeSet: PLockset, writeClock: Clock, known: set<Trace>,
                             racy: set<Trace>)
      requires v.Valid() && Regrouped(v, opt)
      requires a in opt ==> forall at, p | at in opt[a] && p in opt[a][at] ::
            Settled(v, at, p, writeSet, writeClock, racy)
      ensures forall lt :: RacyLoadOf(v, a, writeSet.Content(), writeClock, lt) ==> lt in racy
    {
      forall lt | RacyLoadOf(v, a, writeSet.Content(), writeClock, lt)
        ensures lt in racy
      {
        var key, p :| key in v.loads && p in v.loads[key] &&
              RacesWith(v, key, p, a, writeSet.Content(), writeClock, lt);
        var at := (key.trace, key.clockI);
        assert p in LoadSet(v, v.loads.Keys, a, at);
        assert p in OptSet(opt, a, at);
        assert Settled(v, at, p, writeSet, writeClock, racy);
      }
    }

    /** One site in one epoch: the clock check, then locksets until a disjoint one. */
    method RacySite(u: nat, a: Addr, at: (Trace, nat), writeSet: PLockset, writeClock: Clock,
                    known: set<Trace>) returns (racy: set<Trace>)
      requires Valid() && u < |threads| && threads[u].used
      requires a in loadsOpt[u] && at in loadsOpt[u][a]
      ensures racy == known || racy == known + {at.0}
      ensures racy != known ==> RacyLoadOf(threads[u], a, writeSet.Content(), writeClock, at.0)
      ensures forall p | p in loadsOpt[u][a][at] :: Settled(threads[u], at, p, writeSet, writeClock, racy)
    {
      racy := known;
      var v, locksets := threads[u], loadsOpt[u][a][at];
      EpochsInRange(v, loadsOpt[u], a, at);
      if locksets == {} {
        return;
      }
      var vc := new VectorClock(v.clocks[at.1]);
      var concurrent := vc.IsConcurrent(writeClock);
      if !concurrent {
        return;
      }
      var todo := locksets;
      while todo != {}
        invariant todo <= locksets && racy == known
        invariant forall p | p in locksets && p !in todo :: p.Content() * writeSet.Content() != {}
        decreases |todo|
      {
        var ls :| ls in todo;
        todo := todo - {ls};
        var meets := ls.ShortIntersect(writeSet);
        if !meets {
          DisjointIsEmpty(ls.Content(), writeSet.Content());
          racy := racy + {at.0};
          SiteRaces(v, loadsOpt[u], a, at, ls, writeSet, writeClock);
          break;
        }
      }
    }

    static lemma DisjointIsEmpty(a: set<nat>, b: set<nat>)
      requires a * b == {}
      ensures a !! b
    {
      assert forall i | i in a :: i !in a * b;
    }

    static lemma EpochsInRange(v: View, opt: LoadsOpt, a: Addr, at: (Trace, nat))
      requires v.Valid() && Regrouped(v, opt) && a in opt && at in opt[a]
      ensures opt[a][at] != {} ==> at.1 < |v.clocks|
    {
      forall p | p in opt[a][at]
        ensures at.1 < |v.clocks|
      {
        assert p in OptSet(opt, a, at) && p in LoadSet(v, v.loads.Keys, a, at);
      }
    }

    static lemma SiteRaces(v: View, opt: LoadsOpt, a: Addr, at: (Trace, nat), p: PLockset, writeSet: PLockset,
                           writeClock: Clock)
      requires v.Valid() && Regrouped(v, opt) && p in OptSet(opt, a, at) && at.1 < |v.clocks|
      requires Concurrent(v.clocks[at.1], writeClock) && p.Content() !! writeSet.Content()
      ensures RacyLoadOf(v, a, writeSet.Content(), writeClock, at.0)
    {
      assert p in LoadSet(v, v.loads.Keys, a, at);
      var key :| key in v.loads && KeyIsFor(key, a, at) && p in v.loads[key];
      assert RacesWith(v, key, p, a, writeSet.Content(), writeClock, at.0);
    }

    method CheckPMRacesPerThread(tid: nat, a: Addr, writeSet: PLockset, writeClock: Clock) returns (racy: set<Trace>)
      requires Valid()
      ensures forall lt :: lt in racy <==> RacyLoad(threads, tid, a, writeSet.Content(), writeClock, lt)
    {
      racy := {};
      for u := 0 to |threads|
        invariant forall lt :: lt in racy <==>
                    exists i: nat :: i < u && i != tid && threads[i].used
                                     && RacyLoadOf(threads[i], a, writeSet.Content(), writeClock, lt)
      {
        if threads[u].used && u != tid {
          racy := RacyLoadsOfThread(u, a, writeSet, writeClock, racy);
        }
      }
    }

    // ----------------------------------------------------------------- all comparisons

    /** Reports every pair of sites in `traces` against the racy loads found for them. */
    static method InsertReports(found: Found, k: StoreKey, traces: set<(Trace, Trace)>,
                                racy: set<Trace>) returns (f: Found)
      requires NoEmptyReport(found)
      ensures NoEmptyReport(f)
      ensures forall persisted, key, lt :: Holds(f, persisted, key, lt) <==>
                Holds(found, persisted, key, lt) || (SitesMatch(k, traces, persisted, key) && lt in racy)
    {
      f := found;
      if racy == {} {
        return;
      }
      var todo := traces;
      ghost var done: set<(Trace, Trace)> := {};
      while todo != {}
        invariant todo <= traces && done == traces - todo && NoEmptyReport(f)
        invariant forall persisted, key, lt :: Holds(f, persisted, key, lt) <==>
                    Holds(found, persisted, key, lt) || (SitesMatch(k, done, persisted, key) && lt in racy)
        decreases |todo|
      {
        var trace :| trace in todo;
        OneMoreSite(k, done, trace);
        SitesAreAdded(f, k.1, (trace.0, trace.1, k.2), racy);
        f := AddFound(f, k.1, (trace.0, trace.1, k.2), racy);
        todo, done := todo - {trace}, done + {trace};
      }
      assert done == traces;
    }

    method ReportGroup(t: nat, k: StoreKey, group: Group, found: Found) returns (f: Found)
      requires Valid() && t < |threads| && NoEmptyReport(found)
      requires forall ck | ck in group.byClock :: ck < |threads[t].clocks|
      ensures NoEmptyReport(f)
      ensures forall persisted, key, lt :: Holds(f, persisted, key, lt) <==>
                Holds(found, persisted, key, lt) ||
                      GroupReports(threads, t, k, group, group.byClock.Keys, persisted, key, lt)
    {
      f := found;
      var todo := group.byClock.Keys;
      while todo != {}
        invariant todo <= group.byClock.Keys && NoEmptyReport(f)
        invariant forall persisted, key, lt :: Holds(f, persisted, key, lt) <==>
                    Holds(found, persisted, key, lt)
                    || GroupReports(threads, t, k, group, group.byClock.Keys - todo, persisted, key, lt)
        decreases |todo|
      {
        var ck :| ck in todo;
        ghost var done := group.byClock.Keys - todo;
        todo := todo - {ck};
        var racy := CheckPMRacesPerThread(t, k.0, group.locks, threads[t].clocks[ck]);
        f := InsertReports(f, k, group.byClock[ck], racy);
        assert group.byClock.Keys - todo == done + {ck};
        OneMoreClock(threads, t, k, group, done, ck);
      }
    }

    method ReportEntry(t: nat, k: StoreKey, entry: map<set<nat>, Group>, found: Found) returns (f: Found)
      requires Valid() && t < |threads| && NoEmptyReport(found) && EntryInRange(threads[t], entry)
      ensures NoEmptyReport(f)
      ensures forall persisted, key, lt :: Holds(f, persisted, key, lt) <==>
                Holds(found, persisted, key, lt) || EntryReports(threads, t, k, entry, entry.Keys, persisted, key, lt)
    {
      f := found;
      var todo := entry.Keys;
      while todo != {}
        invariant todo <= entry.Keys && NoEmptyReport(f)
        invariant forall persisted, key, lt :: Holds(f, persisted, key, lt) <==>
                    Holds(found, persisted, key, lt) ||
                          EntryReports(threads, t, k, entry, entry.Keys - todo, persisted, key, lt)
        decreases |todo|
      {
        var c :| c in todo;
        ghost var done := entry.Keys - todo;
        todo := todo - {c};
        f := ReportGroup(t, k, entry[c], f);
        assert entry.Keys - todo == done + {c};
        OneMoreLockset(threads, t, k, entry, done, c);
      }
    }

    method ReportThread(t: nat, found: Found) returns (f: Found)
      requires Valid() && t < |threads| && NoEmptyReport(found)
      ensures NoEmptyReport(f)
      ensures forall persisted, key, lt :: Holds(f, persisted, key, lt) <==>
                Holds(found, persisted, key, lt) || NaiveReportOf(threads, t, persisted, key, lt)
    {
      var opt := RegroupStores(threads[t].stores);
      StoresInRange(threads[t], opt);
      f := found;
      var todo := opt.Keys;
      while todo != {}
        invariant todo <= opt.Keys && NoEmptyReport(f)
        invariant forall persisted, key, lt :: Holds(f, persisted, key, lt) <==>
                    Holds(found, persisted, key, lt) ||
                          ThreadReports(threads, t, opt, opt.Keys - todo, persisted, key, lt)
        decreases |todo|
      {
        var k :| k in todo;
        ghost var done := opt.Keys - todo;
        todo := todo - {k};
        f := ReportEntry(t, k, opt[k], f);
        assert opt.Keys - todo == done + {k};
        OneMoreAddress(threads, t, opt, done, k);
      }
      RegroupedReportsAreNaive(threads, t, opt);
    }

    method CheckPMRaces() returns (races: Reports, unpersisted: Reports)
      requires Valid()
      ensures forall key, lt :: Reported(races, key, lt) <==> NaiveReport(threads, true, key, lt)
      ensures forall key, lt :: Reported(unpersisted, key, lt) <==> NaiveReport(threads, false, key, lt)
      ensures {} !in races.Values && {} !in unpersisted.Values
    {
      var found := Found(map[], map[]);
      for t := 0 to |threads|
        invariant NoEmptyReport(found)
        invariant forall persisted, key, lt :: Holds(found, persisted, key, lt) <==>
                    exists i: nat :: i < t && threads[i].used && NaiveReportOf(threads, i, persisted, key, lt)
      {
        if threads[t].used {
          found := ReportThread(t, found);
        }
      }
      races, unpersisted := found.races, found.unpersisted;
      forall persisted, key, lt
        ensures Holds(found, persisted, key, lt) <==> NaiveReport(threads, persisted, key, lt)
      {
        NaiveByThread(threads, persisted, key, lt);
      }
      assert forall key, lt :: Reported(races, key, lt) <==> Holds(found, true, key, lt);
      assert forall key, lt :: Reported(unpersisted, key, lt) <==> Holds(found, false, key, lt);
    }
  }

  // ----------------------------------------------------------------- regrouped stores

  type StoreKey = (Addr, bool, bool)

  /** Records whose common sets have equal content share one group, under the first pointer met. */
  datatype Group = Group(locks: PLockset, byClock: map<nat, set<(Trace, Trace)>>)

  type StoresOpt = map<StoreKey, map<set<nat>, Group>>

  function StoreKeyOf(r: StoreFenceData): StoreKey {
    (r.address, r.persisted, r.wasFlushed)
  }

  function StoreSet(opt: StoresOpt, k: StoreKey, c: set<nat>, ck: nat): set<(Trace, Trace)> {
    if k in opt && c in opt[k] && ck in opt[k][c].byClock then opt[k][c].byClock[ck] else {}
  }

  ghost function RecordSet(stores: seq<StoreFenceData>, k: StoreKey, c: set<nat>, ck: nat): set<(Trace, Trace)> {
    set r | r in stores && StoreKeyOf(r) == k && r.commonSet.Content() == c && r.clockI == ck ::
          (r.writeTrace, r.fenceTrace)
  }

  ghost predicate StoresRegrouped(stores: seq<StoreFenceData>, opt: StoresOpt) {
    && (forall k, c, ck: nat :: StoreSet(opt, k, c, ck) == RecordSet(stores, k, c, ck))
    && GroupsNamed(opt)
  }

  /** A group's pointer has the content it is filed under, and no group holds an empty clock entry. */
  ghost predicate GroupsNamed(opt: StoresOpt) {
    forall k, c | k in opt && c in opt[k] ::
      opt[k][c].locks.Content() == c && forall ck | ck in opt[k][c].byClock :: opt[k][c].byClock[ck] != {}
  }

  function InsertStore(opt: StoresOpt, r: StoreFenceData): StoresOpt {
    var k, c, ck := StoreKeyOf(r), r.commonSet.Content(), r.clockI;
    var entry := if k in opt then opt[k] else map[];
    var group := if c in entry then entry[c] else Group(r.commonSet, map[]);
    var traces := if ck in group.byClock then group.byClock[ck] else {};
    opt[k := entry[c := group.(byClock := group.byClock[ck := traces + {(r.writeTrace, r.fenceTrace)}])]]
  }

  lemma InsertStoreAdds(opt: StoresOpt, r: StoreFenceData)
    requires GroupsNamed(opt)
    ensures GroupsNamed(InsertStore(opt, r))
    ensures forall k, c, ck: nat :: StoreSet(InsertStore(opt, r), k, c, ck) == StoreSet(opt, k, c, ck)
              + if k == StoreKeyOf(r) && c == r.commonSet.Content() && ck
                    == r.clockI then {(r.writeTrace, r.fenceTrace)} else {}
  {
  }

  lemma OneMoreRecord(stores: seq<StoreFenceData>, r: StoreFenceData)
    ensures forall k, c, ck: nat :: RecordSet(stores + [r], k, c, ck) == RecordSet(stores, k, c, ck)
              + if k == StoreKeyOf(r) && c == r.commonSet.Content() && ck
                    == r.clockI then {(r.writeTrace, r.fenceTrace)} else {}
  {
  }

  method RegroupStores(stores: seq<StoreFenceData>) returns (opt: StoresOpt)
    ensures StoresRegrouped(stores, opt)
  {
    opt := map[];
    for i := 0 to |stores|
      invariant StoresRegrouped(stores[..i], opt)
    {
      InsertStoreAdds(opt, stores[i]);
      OneMoreRecord(stores[..i], stores[i]);
      assert stores[..i + 1] == stores[..i] + [stores[i]];
      opt := InsertStore(opt, stores[i]);
    }
    assert stores[..|stores|] == stores;
  }

  ghost predicate EntryInRange(v: View, entry: map<set<nat>, Group>) {
    forall c | c in entry :: forall ck | ck in entry[c].byClock :: ck < |v.clocks|
  }

  lemma StoresInRange(v: View, opt: StoresOpt)
    requires v.Valid() && StoresRegrouped(v.stores, opt)
    ensures forall k | k in opt :: EntryInRange(v, opt[k])
  {
    forall k, c, ck | k in opt && c in opt[k] && ck in opt[k][c].byClock
      ensures ck < |v.clocks|
    {
      assert StoreSet(opt, k, c, ck) != {};
      assert RecordSet(v.stores, k, c, ck) != {};
    }
  }

  // --------------------------------------------------------------- reports under way

  datatype Found = Found(races: Reports, unpersisted: Reports)

  predicate Holds(f: Found, persisted: bool, key: ReportKey, lt: Trace) {
    Reported(if persisted then f.races else f.unpersisted, key, lt)
  }

  predicate NoEmptyReport(f: Found) {
    {} !in f.races.Values && {} !in f.unpersisted.Values
  }

  function AddSites(reports: Reports, key: ReportKey, racy: set<Trace>): Reports {
    reports[key := (if key in reports then reports[key] else {}) + racy]
  }

  function AddFound(f: Found, persisted: bool, key: ReportKey, racy: set<Trace>): Found {
    if persisted
          then f.(races := AddSites(f.races, key, racy)) else f.(unpersisted := AddSites(f.unpersisted, key, racy))
  }

  lemma SitesAreAdded(f: Found, persisted: bool, key: ReportKey, racy: set<Trace>)
    requires NoEmptyReport(f) && racy != {}
    ensures NoEmptyReport(AddFound(f, persisted, key, racy))
    ensures forall p, k, lt :: Holds(AddFound(f, persisted, key, racy), p, k, lt) <==>
              Holds(f, p, k, lt) || (p == persisted && k == key && lt in racy)
  {
  }

  lemma OneMoreSite(k: StoreKey, done: set<(Trace, Trace)>, trace: (Trace, Trace))
    ensures forall persisted, key :: SitesMatch(k, done + {trace}, persisted, key) <==>
              SitesMatch(k, done, persisted, key) || (persisted == k.1 && key == (trace.0, trace.1, k.2))
  {
  }

  predicate SitesMatch(k: StoreKey, traces: set<(Trace, Trace)>, persisted: bool, key: ReportKey) {
    persisted == k.1 && key.2 == k.2 && (key.0, key.1) in traces
  }

  ghost predicate ClockReports(threads: seq<View>, t: nat, k: StoreKey, group: Group, ck: nat, persisted: bool,
                               key: ReportKey, lt: Trace)
    requires AllValid(threads) && t < |threads| && ck in group.byClock && ck < |threads[t].clocks|
  {
    SitesMatch(k, group.byClock[ck], persisted, key)
    && RacyLoad(threads, t, k.0, group.locks.Content(), threads[t].clocks[ck], lt)
  }

  ghost predicate GroupReports(threads: seq<View>, t: nat, k: StoreKey, group: Group, done: set<nat>, persisted: bool,
                               key: ReportKey, lt: Trace)
    requires AllValid(threads) && t < |threads| && forall ck | ck in group.byClock :: ck < |threads[t].clocks|
  {
    exists ck | ck in done && ck in group.byClock :: ClockReports(threads, t, k, group, ck, persisted, key, lt)
  }

  ghost predicate EntryReports(threads: seq<View>, t: nat, k: StoreKey, entry: map<set<nat>, Group>,
                               done: set<set<nat>>,
                               persisted: bool, key: ReportKey, lt: Trace)
    requires AllValid(threads) && t < |threads| && EntryInRange(threads[t], entry)
  {
    exists c | c in done && c in entry ::
          GroupReports(threads, t, k, entry[c], entry[c].byClock.Keys, persisted, key, lt)
  }

  ghost predicate ThreadReports(threads: seq<View>, t: nat, opt: StoresOpt, done: set<StoreKey>, persisted: bool,
                                key: ReportKey, lt: Trace)
    requires AllValid(threads) && t < |threads| && forall k | k in opt :: EntryInRange(threads[t], opt[k])
  {
    exists k | k in done && k in opt :: EntryReports(threads, t, k, opt[k], opt[k].Keys, persisted, key, lt)
  }

  lemma OneMoreClock(threads: seq<View>, t: nat, k: StoreKey, group: Group, done: set<nat>, ck: nat)
    requires AllValid(threads) && t < |threads| && ck in group.byClock
    requires forall x | x in group.byClock :: x < |threads[t].clocks|
    ensures forall persisted, key, lt :: GroupReports(threads, t, k, group, done + {ck}, persisted, key, lt) <==>
              GroupReports(threads, t, k, group, done, persisted, key, lt) ||
                    ClockReports(threads, t, k, group, ck, persisted, key, lt)
  {
  }

  lemma OneMoreLockset(threads: seq<View>, t: nat, k: StoreKey, entry: map<set<nat>, Group>, done: set<set<nat>>,
                       c: set<nat>)
    requires AllValid(threads) && t < |threads| && c in entry && EntryInRange(threads[t], entry)
    ensures forall persisted, key, lt :: EntryReports(threads, t, k, entry, done + {c}, persisted, key, lt) <==>
              EntryReports(threads, t, k, entry, done, persisted, key, lt)
              || GroupReports(threads, t, k, entry[c], entry[c].byClock.Keys, persisted, key, lt)
  {
  }

  lemma OneMoreAddress(threads: seq<View>, t: nat, opt: StoresOpt, done: set<StoreKey>, k: StoreKey)
    requires AllValid(threads) && t < |threads| && k in opt && forall x | x in opt :: EntryInRange(threads[t], opt[x])
    ensures forall persisted, key, lt :: ThreadReports(threads, t, opt, done + {k}, persisted, key, lt) <==>
              ThreadReports(threads, t, opt, done, persisted, key, lt)
              || EntryReports(threads, t, k, opt[k], opt[k].Keys, persisted, key, lt)
  {
  }

  /** The naive comparison of one thread's stores. */
  ghost predicate NaiveReportOf(threads: seq<View>, t: nat, persisted: bool, key: ReportKey, lt: Trace)
    requires AllValid(threads) && t < |threads|
  {
    exists r ::
          r in threads[t].stores && r.persisted == persisted && KeyOfRecord(r) == key && RecordRaces(threads, t, r, lt)
  }

  lemma NaiveByThread(threads: seq<View>, persisted: bool, key: ReportKey, lt: Trace)
    requires AllValid(threads)
    ensures NaiveReport(threads, persisted, key, lt) <==>
              exists i: nat :: i < |threads| && threads[i].used && NaiveReportOf(threads, i, persisted, key, lt)
  {
  }

  /** Regrouping stores by address, lockset and clock loses no report and adds none. */
  lemma RegroupedReportsAreNaive(threads: seq<View>, t: nat, opt: StoresOpt)
    requires AllValid(threads) && t < |threads| && StoresRegrouped(threads[t].stores, opt)
    requires forall k | k in opt :: EntryInRange(threads[t], opt[k])
    ensures forall persisted, key, lt :: ThreadReports(threads, t, opt, opt.Keys, persisted, key, lt) <==>
              NaiveReportOf(threads, t, persisted, key, lt)
  {
    forall persisted, key, lt
      ensures ThreadReports(threads, t, opt, opt.Keys, persisted, key, lt)
            <==> NaiveReportOf(threads, t, persisted, key, lt)
    {
      if ThreadReports(threads, t, opt, opt.Keys, persisted, key, lt) {
        RegroupedIsNaive(threads, t, opt, persisted, key, lt);
      }
      if NaiveReportOf(threads, t, persisted, key, lt) {
        NaiveIsRegrouped(threads, t, opt, persisted, key, lt);
      }
    }
  }

  lemma RegroupedIsNaive(threads: seq<View>, t: nat, opt: StoresOpt, persisted: bool, key: ReportKey, lt: Trace)
    requires AllValid(threads) && t < |threads| && StoresRegrouped(threads[t].stores, opt)
    requires forall k | k in opt :: EntryInRange(threads[t], opt[k])
    requires ThreadReports(threads, t, opt, opt.Keys, persisted, key, lt)
    ensures NaiveReportOf(threads, t, persisted, key, lt)
  {
    var k :| k in opt && EntryReports(threads, t, k, opt[k], opt[k].Keys, persisted, key, lt);
    var c :| c in opt[k] && GroupReports(threads, t, k, opt[k][c], opt[k][c].byClock.Keys, persisted, key, lt);
    var ck :| ck in opt[k][c].byClock && ClockReports(threads, t, k, opt[k][c], ck, persisted, key, lt);
    assert (key.0, key.1) in StoreSet(opt, k, c, ck);
    assert (key.0, key.1) in RecordSet(threads[t].stores, k, c, ck);
    var r :| r in threads[t].stores && StoreKeyOf(r) == k && r.commonSet.Content() == c && r.clockI == ck
             && (r.writeTrace, r.fenceTrace) == (key.0, key.1);
    assert RecordRaces(threads, t, r, lt);
  }

  lemma NaiveIsRegrouped(threads: seq<View>, t: nat, opt: StoresOpt, persisted: bool, key: ReportKey, lt: Trace)
    requires AllValid(threads) && t < |threads| && StoresRegrouped(threads[t].stores, opt)
    requires forall k | k in opt :: EntryInRange(threads[t], opt[k])
    requires NaiveReportOf(threads, t, persisted, key, lt)
    ensures ThreadReports(threads, t, opt, opt.Keys, persisted, key, lt)
  {
    var r :| r in threads[t].stores && r.persisted == persisted && KeyOfRecord(r)
          == key && RecordRaces(threads, t, r, lt);
    var k, c, ck := StoreKeyOf(r), r.commonSet.Content(), r.clockI;
    assert (key.0, key.1) in RecordSet(threads[t].stores, k, c, ck);
    assert (key.0, key.1) in StoreSet(opt, k, c, ck);
    assert ClockReports(threads, t, k, opt[k][c], ck, persisted, key, lt);
    assert GroupReports(threads, t, k, opt[k][c], opt[k][c].byClock.Keys, persisted, key, lt);
    assert EntryReports(threads, t, k, opt[k], opt[k].Keys, persisted, key, lt);
  }
}
