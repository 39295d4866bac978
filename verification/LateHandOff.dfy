/**
 * What a late hand-off costs: a run with a race that the detector does not report,
 * because a starting thread reads the creator's clock after the next create.
 */
module LateHandOffs {
  import opened DetectorReports
  import opened EndToEnd
  import opened Events
  import opened HappensBefore
  import opened Ledger
  import opened LockHistory
  import opened Persistence
  import opened RaceAnalysis
  import opened VectorClocks

  /** Thread 1, created at 1, reads the clock that thread 0 leaves behind at 5. */
  function Late(): Log {
    [Init(0), Create(0, 1), Store(0, 0, 8, Frames([1])), Flush(0, 0), Fence(0, Frames([2])),
     Create(0, 2), Init(1), Load(1, 0, 8, Frames([3]))]
  }

  lemma LateThreadsLive()
    ensures ThreadsLive(Late()) && !HandedOff(Late(), 6)
  {
    var log := Late();
    assert log[0] == Init(0) && log[6] == Init(1);
    assert ThreadsBehave(log);
    assert LastCreate(log, 6) == 5;
  }

  /** The clocks of thread 0, and the one that thread 1 starts with. */
  lemma LateClocks(c: Clock, d: Clock, f: Clock)
    requires c == Ticked(Ticked(map[], 0), 0) && d == Ticked(Ticked(c, 0), 0) && f == Ticked(Ticked(Ticked(d, 0), 1), 1)
    ensures ClocksAt(Late(), 6, 0) == [c, d, Ticked(Ticked(d, 0), 0)] && ClocksAt(Late(), 4, 0) == [c, d]
    ensures ClocksAt(Late(), 7, 1) == [f]
  {
    var log := Late();
    assert ClocksAt(log, 1, 0) == [c];
    assert ClocksAt(log, 2, 0) == [c, d] && ClocksAt(log, 3, 0) == [c, d] && ClocksAt(log, 4, 0) == [c, d];
    assert ClocksAt(log, 5, 0) == [c, d];
    assert CreatorAt(log, 6) == Ticked(d, 0);
    assert ClocksAt(log, 5, 1) == [] by { LastOfIsLast(log, 5, 1); }
    assert ClocksAt(log, 6, 1) == [];
  }

  lemma {:induction false} LaterClocks(t: Tid, k: nat)
    requires 7 <= k <= 8
    ensures ClocksAt(Late(), k, t) == ClocksAt(Late(), 7, t)
  {
    if k > 7 {
      assert Late()[7].Load?;
    }
  }

  /** To the detector the fence is in the past of the load. */
  lemma FenceSeemsOlder()
    ensures !Concurrent(EpochClock(Late(), 7, 1), EpochClock(Late(), 4, 0))
  {
    var c := Ticked(Ticked(map[], 0), 0);
    var d := Ticked(Ticked(c, 0), 0);
    var f := Ticked(Ticked(Ticked(d, 0), 1), 1);
    LateEpochs(c, d, f);
    assert RankLeq(d, f);
  }

  lemma LateEpochs(c: Clock, d: Clock, f: Clock)
    requires c == Ticked(Ticked(map[], 0), 0) && d == Ticked(Ticked(c, 0), 0) && f == Ticked(Ticked(Ticked(d, 0), 1), 1)
    ensures EpochClock(Late(), 4, 0) == d && EpochClock(Late(), 7, 1) == f
  {
    LateClocks(c, d, f);
    LaterClocks(0, 8);
    LaterClocks(1, 8);
    assert Late()[6].tid == 1;
    assert ClocksAt(Late(), 7, 0) == ClocksAt(Late(), 6, 0);
  }

  lemma FenceAndLoadAreUnordered()
    ensures Unordered(Late(), 4, 7)
  {
    var log := Late();
    assert forall z: nat | z < 7 && Edge(log, z, 7) :: z == 6;
    assert forall z: nat | z < 6 && Edge(log, z, 6) :: z == 1;
    assert !Precedes(log, 4, 1) by { ForwardOnly(log, 4, 1); }
    assert !Precedes(log, 4, 6);
    assert !Precedes(log, 4, 7);
    ForwardOnly(log, 7, 4);
  }

  lemma LateRunRaces()
    ensures RaceAt(0, false, Late(), 0, Entry(0, 2, 4, true, true), 1, 7)
  {
    var log := Late();
    assert IsStore(log, 2, 0, 0) && FirstFlush(log, 2, 3, 0, 0);
    assert FlushedSinceFence(log, 4, 0, 0, 2);
    FenceAndLoadAreUnordered();
    assert forall m :: !HeldAt(log, 7, 1, m);
  }

  lemma OnlyTheFence(log: Log, t: Tid, en: Entry)
    requires log == Late() && en in LedgerAt(0, false, log, |log|, t)
    ensures t == 0 && en.at == 4
  {
    EntriesAreEnded(0, false, log, t, en);
    assert IsFence(log, en.at, t);
  }

  lemma OnlyTheLoad(log: Log, u: Tid, l: nat)
    requires log == Late() && l in LoadsAt(0, false, log, |log|, u)
    ensures u == 1 && l == 7
  {
    assert log[l].Load? && log[l].tid == u;
  }

  lemma LateRunReportsNothing(log: Log, persisted: bool, key: ReportKey, lt: Trace)
    requires log == Late()
    ensures !HistoryRace(0, false, log, persisted, key, lt)
  {
    FenceSeemsOlder();
    forall t: Tid, en: Entry, u: Tid, l: nat
      | en in LedgerAt(0, false, log, |log|, t) && l in LoadsAt(0, false, log, |log|, u)
      ensures !EntryRaces(log, t, en, u, l, persisted, key, lt)
    {
      OnlyTheFence(log, t, en);
      OnlyTheLoad(log, u, l);
    }
  }

  /**
   * The hand-off must be timely: in this run, whose threads otherwise behave, the store at
   * 2, drained at 4, races with the load at 7, and nothing at all is reported.
   */
  lemma LateHandOffHidesRace(persisted: bool, key: ReportKey, lt: Trace)
    ensures ThreadsLive(Late()) && !HandOffsAreTimely(Late())
    ensures RaceOnByte(0, false, Late(), true, 0, (Frames([1]), Frames([2]), true), Frames([3]))
    ensures !HistoryRace(0, false, Late(), persisted, key, lt)
  {
    LateThreadsLive();
    LateRunRaces();
    LateRunReportsNothing(Late(), persisted, key, lt);
    LateRaceIsSeen(Entry(0, 2, 4, true, true));
  }

  lemma LateRaceIsSeen(en: Entry)
    requires en == Entry(0, 2, 4, true, true) && RaceAt(0, false, Late(), 0, en, 1, 7)
    ensures RaceOnByte(0, false, Late(), true, 0, (Frames([1]), Frames([2]), true), Frames([3]))
  {
    assert RaceSeen(0, false, Late(), 0, en, 1, 7, (Frames([1]), Frames([2]), true), Frames([3]));
  }
}
