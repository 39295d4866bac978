/** What holds of the concrete data in every state a detector can reach. */
module Reachable {
  import opened Detector
  import opened DetectorState
  import opened EndToEnd
  import opened Events
  import opened Ledger
  import opened LockHistory
  import opened Persistence

  lemma ThreadIsRepresented(d: HawkSet, tid: Tid)
    requires d.Valid() && tid < |d.tls|
    ensures d.tls[tid].Snap() == d.snaps[tid]
    ensures ThreadRep(d.registry.names, d.log, d.n, d.unpersisted, tid, d.tls[tid].Snap())
  {
    assert d.tls[tid].Snap() == d.snaps[tid];
    assert ThreadRep(d.registry.names, d.log, d.n, d.unpersisted, tid, d.snaps[tid]);
  }

  /**
   * The remembered lockset pointer is null or has the content of the current timed
   * lockset, which is the fold of the thread's lock events, lock by lock.
   */
  lemma CachedLocksetAgrees(d: HawkSet, tid: Tid)
    requires d.Valid() && tid < |d.tls|
    ensures var td := d.tls[tid];
            && (td.cached != null ==> td.cached.timestamps == td.current.timestamps)
            && Encodes(d.registry.names, td.current.timestamps, LocksAt(d.log, |d.log|, tid).held)
            && td.lockClock == Acquisitions(d.log, |d.log|, tid) % 0x1_0000_0000
  {
    ThreadIsRepresented(d, tid);
    LocksAreHistory(d.log, |d.log|, tid, Ordinary(0));
  }

  ghost predicate Pending(m: MemState, a: Addr) {
    CacheLine(a) in m && a in m[CacheLine(a)]
  }

  /**
   * In every reachable state the nested flushed map holds exactly the stores that the next
   * fence would drain, each with its locks and its site.
   */
  lemma FlushedMapIsDrained(d: HawkSet, tid: Tid, a: Addr)
    requires d.Valid() && tid < |d.tls|
    ensures InLines(d.tls[tid].flushedMemState)
    ensures Pending(d.tls[tid].flushedMemState, a) <==>
              exists i: nat :: Draining(d.unpersisted, d.log, |d.log|, tid, a, i)
    ensures Pending(d.tls[tid].flushedMemState, a) ==>
          forall i: nat | Draining(d.unpersisted, d.log, |d.log|, tid, a, i) ::
              DataOk(d.registry.names, d.log, tid, d.tls[tid].flushedMemState[CacheLine(a)][a], i)
  {
    var flushed, idx := d.tls[tid].flushedMemState, CacheAt(d.unpersisted, d.log, |d.log|, tid).flushed;
    ThreadIsRepresented(d, tid);
    FlatAt(flushed, a);
    forall i: nat
      ensures a in idx && idx[a] == i <==> Draining(d.unpersisted, d.log, |d.log|, tid, a, i)
    {
      FlushedIsDraining(d.unpersisted, d.log, |d.log|, tid, a, i);
    }
    assert a in idx ==> Draining(d.unpersisted, d.log, |d.log|, tid, a, idx[a]);
  }

  /** And the dirty map holds exactly the stores whose line has not been flushed. */
  lemma DirtyMapIsDirty(d: HawkSet, tid: Tid, a: Addr)
    requires d.Valid() && tid < |d.tls|
    ensures InLines(d.tls[tid].memState)
    ensures Pending(d.tls[tid].memState, a) <==> exists i: nat :: DirtySince(d.log, |d.log|, tid, a, i)
    ensures Pending(d.tls[tid].memState, a) ==> forall i: nat | DirtySince(d.log, |d.log|, tid, a, i) ::
              DataOk(d.registry.names, d.log, tid, d.tls[tid].memState[CacheLine(a)][a], i)
  {
    var mem, idx := d.tls[tid].memState, CacheAt(d.unpersisted, d.log, |d.log|, tid).dirty;
    ThreadIsRepresented(d, tid);
    FlatAt(mem, a);
    forall i: nat
      ensures a in idx && idx[a] == i <==> DirtySince(d.log, |d.log|, tid, a, i)
    {
      DirtyExactly(d.unpersisted, d.log, |d.log|, tid, a, i);
    }
    assert a in idx ==> DirtySince(d.log, |d.log|, tid, a, idx[a]);
  }

  /** A sequence without repetitions is as long as the set of its elements is large. */
  lemma {:induction false} DistinctCount<T>(s: seq<T>, all: set<T>)
    requires forall i, j | 0 <= i < j < |s| :: s[i] != s[j]
    requires forall x :: x in all <==> x in s
    ensures |s| == |all|
  {
    if s != [] {
      var x, rest := Last(s), s[..|s| - 1];
      assert forall y :: y in s <==> y in rest || y == x;
      DistinctCount(rest, all - {x});
    }
  }

  /**
   * Conservation in the concrete maps, with unpersisted checking on and the heuristic off:
   * byte stores executed are records made plus bytes dirty plus bytes flushed.
   */
  lemma StoresAreConservedInMaps(d: HawkSet, tid: Tid)
    requires d.Valid() && tid < |d.tls| && d.unpersisted && d.n == 0 && NothingAfterExit(d.log)
    ensures var td := d.tls[tid];
            && InLines(td.memState) && InLines(td.flushedMemState)
            && Flat(td.memState).Keys !! Flat(td.flushedMemState).Keys
            && StoredBytes(d.log, |d.log|, tid) == |td.raceLikelyStores| +
                 if Exited(d.log, |d.log|, tid) then 0 else |Flat(td.memState)| + |Flat(td.flushedMemState)|
  {
    var td := d.tls[tid];
    ThreadIsRepresented(d, tid);
    var c, ledger := CacheAt(true, d.log, |d.log|, tid), LedgerAt(0, true, d.log, |d.log|, tid);
    DistinctCount(td.entries, ledger);
    StoresAreConserved(d.log, |d.log|, tid);
    NeverDirtyAndFlushed(d.log, |d.log|, tid);
    assert Flat(td.memState).Keys == c.dirty.Keys && Flat(td.flushedMemState).Keys == c.flushed.Keys;
    assert |Flat(td.memState)| == |Flat(td.memState).Keys| && |c.dirty| == |c.dirty.Keys|;
    assert |Flat(td.flushedMemState)| == |Flat(td.flushedMemState).Keys| && |c.flushed| == |c.flushed.Keys|;
  }
}
