/** One more event changes nothing about the past. */
module LogExtension {
  import opened Events
  import opened HappensBefore
  import opened Ledger
  import opened LockHistory
  import opened Persistence

  lemma {:induction false} SameClocks(log: Log, e: Event, k: nat)
    requires k <= |log|
    ensures forall t :: ClocksAt(log + [e], k, t) == ClocksAt(log, k, t)
    ensures forall u :: ExitAt(log + [e], k, u) == ExitAt(log, k, u)
    ensures CreatorAt(log + [e], k) == CreatorAt(log, k)
  {
    if k > 0 {
      SameClocks(log, e, k - 1);
      var last := log[k - 1];
      assert (log + [e])[k - 1] == last;
      assert Current(log + [e], k - 1, last.tid) == Current(log, k - 1, last.tid);
      if PushesClock(last) {
        SamePushed(log, e, k - 1);
      }
    }
  }

  lemma SamePushed(log: Log, e: Event, k: nat)
    requires k < |log| && PushesClock(log[k])
    requires ClocksAt(log + [e], k, log[k].tid) == ClocksAt(log, k, log[k].tid)
    requires log[k].Join? ==> ExitAt(log + [e], k, log[k].other) == ExitAt(log, k, log[k].other)
    requires CreatorAt(log + [e], k) == CreatorAt(log, k)
    ensures Pushed(log + [e], k) == Pushed(log, k)
  {
    assert (log + [e])[k] == log[k];
    assert Current(log + [e], k, log[k].tid) == Current(log, k, log[k].tid);
  }

  lemma {:induction false} SameLocks(log: Log, e: Event, k: nat, t: Tid)
    requires k <= |log|
    ensures LocksAt(log + [e], k, t) == LocksAt(log, k, t)
  {
    if k > 0 {
      SameLocks(log, e, k - 1, t);
    }
  }

  lemma {:induction false} SameCache(unpersisted: bool, log: Log, e: Event, k: nat, t: Tid)
    requires k <= |log|
    ensures CacheAt(unpersisted, log + [e], k, t) == CacheAt(unpersisted, log, k, t)
  {
    if k > 0 {
      SameCache(unpersisted, log, e, k - 1, t);
    }
  }

  lemma {:induction false} SameTouched(unpersisted: bool, log: Log, e: Event, k: nat)
    requires k <= |log|
    ensures TouchedAt(unpersisted, log + [e], k) == TouchedAt(unpersisted, log, k)
  {
    if k > 0 {
      assert (log + [e])[k - 1] == log[k - 1];
      SameTouched(unpersisted, log, e, k - 1);
      SameCache(unpersisted, log, e, k - 1, log[k - 1].tid);
    }
  }

  lemma SameEmitted(n: nat, unpersisted: bool, log: Log, e: Event, k: nat)
    requires k < |log|
    ensures EmittedAt(n, unpersisted, log + [e], k) == EmittedAt(n, unpersisted, log, k)
  {
    SameCache(unpersisted, log, e, k, log[k].tid);
    SameTouched(unpersisted, log, e, k + 1);
  }

  lemma {:induction false} SameLedger(n: nat, unpersisted: bool, log: Log, e: Event, k: nat, t: Tid)
    requires k <= |log|
    ensures LedgerAt(n, unpersisted, log + [e], k, t) == LedgerAt(n, unpersisted, log, k, t)
  {
    if k > 0 {
      SameLedger(n, unpersisted, log, e, k - 1, t);
      SameEmitted(n, unpersisted, log, e, k - 1);
    }
  }

  lemma {:induction false} SameLoads(n: nat, unpersisted: bool, log: Log, e: Event, k: nat, t: Tid)
    requires k <= |log|
    ensures LoadsAt(n, unpersisted, log + [e], k, t) == LoadsAt(n, unpersisted, log, k, t)
  {
    if k > 0 {
      SameLoads(n, unpersisted, log, e, k - 1, t);
      SameTouched(unpersisted, log, e, k);
    }
  }
}
