/**
 * Timed locksets over a whole history, and what intersecting two of them means.
 *
 * Every acquisition gets the thread's next 32-bit timestamp, so a lock that two
 * timed locksets agree on was not released in between.
 */
module LockHistory {
  import opened Events

  /** Timestamps are counted in 32 bits. */
  const TIMESTAMPS := 0x1_0000_0000

  /** Held locks with their acquisition timestamps, and the 32-bit counter of the next one. */
  datatype LockState = LockState(held: map<Mutex, nat>, next: nat)

  function LockStep(s: LockState, t: Tid, e: Event): LockState {
    if e.tid != t then s else
      match e
      case Lock(_, m) => LockState(s.held[m := s.next], (s.next + 1) % TIMESTAMPS)
      case Unlock(_, m) => s.(held := s.held - {m})
      case _ => s
  }

  function LocksAt(log: Log, k: nat, t: Tid): LockState
    requires k <= |log|
  {
    if k == 0 then LockState(map[], 0) else LockStep(LocksAt(log, k - 1, t), t, log[k - 1])
  }

  function HeldSet(log: Log, k: nat, t: Tid): set<Mutex>
    requires k <= |log|
  {
    LocksAt(log, k, t).held.Keys
  }

  /** The timed intersection: locks present in both with the same timestamp. */
  function Common<T>(a: map<T, nat>, b: map<T, nat>): set<T> {
    set m | m in a && m in b && a[m] == b[m]
  }

  // ------------------------------------------------ the same, read off the log

  predicate IsLockOp(e: Event, t: Tid, m: Mutex) {
    e == Lock(t, m) || e == Unlock(t, m)
  }

  /** Event `i` is the acquisition by which `t` holds `m` just before event `k`. */
  ghost predicate AcquiredAt(log: Log, k: nat, t: Tid, m: Mutex, i: nat)
    requires k <= |log|
  {
    i < k && log[i] == Lock(t, m) && forall j | i < j < k :: !IsLockOp(log[j], t, m)
  }

  ghost predicate HeldAt(log: Log, k: nat, t: Tid, m: Mutex)
    requires k <= |log|
  {
    exists i: nat :: AcquiredAt(log, k, t, m, i)
  }

  /** `t` holds `m` at `i` and neither takes nor drops it before `k`. */
  ghost predicate HeldThroughout(log: Log, i: nat, k: nat, t: Tid, m: Mutex)
    requires i <= k <= |log|
  {
    HeldAt(log, i, t, m) && forall j | i <= j < k :: !IsLockOp(log[j], t, m)
  }

  function Acquisitions(log: Log, k: nat, t: Tid): nat
    requires k <= |log|
  {
    if k == 0 then 0 else
      Acquisitions(log, k - 1, t) + if log[k - 1].Lock? && log[k - 1].tid == t then 1 else 0
  }

  // ------------------------------------------------------------------ theorems

  /** The timed lockset holds exactly the locks held, stamped with the acquisition's number. */
  lemma {:induction false} LocksAreHistory(log: Log, k: nat, t: Tid, m: Mutex)
    requires k <= |log|
    ensures m in LocksAt(log, k, t).held <==> HeldAt(log, k, t, m)
    ensures forall i: nat | AcquiredAt(log, k, t, m, i) ::
              m in LocksAt(log, k, t).held && LocksAt(log, k, t).held[m] == Acquisitions(log, i, t) % 0x1_0000_0000
    ensures LocksAt(log, k, t).next == Acquisitions(log, k, t) % 0x1_0000_0000
  {
    if k > 0 {
      LocksAreHistory(log, k - 1, t, m);
      var e := log[k - 1];
      if e == Lock(t, m) {
        assert AcquiredAt(log, k, t, m, k - 1);
        assert forall i: nat | AcquiredAt(log, k, t, m, i) :: i == k - 1;
      } else if e != Unlock(t, m) {
        assert forall i: nat :: AcquiredAt(log, k, t, m, i) <==> AcquiredAt(log, k - 1, t, m, i);
        assert HeldAt(log, k - 1, t, m) ==> HeldAt(log, k, t, m) by {
          if HeldAt(log, k - 1, t, m) {
            var i: nat :| AcquiredAt(log, k - 1, t, m, i);
            assert AcquiredAt(log, k, t, m, i);
          }
        }
        assert m in LocksAt(log, k, t).held ==> LocksAt(log, k, t).held[m] == LocksAt(log, k - 1, t).held[m];
      } else {
        assert forall i: nat :: !AcquiredAt(log, k, t, m, i);
      }
      NextWraps(Acquisitions(log, k - 1, t));
    }
  }

  lemma NextWraps(n: nat)
    ensures (n % TIMESTAMPS + 1) % TIMESTAMPS == (n + 1) % TIMESTAMPS
  {
  }

  lemma {:induction false} AcquisitionsGrow(log: Log, i: nat, k: nat, t: Tid)
    requires i <= k <= |log|
    ensures Acquisitions(log, i, t) <= Acquisitions(log, k, t)
    ensures i < k && log[i].Lock? && log[i].tid == t ==> Acquisitions(log, i, t) < Acquisitions(log, k, t)
    decreases k
  {
    if i < k {
      AcquisitionsGrow(log, i, k - 1, t);
    }
  }

  /** `m` was taken again after `i`, and its new timestamp wrapped onto the old one. */
  ghost predicate Wrapped(log: Log, i: nat, k: nat, t: Tid, m: Mutex)
    requires i <= k <= |log|
  {
    exists p: nat, q: nat :: AcquiredAt(log, i, t, m, p) && AcquiredAt(log, k, t, m, q) && i <= q
                             && Acquisitions(log, p, t) % 0x1_0000_0000 == Acquisitions(log, q, t) % 0x1_0000_0000
  }

  /** For every history: a lock is common to `i` and `k` iff it was held throughout, or its timestamp wrapped. */
  lemma CommonIsThroughoutOrWrapped(log: Log, i: nat, k: nat, t: Tid, m: Mutex)
    requires i <= k <= |log|
    ensures m in Common(LocksAt(log, i, t).held, LocksAt(log, k, t).held)
            <==> HeldThroughout(log, i, k, t, m) || Wrapped(log, i, k, t, m)
  {
    LocksAreHistory(log, i, t, m);
    LocksAreHistory(log, k, t, m);
    if m in Common(LocksAt(log, i, t).held, LocksAt(log, k, t).held) {
      var p: nat :| AcquiredAt(log, i, t, m, p);
      var q: nat :| AcquiredAt(log, k, t, m, q);
      if q < i {
        assert p == q by { assert AcquiredAt(log, i, t, m, q); }
      }
    }
    if HeldThroughout(log, i, k, t, m) {
      var p: nat :| AcquiredAt(log, i, t, m, p);
      assert AcquiredAt(log, k, t, m, p);
    }
  }

  /**
   * The effective lockset: as long as the 32-bit counter has not come round, the
   * intersection is exactly the locks held from `i` to `k` without a break.
   */
  lemma CommonIsHeldThroughout(log: Log, i: nat, k: nat, t: Tid, m: Mutex)
    requires i <= k <= |log| && Acquisitions(log, k, t) <= 0x1_0000_0000
    ensures m in Common(LocksAt(log, i, t).held, LocksAt(log, k, t).held) <==> HeldThroughout(log, i, k, t, m)
  {
    CommonIsThroughoutOrWrapped(log, i, k, t, m);
    forall p: nat, q: nat | AcquiredAt(log, i, t, m, p) && AcquiredAt(log, k, t, m, q) && i <= q
      ensures Acquisitions(log, p, t) % TIMESTAMPS != Acquisitions(log, q, t) % TIMESTAMPS
    {
      TimestampsDiffer(log, k, t, p, q);
    }
  }

  lemma TimestampsDiffer(log: Log, k: nat, t: Tid, p: nat, q: nat)
    requires p < q < k <= |log| && Acquisitions(log, k, t) <= TIMESTAMPS
    requires log[p].Lock? && log[p].tid == t && log[q].Lock? && log[q].tid == t
    ensures Acquisitions(log, p, t) % TIMESTAMPS != Acquisitions(log, q, t) % TIMESTAMPS
  {
    AcquisitionsGrow(log, p, q, t);
    AcquisitionsGrow(log, q, k, t);
    BelowDoesNotWrap(Acquisitions(log, p, t));
    BelowDoesNotWrap(Acquisitions(log, q, t));
  }

  lemma BelowDoesNotWrap(n: nat)
    requires n < TIMESTAMPS
    ensures n % TIMESTAMPS == n
  {
  }

  /** The bound is needed: taken 2^32 times more, a lock looks as if it had never been touched. */
  lemma CounterComesRound()
    ensures var log: Log := seq(0x1_0000_0001, _ => Lock(0, Ordinary(0)));
            && Ordinary(0) in Common(LocksAt(log, 1, 0).held, LocksAt(log, 0x1_0000_0001, 0).held)
            && !HeldThroughout(log, 1, 0x1_0000_0001, 0, Ordinary(0))
  {
    var m := Ordinary(0);
    var log: Log := seq(TIMESTAMPS + 1, _ => Lock(0, m));
    AllAcquisitions(log, 0, 0);
    AllAcquisitions(log, TIMESTAMPS, 0);
    assert AcquiredAt(log, 1, 0, m, 0);
    assert AcquiredAt(log, TIMESTAMPS + 1, 0, m, TIMESTAMPS);
    assert Wrapped(log, 1, TIMESTAMPS + 1, 0, m);
    CommonIsThroughoutOrWrapped(log, 1, TIMESTAMPS + 1, 0, m);
    assert IsLockOp(log[1], 0, m);
  }

  lemma {:induction false} AllAcquisitions(log: Log, k: nat, t: Tid)
    requires k <= |log| && forall j | 0 <= j < k :: log[j].Lock? && log[j].tid == t
    ensures Acquisitions(log, k, t) == k
    decreases k
  {
    if k > 0 {
      AllAcquisitions(log, k - 1, t);
    }
  }

  /** A shorter window can only keep more locks: the recorded set is part of both plain locksets. */
  lemma CommonIsContained(a: map<Mutex, nat>, b: map<Mutex, nat>)
    ensures Common(a, b) == Common(b, a)
    ensures Common(a, b) <= a.Keys * b.Keys
  {
  }
}
