/**
 * Vector clocks decide happens-before exactly, event by event and epoch by epoch, and
 * they do so exactly when every hand-off of a creator clock is timely.
 */
module Exactness {
  import opened Events
  import opened HappensBefore
  import opened VectorClocks

  /** What `y` knows once it is over covers the epoch of `x` exactly when `x` happens before `y`. */
  lemma KnownIsBefore(log: Log, x: nat, y: nat)
    requires WellFormed(log) && x < |log| && y < |log| && log[x].tid != log[y].tid
    ensures Leq(Source(log, x), After(log, y)) <==> Precedes(log, x, y)
  {
    EntryIsHappensBefore(log, x, y);
    if Precedes(log, x, y) {
      ClockGrowsAlong(log, x, y);
    }
  }

  // ------------------------------------------------------------------- epochs

  /** `y` pushed a clock, and `x` is an event of the epoch that began there. */
  ghost predicate InEpoch(log: Log, y: nat, x: nat) {
    && y <= x < |log| && PushesClock(log[y]) && log[x].tid == log[y].tid
    && (x == y <==> log[x].Init?)
    && forall j | y < j < x && log[j].tid == log[y].tid :: !PushesClock(log[j])
  }

  /** The event that opened the epoch of `x`: the thread's latest push before it; a start opens its own. */
  function OpenerOf(log: Log, x: nat): int
    requires x < |log|
  {
    if log[x].Init? then x else LastPush(log, x, log[x].tid)
  }

  function LastPush(log: Log, k: nat, t: Tid): (z: int)
    requires k <= |log|
    ensures -1 <= z < k && (z >= 0 ==> log[z].tid == t && PushesClock(log[z]))
    ensures forall j | z < j < k && log[j].tid == t :: !PushesClock(log[j])
  {
    if k == 0 then -1
    else if log[k - 1].tid == t && PushesClock(log[k - 1]) then k - 1
    else LastPush(log, k - 1, t)
  }

  lemma EveryEventHasEpoch(log: Log, x: nat)
    requires ThreadsLive(log) && x < |log|
    ensures OpenerOf(log, x) >= 0 && InEpoch(log, OpenerOf(log, x), x)
  {
    if !log[x].Init? {
      ActsStarted(log, x);
      var i: nat :| i < x && log[i] == Init(log[x].tid);
    }
  }

  lemma {:induction false} NoPushNoChange(log: Log, j: nat, k: nat, t: Tid)
    requires j <= k <= |log| && forall i | j <= i < k && log[i].tid == t :: !PushesClock(log[i])
    ensures ClocksAt(log, k, t) == ClocksAt(log, j, t)
    decreases k
  {
    if j < k {
      NoPushNoChange(log, j, k - 1, t);
    }
  }

  /** The clock of an event is the one its epoch was opened with. */
  lemma EpochHasOneClock(log: Log, y: nat, x: nat)
    requires InEpoch(log, y, x)
    ensures Source(log, x) == After(log, y)
  {
    if y < x {
      NoPushNoChange(log, y + 1, x, log[y].tid);
      assert Current(log, x, log[y].tid) == Current(log, y + 1, log[y].tid);
    }
  }

  // --------------------------------------------------------------- event by event

  /** For an event that learns nothing as it happens, its opener and itself follow the same events. */
  lemma OpenerKnows(log: Log, x: nat, y: nat)
    requires WellFormed(log) && x < |log| && y < |log| && log[x].tid != log[y].tid && !log[y].Join?
    ensures Leq(Source(log, x), Source(log, y)) <==> Precedes(log, x, y)
  {
    if log[y].Init? {
      KnownIsBefore(log, x, y);
    } else {
      StepClock(log, y);
      EntryIsHappensBefore(log, x, y);
      if Precedes(log, x, y) {
        ClockGrowsAlong(log, x, y);
      }
    }
  }

  /**
   * Vector clocks are exact, for any two events of different threads: one's clock is below
   * the other's exactly when it happens before the event that opened the other's epoch,
   * and they are incomparable exactly when neither does. Only a join differs from its
   * opener here: it learns of other threads while its own epoch ends.
   */
  lemma ClocksAreExact(log: Log, x: nat, y: nat)
    requires WellFormed(log) && x < |log| && y < |log| && log[x].tid != log[y].tid
    ensures OpenerOf(log, x) >= 0 && OpenerOf(log, y) >= 0
    ensures Leq(Source(log, x), Source(log, y)) <==> Precedes(log, x, OpenerOf(log, y))
    ensures Incomparable(Source(log, x), Source(log, y))
            <==> !Precedes(log, x, OpenerOf(log, y)) && !Precedes(log, y, OpenerOf(log, x))
    ensures !log[y].Join? ==> (Precedes(log, x, OpenerOf(log, y)) <==> Precedes(log, x, y))
    ensures !log[x].Join? ==> (Precedes(log, y, OpenerOf(log, x)) <==> Precedes(log, y, x))
  {
    BelowIsBeforeOpener(log, x, y);
    BelowIsBeforeOpener(log, y, x);
  }

  lemma BelowIsBeforeOpener(log: Log, x: nat, y: nat)
    requires WellFormed(log) && x < |log| && y < |log| && log[x].tid != log[y].tid
    ensures OpenerOf(log, y) >= 0
    ensures Leq(Source(log, x), Source(log, y)) <==> Precedes(log, x, OpenerOf(log, y))
    ensures !log[y].Join? ==> (Precedes(log, x, OpenerOf(log, y)) <==> Precedes(log, x, y))
  {
    EveryEventHasEpoch(log, y);
    EpochHasOneClock(log, OpenerOf(log, y), y);
    KnownIsBefore(log, x, OpenerOf(log, y));
    if !log[y].Join? {
      OpenerKnows(log, x, y);
    }
  }

  // --------------------------------------------------------------- epoch by epoch

  /** Some event of the epoch opened at `y1`, or the exit that opened it, happens before `y2`. */
  ghost predicate EpochReaches(log: Log, y1: nat, y2: nat)
    requires y1 < |log|
  {
    (exists x :: InEpoch(log, y1, x) && Precedes(log, x, y2)) || (log[y1].Exit? && Precedes(log, y1, y2))
  }

  /** Nothing outlives an exit, so its clock travels on with the joins. */
  lemma {:induction false} ExitGrowsAlong(log: Log, x: nat, y: nat)
    requires WellFormed(log) && x < y < |log| && log[x].Exit? && Precedes(log, x, y)
    ensures Leq(After(log, x), After(log, y))
    ensures !log[y].Init? && !log[y].Join? ==> Leq(After(log, x), Source(log, y))
    decreases y
  {
    var z: nat :| z < y && Edge(log, z, y) && Precedes(log, x, z);
    ClockGrowsOverEdge(log, z, y);
    if z == x {
      if log[x].tid == log[y].tid {
        LivesOnce(log, x, y);
      }
    } else {
      ForwardOnly(log, x, z);
      ExitGrowsAlong(log, x, z);
      if log[z].tid == log[y].tid {
        LeqTransitive(After(log, x), After(log, z), Source(log, y));
        LeqTransitive(After(log, x), After(log, z), After(log, y));
      } else if CreateEdge(log, z, y) {
        LeqTransitive(After(log, x), Source(log, z), After(log, y));
      } else {
        LeqTransitive(After(log, x), After(log, z), After(log, y));
      }
    }
  }

  lemma ExitReaches(log: Log, y1: nat, y2: nat)
    requires WellFormed(log) && y1 < |log| && y2 < |log| && log[y1].tid != log[y2].tid && log[y1].Exit?
    ensures Leq(After(log, y1), After(log, y2)) <==> Precedes(log, y1, y2)
  {
    KnownIsBefore(log, y1, y2);
    if Leq(After(log, y1), After(log, y2)) {
      StepClock(log, y1);
      LeqTransitive(Source(log, y1), After(log, y1), After(log, y2));
    }
    if Precedes(log, y1, y2) {
      ForwardOnly(log, y1, y2);
      ExitGrowsAlong(log, y1, y2);
    }
  }

  /** What a thread knows of another was handed out by a create or exit of the other. */
  ghost predicate HandedOut(log: Log, t: Tid, w: nat, entry: nat) {
    w < |log| && log[w].tid == t && (log[w].Create? || log[w].Exit?) && entry <= Stamp(log, w) + 1
  }

  lemma {:induction false} EntryWasHandedOut(log: Log, y: nat, t: Tid)
    requires ThreadsLive(log) && y < |log| && log[y].tid != t
    ensures Get(After(log, y), t) == 0 || exists w: nat :: HandedOut(log, t, w, Get(After(log, y), t))
    decreases y
  {
    if log[y].Init? {
      InitClock(log, y);
      CreatorIsLast(log, y);
      var z := LastCreate(log, y);
      if z >= 0 {
        HandedThrough(log, z, t);
      }
    } else {
      var p := Previous(log, y);
      EntryWasHandedOut(log, p, t);
      StepClock(log, y);
      if log[y].Join? {
        ExitIsLast(log, y, log[y].other);
        var z := LastExit(log, y, log[y].other);
        if z >= 0 {
          HandedThrough(log, z, t);
        }
      }
    }
  }

  /** The clock a create or exit hands out: its own entry is its stamp and one more, the others are older. */
  lemma {:induction false} HandedThrough(log: Log, z: nat, t: Tid)
    requires ThreadsLive(log) && z < |log| && (log[z].Create? || log[z].Exit?)
    ensures var entry := Get(Ticked(Current(log, z, log[z].tid), log[z].tid), t);
            entry == 0 || exists w: nat :: HandedOut(log, t, w, entry)
    decreases z, 1
  {
    if log[z].tid == t {
      assert HandedOut(log, t, z, Stamp(log, z) + 1);
    } else {
      var p := Previous(log, z);
      EntryWasHandedOut(log, p, t);
    }
  }

  /** An epoch without events, and not opened by an exit, is known to nobody else. */
  lemma EmptyEpochIsUnknown(log: Log, y1: nat, y2: nat)
    requires ThreadsLive(log) && y1 < |log| && y2 < |log| && log[y1].tid != log[y2].tid
    requires (log[y1].Create? || log[y1].Join?) && forall x | y1 < x < |log| :: log[x].tid != log[y1].tid
    ensures !Leq(After(log, y1), After(log, y2))
  {
    var t := log[y1].tid;
    StampPositive(log, y1);
    StepClock(log, y1);
    OwnEntryGrows(log, y1);
    EntryWasHandedOut(log, y2, t);
    if Get(After(log, y2), t) != 0 {
      var w: nat :| HandedOut(log, t, w, Get(After(log, y2), t));
      if w < y1 {
        LivesOnce(log, w, y1);
        ThreadClocksGrow(log, w, y1);
        StepClock(log, w);
        assert Get(After(log, w), t) <= Stamp(log, y1);
      }
    }
    assert Get(After(log, y1), t) > Get(After(log, y2), t);
  }

  /** A create adds two to its thread's own entry, a join at least one. */
  lemma OwnEntryGrows(log: Log, y: nat)
    requires ThreadsLive(log) && y < |log| && (log[y].Create? || log[y].Join?)
    ensures Get(After(log, y), log[y].tid) >= Stamp(log, y) + if log[y].Create? then 2 else 1
  {
    StepClock(log, y);
  }

  function NextOf(log: Log, k: nat, t: Tid): (x: nat)
    requires k <= |log|
    ensures k <= x <= |log| && (x < |log| ==> log[x].tid == t)
    ensures forall j | k <= j < x :: log[j].tid != t
    decreases |log| - k
  {
    if k == |log| || log[k].tid == t then k else NextOf(log, k + 1, t)
  }

  /**
   * The same for epochs: the clocks that opened any two epochs of different threads are
   * ordered exactly when the one epoch reaches the other, and incomparable exactly when
   * neither does.
   */
  lemma EpochsAreExact(log: Log, y1: nat, y2: nat)
    requires WellFormed(log) && y1 < |log| && y2 < |log| && log[y1].tid != log[y2].tid
    requires PushesClock(log[y1]) && PushesClock(log[y2])
    ensures Leq(After(log, y1), After(log, y2)) <==> EpochReaches(log, y1, y2)
    ensures Incomparable(After(log, y1), After(log, y2)) <==> !EpochReaches(log, y1, y2) && !EpochReaches(log, y2, y1)
  {
    EpochIsExact(log, y1, y2);
    EpochIsExact(log, y2, y1);
  }

  lemma EpochIsExact(log: Log, y1: nat, y2: nat)
    requires WellFormed(log) && y1 < |log| && y2 < |log| && log[y1].tid != log[y2].tid && PushesClock(log[y1])
    ensures Leq(After(log, y1), After(log, y2)) <==> EpochReaches(log, y1, y2)
  {
    forall x | InEpoch(log, y1, x)
      ensures Leq(After(log, y1), After(log, y2)) <==> Precedes(log, x, y2)
    {
      EpochHasOneClock(log, y1, x);
      KnownIsBefore(log, x, y2);
    }
    if log[y1].Exit? {
      ExitReaches(log, y1, y2);
    } else if log[y1].Init? {
      assert InEpoch(log, y1, y1);
    } else {
      var x := NextOf(log, y1 + 1, log[y1].tid);
      if x < |log| {
        LivesOnce(log, y1, x);
        assert InEpoch(log, y1, x);
      } else {
        EmptyEpochIsUnknown(log, y1, y2);
      }
    }
  }

  // ------------------------------------------- exact exactly when hand-offs are timely

  ghost predicate Exact(log: Log) {
    forall x: nat, y: nat | x < |log| && y < |log| && log[x].tid != log[y].tid ::
      Leq(Source(log, x), After(log, y)) <==> Precedes(log, x, y)
  }

  /** The same, said of the one entry that happens-before is read from. */
  ghost predicate EntriesExact(log: Log) {
    forall x: nat, y: nat | x < |log| && y < |log| && log[x].tid != log[y].tid ::
      Stamp(log, x) <= Get(After(log, y), log[x].tid) <==> Precedes(log, x, y)
  }

  /** A late reader learns of a create that is not its own, and does not follow. */
  lemma LateHandOffMisorders(log: Log, y: nat)
    requires ThreadsLive(log) && y < |log| && log[y].Init? && !HandedOff(log, y)
    ensures LastCreate(log, y) >= 0 && log[LastCreate(log, y)].tid != log[y].tid
    ensures Leq(Source(log, LastCreate(log, y)), After(log, y)) && !Precedes(log, LastCreate(log, y), y)
  {
    var z := LastCreate(log, y);
    if log[z].tid == log[y].tid {
      LivesOnce(log, z, y);
    }
    InitClock(log, y);
    CreatorIsLast(log, y);
    assert Leq(Source(log, z), After(log, y));
    if Precedes(log, z, y) {
      var w: nat :| w < y && Edge(log, w, y) && Precedes(log, z, w);
      IntoInit(log, w, y);
      ForwardOnly(log, z, w);
    }
  }

  /**
   * For every run whose threads start once and stop at their exit, the clocks decide
   * happens-before if and only if every starting thread reads its creator's clock in time.
   */
  lemma ExactIffHandOffsAreTimely(log: Log)
    requires ThreadsLive(log)
    ensures Exact(log) <==> HandOffsAreTimely(log)
    ensures EntriesExact(log) <==> HandOffsAreTimely(log)
  {
    if HandOffsAreTimely(log) {
      forall x: nat, y: nat | x < |log| && y < |log| && log[x].tid != log[y].tid
        ensures Leq(Source(log, x), After(log, y)) <==> Precedes(log, x, y)
        ensures Stamp(log, x) <= Get(After(log, y), log[x].tid) <==> Precedes(log, x, y)
      {
        KnownIsBefore(log, x, y);
        EntryIsHappensBefore(log, x, y);
      }
    } else {
      var y: nat :| y < |log| && log[y].Init? && !HandedOff(log, y);
      LateHandOffMisorders(log, y);
    }
  }
}
