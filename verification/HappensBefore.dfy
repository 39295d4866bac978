/**
 * The fork/join vector clocks of a whole run, and the proof that they decide
 * happens-before exactly.
 *
 * `ClocksAt(log, k, t)` is the vector of clocks thread `t` has pushed before
 * event `k`; `Precedes` is defined on the log alone, from program order,
 * create edges and join edges.
 */
module HappensBefore {
  import opened Events
  import opened VectorClocks

  // ---------------------------------------------------------------- the clocks

  function ClocksAt(log: Log, k: nat, t: Tid): seq<Clock>
    requires k <= |log|
    decreases k, 1
  {
    if k == 0 then [] else
      var before := ClocksAt(log, k - 1, t);
      var e := log[k - 1];
      if e.tid != t || !PushesClock(e) then before else
        before + [Pushed(log, k - 1)]
  }

  /** The clock that event `k` pushes: a double tick at create and init, one tick at join and exit. */
  function Pushed(log: Log, k: nat): Clock
    requires k < |log| && PushesClock(log[k])
    decreases k, 3
  {
    var t := log[k].tid;
    match log[k]
    case Create(_, _) => Ticked(Ticked(Current(log, k, t), t), t)
    case Init(_) => Ticked(Ticked(CreatorAt(log, k), t), t)
    case Join(_, other) => Merged(Ticked(Current(log, k, t), t), ExitAt(log, k, other))
    case Exit(_) => Ticked(Current(log, k, t), t)
  }

  function Current(log: Log, k: nat, t: Tid): Clock
    requires k <= |log|
    decreases k, 2
  {
    var clocks := ClocksAt(log, k, t);
    if clocks == [] then map[] else Last(clocks)
  }

  /** The global hand-off clock: what the last create left behind, between its two ticks. */
  function CreatorAt(log: Log, k: nat): Clock
    requires k <= |log|
    decreases k, 0
  {
    if k == 0 then map[]
    else if log[k - 1].Create? then Ticked(Current(log, k - 1, log[k - 1].tid), log[k - 1].tid)
    else CreatorAt(log, k - 1)
  }

  /** The clock recorded at the exit of `u`; joining before that merges an empty clock. */
  function ExitAt(log: Log, k: nat, u: Tid): Clock
    requires k <= |log|
    decreases k, 0
  {
    if k == 0 then map[]
    else if log[k - 1] == Exit(u) then Ticked(Current(log, k - 1, u), u)
    else ExitAt(log, k - 1, u)
  }

  // ------------------------------------------------------------ happens-before

  /** `z` is the create that started the thread whose first event is `y`. */
  ghost predicate CreateEdge(log: Log, z: nat, y: nat) {
    && z < y < |log| && log[y].Init? && log[z].Create? && log[z].child == log[y].tid
    && forall j | z < j < y :: !(log[j].Create? && log[j].child == log[y].tid)
  }

  ghost predicate JoinEdge(log: Log, z: nat, y: nat) {
    z < y < |log| && log[y].Join? && log[z] == Exit(log[y].other)
  }

  ghost predicate Edge(log: Log, z: nat, y: nat) {
    && z < y < |log|
    && (log[z].tid == log[y].tid || CreateEdge(log, z, y) || JoinEdge(log, z, y))
  }

  ghost predicate Precedes(log: Log, x: nat, y: nat)
    decreases y
  {
    x == y || exists z: nat | z < y :: Edge(log, z, y) && Precedes(log, x, z)
  }

  /**
   * What the threading library guarantees of a run: a thread acts only between its one
   * start and its exit. Quantified so that callers carry it whole.
   */
  ghost predicate ThreadsLive(log: Log) {
    forall r {:trigger ThreadsBehave(r)} | r == log :: ThreadsBehave(r)
  }

  ghost predicate ThreadsBehave(log: Log) {
    && (forall y: nat | y < |log| && !log[y].Init? :: Started(log, y, log[y].tid))
    && (forall x: nat, y: nat | x < y < |log| && log[x].tid == log[y].tid :: !log[y].Init? && !log[x].Exit?)
  }

  /** A starting thread reads the hand-off clock before the next create overwrites it. */
  ghost predicate HandOffsAreTimely(log: Log) {
    forall y: nat | y < |log| && log[y].Init? :: HandedOff(log, y)
  }

  ghost predicate WellFormed(log: Log) {
    ThreadsLive(log) && HandOffsAreTimely(log)
  }

  lemma ActsStarted(log: Log, y: nat)
    requires ThreadsLive(log) && y < |log| && !log[y].Init?
    ensures Started(log, y, log[y].tid)
  {
    assert ThreadsBehave(log);
  }

  lemma LivesOnce(log: Log, x: nat, y: nat)
    requires ThreadsLive(log) && x < y < |log| && log[x].tid == log[y].tid
    ensures !log[y].Init? && !log[x].Exit?
  {
    assert ThreadsBehave(log);
  }

  ghost predicate Started(log: Log, k: nat, t: Tid)
    requires k <= |log|
  {
    exists x: nat :: x < k && log[x] == Init(t)
  }

  ghost predicate HandedOff(log: Log, y: nat)
    requires y < |log|
  {
    forall z: nat | z < y && LastCreate(log, y) == z :: log[z].child == log[y].tid
  }

  // ------------------------------------------- the latest event of some kind

  function LastOf(log: Log, k: nat, t: Tid): int
    requires k <= |log|
  {
    if k == 0 then -1 else if log[k - 1].tid == t then k - 1 else LastOf(log, k - 1, t)
  }

  function LastCreate(log: Log, k: nat): (z: int)
    requires k <= |log|
    ensures -1 <= z < k && (z >= 0 ==> log[z].Create?)
    ensures forall j | z < j < k :: !log[j].Create?
  {
    if k == 0 then -1 else if log[k - 1].Create? then k - 1 else LastCreate(log, k - 1)
  }

  function LastExit(log: Log, k: nat, u: Tid): (z: int)
    requires k <= |log|
    ensures -1 <= z < k && (z >= 0 ==> log[z] == Exit(u))
    ensures forall j | z < j < k :: log[j] != Exit(u)
  {
    if k == 0 then -1 else if log[k - 1] == Exit(u) then k - 1 else LastExit(log, k - 1, u)
  }

  lemma {:induction false} LastOfIsLast(log: Log, k: nat, t: Tid)
    requires k <= |log|
    ensures var z := LastOf(log, k, t);
            && -1 <= z < k
            && (forall j | z < j < k :: log[j].tid != t)
            && (z >= 0 ==> log[z].tid == t && ClocksAt(log, k, t) == ClocksAt(log, z + 1, t))
            && (z < 0 ==> ClocksAt(log, k, t) == [])
  {
    if k > 0 && log[k - 1].tid != t {
      LastOfIsLast(log, k - 1, t);
    }
  }

  lemma {:induction false} CreatorIsLast(log: Log, k: nat)
    requires k <= |log|
    ensures var z := LastCreate(log, k);
            CreatorAt(log, k) == if z < 0 then map[] else Ticked(Current(log, z, log[z].tid), log[z].tid)
  {
    if k > 0 && !log[k - 1].Create? {
      CreatorIsLast(log, k - 1);
    }
  }

  lemma {:induction false} ExitIsLast(log: Log, k: nat, u: Tid)
    requires k <= |log|
    ensures var z := LastExit(log, k, u);
            ExitAt(log, k, u) == if z < 0 then map[] else Ticked(Current(log, z, u), u)
  {
    if k > 0 && log[k - 1] != Exit(u) {
      ExitIsLast(log, k - 1, u);
    }
  }

  // ------------------------------------------------------ clocks of one thread

  /** The clock in force right after event `y`, on its own thread. */
  function After(log: Log, y: nat): Clock
    requires y < |log|
  {
    Current(log, y + 1, log[y].tid)
  }

  /** The clock of the epoch event `x` happens in; an init opens its own. */
  function Source(log: Log, x: nat): Clock
    requires x < |log|
  {
    if log[x].Init? then After(log, x) else Current(log, x, log[x].tid)
  }

  function Stamp(log: Log, x: nat): nat
    requires x < |log|
  {
    Get(Source(log, x), log[x].tid)
  }

  lemma {:induction false} StartedHasClocks(log: Log, k: nat, t: Tid)
    requires k <= |log| && Started(log, k, t)
    ensures ClocksAt(log, k, t) != []
  {
    var x: nat :| x < k && log[x] == Init(t);
    if x < k - 1 {
      StartedHasClocks(log, k - 1, t);
    }
  }

  /** The event of the same thread just before a non-init event. */
  lemma Previous(log: Log, y: nat) returns (z: nat)
    requires ThreadsLive(log) && y < |log| && !log[y].Init?
    ensures z < y && log[z].tid == log[y].tid && Edge(log, z, y)
    ensures forall j | z < j < y :: log[j].tid != log[y].tid
    ensures ClocksAt(log, y, log[y].tid) != []
    ensures Source(log, y) == Current(log, y, log[y].tid) == After(log, z)
  {
    var t := log[y].tid;
    ActsStarted(log, y);
    StartedHasClocks(log, y, t);
    LastOfIsLast(log, y, t);
    z := LastOf(log, y, t);
    assert Current(log, y, t) == Current(log, z + 1, t);
  }

  lemma CurrentAfter(log: Log, y: nat)
    requires y < |log|
    ensures After(log, y) == if PushesClock(log[y]) then Pushed(log, y) else Current(log, y, log[y].tid)
  {
    var t := log[y].tid;
    assert ClocksAt(log, y + 1, t) == ClocksAt(log, y, t) + if PushesClock(log[y]) then [Pushed(log, y)] else [];
  }

  /** One event never lowers its thread's clock, and only ticks raise the thread's own entry. */
  lemma StepClock(log: Log, y: nat)
    requires ThreadsLive(log) && y < |log| && !log[y].Init?
    ensures Leq(Source(log, y), After(log, y))
    ensures PushesClock(log[y]) ==> After(log, y) == Pushed(log, y)
    ensures !PushesClock(log[y]) ==> After(log, y) == Source(log, y)
    ensures log[y].Create? ==> Get(After(log, y), log[y].tid) == Stamp(log, y) + 2
    ensures log[y].Exit? ==> Get(After(log, y), log[y].tid) == Stamp(log, y) + 1
  {
    var t := log[y].tid;
    CurrentAfter(log, y);
    var c := Current(log, y, t);
    if log[y].Join? {
      var x := ExitAt(log, y, log[y].other);
      MergedIsLeastUpperBound(Ticked(c, t), x, c);
      LeqTransitive(c, Ticked(c, t), After(log, y));
    }
  }

  lemma {:induction false} InitClock(log: Log, y: nat)
    requires y < |log| && log[y].Init?
    ensures After(log, y) == Pushed(log, y) == Source(log, y)
    ensures Get(After(log, y), log[y].tid) == Get(CreatorAt(log, y), log[y].tid) + 2
  {
    CurrentAfter(log, y);
  }

  lemma {:induction false} ThreadClocksGrow(log: Log, x: nat, y: nat)
    requires ThreadsLive(log) && x < y < |log| && log[x].tid == log[y].tid
    ensures Leq(After(log, x), Source(log, y))
    decreases y
  {
    LivesOnce(log, x, y);
    var z := Previous(log, y);
    if x < z {
      LivesOnce(log, x, z);
      ThreadClocksGrow(log, x, z);
      StepClock(log, z);
      LeqTransitive(After(log, x), Source(log, z), After(log, z));
    }
  }

  lemma {:induction false} StampPositive(log: Log, x: nat)
    requires ThreadsLive(log) && x < |log|
    ensures Stamp(log, x) >= 1
  {
    if !log[x].Init? {
      var t := log[x].tid;
      ActsStarted(log, x);
      var i: nat :| i < x && log[i] == Init(t);
      ThreadClocksGrow(log, i, x);
      InitClock(log, i);
      assert Get(After(log, i), t) <= Get(Source(log, x), t);
    } else {
      InitClock(log, x);
    }
  }

  /** On one thread, what a closing event hands out covers exactly the events up to it. */
  lemma OwnEvents(log: Log, x: nat, w: nat)
    requires ThreadsLive(log) && x < |log| && w < |log|
    requires log[x].tid == log[w].tid && (log[w].Create? || log[w].Exit?)
    ensures x <= w <==> Stamp(log, x) <= Stamp(log, w) + 1
    ensures x <= w <==> Precedes(log, x, w)
  {
    var t := log[x].tid;
    if x < w {
      LivesOnce(log, x, w);
      ThreadClocksGrow(log, x, w);
      assert Get(After(log, x), t) <= Stamp(log, w);
      if !log[x].Init? {
        StepClock(log, x);
        assert Get(Source(log, x), t) <= Get(After(log, x), t);
      }
      assert Edge(log, x, w) && Precedes(log, x, x);
    } else if x > w {
      LivesOnce(log, w, x);
      ThreadClocksGrow(log, w, x);
      StepClock(log, w);
      assert Get(After(log, w), t) <= Stamp(log, x);
      ForwardOnly(log, x, w);
    }
  }

  lemma {:induction false} ForwardOnly(log: Log, x: nat, y: nat)
    ensures Precedes(log, x, y) ==> x <= y
    decreases y
  {
    if x != y && Precedes(log, x, y) {
      var z: nat :| z < y && Edge(log, z, y) && Precedes(log, x, z);
      ForwardOnly(log, x, z);
    }
  }

  // -------------------------------------------------------------- exactness

  /** An ordinary event learns of other threads only through its own previous event. */
  lemma ThroughPrevious(log: Log, x: nat, y: nat, z: nat)
    requires z < y < |log| && log[z].tid == log[y].tid
    requires forall j | z < j < y :: log[j].tid != log[y].tid
    requires x != y
    ensures Precedes(log, x, z) ==> Precedes(log, x, y)
    ensures Precedes(log, x, y) && !log[y].Init? ==>
              Precedes(log, x, z) || exists w: nat | w < y :: JoinEdge(log, w, y) && Precedes(log, x, w)
  {
    if Precedes(log, x, z) {
      assert Edge(log, z, y);
    }
    if Precedes(log, x, y) && !log[y].Init? {
      var w: nat :| w < y && Edge(log, w, y) && Precedes(log, x, w);
      if log[w].tid == log[y].tid && w != z {
        assert Edge(log, w, z);
      }
    }
  }

  /**
   * The heart of the matter: after event `y`, its clock's entry for the thread of `x`
   * has reached `x`'s epoch exactly when `x` happens before `y`.
   */
  lemma {:induction false} EntryIsHappensBefore(log: Log, x: nat, y: nat)
    requires WellFormed(log) && x < |log| && y < |log| && log[x].tid != log[y].tid
    ensures Precedes(log, x, y) <==> Stamp(log, x) <= Get(After(log, y), log[x].tid)
    decreases y
  {
    if log[y].Init? {
      EntryAtInit(log, x, y);
    } else if log[y].Join? {
      EntryAtJoin(log, x, y);
    } else {
      var z := Previous(log, y);
      ThroughPrevious(log, x, y, z);
      StepClock(log, y);
      EntryIsHappensBefore(log, x, z);
    }
  }

  /** A thread's first event has no edge from its own thread. */
  lemma IntoInit(log: Log, z: nat, y: nat)
    requires ThreadsLive(log) && y < |log| && log[y].Init? && Edge(log, z, y)
    ensures CreateEdge(log, z, y)
  {
    if log[z].tid == log[y].tid {
      LivesOnce(log, z, y);
    }
  }

  lemma {:induction false} EntryAtInit(log: Log, x: nat, y: nat)
    requires WellFormed(log) && x < |log| && y < |log| && log[x].tid != log[y].tid && log[y].Init?
    ensures Precedes(log, x, y) <==> Stamp(log, x) <= Get(After(log, y), log[x].tid)
    decreases y, 0
  {
    var w := LastCreate(log, y);
    CreatorIsLast(log, y);
    InitClock(log, y);
    StampPositive(log, x);
    forall z: nat | z < y && Edge(log, z, y)
      ensures CreateEdge(log, z, y)
    {
      IntoInit(log, z, y);
    }
    if w < 0 {
      assert Precedes(log, x, y) ==> exists z: nat | z < y :: Edge(log, z, y);
    } else {
      assert HandedOff(log, y);
      assert CreateEdge(log, w, y) && Edge(log, w, y);
      assert Precedes(log, x, y) <==> Precedes(log, x, w);
      StepClock(log, w);
      if log[x].tid == log[w].tid {
        OwnEvents(log, x, w);
      } else {
        EntryIsHappensBefore(log, x, w);
      }
    }
  }

  lemma {:induction false} EntryAtJoin(log: Log, x: nat, y: nat)
    requires WellFormed(log) && x < |log| && y < |log| && log[x].tid != log[y].tid && log[y].Join?
    ensures Precedes(log, x, y) <==> Stamp(log, x) <= Get(After(log, y), log[x].tid)
    decreases y, 0
  {
    var u, s := log[y].other, log[x].tid;
    var z := Previous(log, y);
    var w := LastExit(log, y, u);
    ExitIsLast(log, y, u);
    StepClock(log, y);
    ThroughPrevious(log, x, y, z);
    StampPositive(log, x);
    EntryIsHappensBefore(log, x, z);
    assert Get(After(log, y), s) == Max(Get(After(log, z), s), Get(ExitAt(log, y, u), s));
    if w >= 0 {
      assert JoinEdge(log, w, y) && Edge(log, w, y);
      StepClock(log, w);
      forall v: nat | v < y && JoinEdge(log, v, y)
        ensures v == w
      {
        OneExit(log, v, w);
      }
      assert Precedes(log, x, y) <==> Precedes(log, x, z) || Precedes(log, x, w);
      if s == u {
        OwnEvents(log, x, w);
      } else {
        EntryIsHappensBefore(log, x, w);
      }
    }
  }

  lemma OneExit(log: Log, v: nat, w: nat)
    requires ThreadsLive(log) && v < |log| && w < |log| && log[v].Exit? && log[w] == log[v]
    ensures v == w
  {
    if v < w {
      LivesOnce(log, v, w);
    } else if w < v {
      LivesOnce(log, w, v);
    }
  }

  /** Each edge carries the source's clock into the target's. */
  lemma ClockGrowsOverEdge(log: Log, z: nat, y: nat)
    requires WellFormed(log) && y < |log| && Edge(log, z, y)
    ensures log[z].tid == log[y].tid ==> Leq(After(log, z), Source(log, y)) && Leq(After(log, z), After(log, y))
    ensures log[z].tid != log[y].tid && CreateEdge(log, z, y) ==> Leq(Source(log, z), After(log, y))
    ensures log[z].tid != log[y].tid && !CreateEdge(log, z, y) ==> log[z].Exit? && Leq(After(log, z), After(log, y))
  {
    if log[z].tid == log[y].tid {
      LivesOnce(log, z, y);
      ThreadClocksGrow(log, z, y);
      StepClock(log, y);
      LeqTransitive(After(log, z), Source(log, y), After(log, y));
    } else if CreateEdge(log, z, y) {
      assert HandedOff(log, y);
      CreatorIsLast(log, y);
      InitClock(log, y);
      assert LastCreate(log, y) == z;
    } else {
      ExitClockFlows(log, z, y);
    }
  }

  lemma ExitClockFlows(log: Log, z: nat, y: nat)
    requires ThreadsLive(log) && y < |log| && JoinEdge(log, z, y)
    ensures Leq(After(log, z), After(log, y))
  {
    ExitIsLast(log, y, log[z].tid);
    OneExit(log, LastExit(log, y, log[z].tid), z);
    CurrentAfter(log, z);
    CurrentAfter(log, y);
    MergedIsLeastUpperBound(Ticked(Current(log, y, log[y].tid), log[y].tid), After(log, z), map[]);
  }

  /** Along happens-before the whole clock grows, not just one entry. */
  lemma {:induction false} ClockGrowsAlong(log: Log, x: nat, y: nat)
    requires WellFormed(log) && x < |log| && y < |log| && Precedes(log, x, y)
    ensures Leq(Source(log, x), After(log, y))
    ensures x != y && !log[y].Init? && !log[y].Join? ==> Leq(Source(log, x), Source(log, y))
    decreases y
  {
    if x == y {
      if !log[y].Init? {
        StepClock(log, y);
      }
    } else {
      var z: nat :| z < y && Edge(log, z, y) && Precedes(log, x, z);
      ClockGrowsAlong(log, x, z);
      ClockGrowsOverEdge(log, z, y);
      if log[z].tid == log[y].tid {
        LeqTransitive(Source(log, x), After(log, z), Source(log, y));
        LeqTransitive(Source(log, x), After(log, z), After(log, y));
      } else if CreateEdge(log, z, y) {
        LeqTransitive(Source(log, x), Source(log, z), After(log, y));
      } else {
        LeqTransitive(Source(log, x), After(log, z), After(log, y));
      }
    }
  }

  // ------------------------------------------------ clocks as stored by index

  /** Number of the epoch thread `t` is in before event `k`. */
  function EpochAt(log: Log, k: nat, t: Tid): int
    requires k <= |log|
  {
    |ClocksAt(log, k, t)| - 1
  }

  lemma {:induction false} ClocksOnlyGrow(log: Log, k: nat, n: nat, t: Tid)
    requires k <= n <= |log|
    ensures ClocksAt(log, k, t) <= ClocksAt(log, n, t)
    decreases n
  {
    if k < n {
      ClocksOnlyGrow(log, k, n - 1, t);
    }
  }

  /** The epoch number recorded at an access still names its clock at the end of the run. */
  lemma EpochNamesClock(log: Log, k: nat)
    requires k < |log| && !log[k].Init? && Started(log, k, log[k].tid)
    ensures 0 <= EpochAt(log, k, log[k].tid) < |ClocksAt(log, |log|, log[k].tid)|
    ensures ClocksAt(log, |log|, log[k].tid)[EpochAt(log, k, log[k].tid)] == Source(log, k)
  {
    var t := log[k].tid;
    var clocks, final := ClocksAt(log, k, t), ClocksAt(log, |log|, t);
    assert clocks != [] by { StartedHasClocks(log, k, t); }
    assert clocks <= final by { ClocksOnlyGrow(log, k, |log|, t); }
  }

  lemma PushedPositive(log: Log, k: nat)
    requires k < |log| && PushesClock(log[k])
    requires Positive(Current(log, k, log[k].tid)) && Positive(CreatorAt(log, k))
    requires log[k].Join? ==> Positive(ExitAt(log, k, log[k].other))
    ensures Positive(Pushed(log, k))
  {
    var c, t := Current(log, k, log[k].tid), log[k].tid;
    if log[k].Join? {
      MergedIsLeastUpperBound(Ticked(c, t), ExitAt(log, k, log[k].other), map[]);
    }
  }

  lemma {:induction false} ClocksPositive(log: Log, k: nat, t: Tid)
    requires k <= |log|
    ensures forall c | c in ClocksAt(log, k, t) :: Positive(c)
    ensures Positive(CreatorAt(log, k)) && Positive(ExitAt(log, k, t))
    decreases k
  {
    if k > 0 {
      var e := log[k - 1];
      ClocksPositive(log, k - 1, t);
      ClocksPositive(log, k - 1, e.tid);
      assert Positive(Current(log, k - 1, e.tid));
      if PushesClock(e) {
        if e.Join? {
          ClocksPositive(log, k - 1, e.other);
        }
        PushedPositive(log, k - 1);
      }
    }
  }

  /** Each pushed clock has a larger entry for its own thread than the one before. */
  lemma {:induction false} OwnEntriesGrow(log: Log, k: nat, t: Tid)
    requires ThreadsLive(log) && k <= |log|
    ensures forall i, j | 0 <= i < j < |ClocksAt(log, k, t)| ::
          Get(ClocksAt(log, k, t)[i], t) < Get(ClocksAt(log, k, t)[j], t)
  {
    if k > 0 {
      OwnEntriesGrow(log, k - 1, t);
      var e, before := log[k - 1], ClocksAt(log, k - 1, t);
      if e.tid == t && PushesClock(e) && before != [] {
        if e.Init? {
          LastOfIsLast(log, k - 1, t);
          LivesOnce(log, LastOf(log, k - 1, t), k - 1);
        }
        assert Get(Last(before), t) < Get(Pushed(log, k - 1), t);
        assert forall i | 0 <= i < |before| :: Get(before[i], t) <= Get(Last(before), t);
      }
    }
  }
}
