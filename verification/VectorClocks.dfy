/** Vector clocks: the in-place structure of the detector and the order it decides. */
module VectorClocks {
  import opened Events

  type Clock = map<Tid, nat>

  /** A clock read as a total function: a missing entry counts as zero. */
  function Get(c: Clock, t: Tid): nat {
    if t in c then c[t] else 0
  }

  function Ticked(c: Clock, t: Tid): Clock {
    c[t := Get(c, t) + 1]
  }

  function Max(a: nat, b: nat): nat {
    if a < b then b else a
  }

  function Merged(a: Clock, b: Clock): Clock {
    map t | t in a.Keys + b.Keys :: Max(Get(a, t), Get(b, t))
  }

  ghost predicate Leq(a: Clock, b: Clock) {
    forall t :: Get(a, t) <= Get(b, t)
  }

  ghost predicate Incomparable(a: Clock, b: Clock) {
    !Leq(a, b) && !Leq(b, a)
  }

  /** Stored entries are never zero: ticks and merges keep this. */
  ghost predicate Positive(c: Clock) {
    forall t | t in c :: c[t] >= 1
  }

  /** The reading `IsConcurrent` really uses: a missing entry is below a stored zero. */
  function Rank(c: Clock, t: Tid): nat {
    if t in c then c[t] + 1 else 0
  }

  ghost predicate RankLeq(a: Clock, b: Clock) {
    forall t :: Rank(a, t) <= Rank(b, t)
  }

  class VectorClock {
    var clock: Clock

    constructor (c: Clock)
      ensures clock == c
    {
      clock := c;
    }

    method Tick(tid: Tid)
      modifies this
      ensures clock == Ticked(old(clock), tid)
    {
      if tid !in clock {
        clock := clock[tid := 0];
      }
      clock := clock[tid := clock[tid] + 1];
    }

    /** `todo` is the part of `vc` the iterator has not reached, in any order. */
    method Merge(vc: Clock)
      modifies this
      ensures clock == Merged(old(clock), vc)
    {
      ghost var start := clock;
      var todo := vc.Keys;
      while todo != {}
        invariant todo <= vc.Keys
        invariant forall t :: t in clock <==> t in start || (t in vc && t !in todo)
        invariant forall t | t in clock ::
              clock[t] == if t in todo then Get(start, t) else Max(Get(start, t), Get(vc, t))
        decreases |todo|
      {
        var t :| t in todo;
        if t !in clock || clock[t] < vc[t] {
          clock := clock[t := vc[t]];
        }
        todo := todo - {t};
      }
      assert clock == Merged(start, vc);
    }

    method IsConcurrent(vc: Clock) returns (r: bool)
      ensures r <==> !RankLeq(clock, vc) && !RankLeq(vc, clock)
    {
      var greater, lesser := false, false;
      var todo := vc.Keys;
      while todo != {}
        invariant todo <= vc.Keys
        invariant lesser ==> !RankLeq(vc, clock)
        invariant !lesser ==> forall t | t in vc && t !in todo :: Rank(vc, t) <= Rank(clock, t)
        invariant greater ==> !RankLeq(clock, vc)
        invariant !greater ==> forall t | t in vc && t !in todo :: Rank(clock, t) <= Rank(vc, t)
        decreases |todo|
      {
        var t :| t in todo;
        var timestamp := vc[t];
        if t !in clock {
          lesser := true;
          assert Rank(clock, t) < Rank(vc, t);
        } else if clock[t] < timestamp {
          lesser := true;
          assert Rank(clock, t) < Rank(vc, t);
        } else if clock[t] > timestamp {
          greater := true;
          assert Rank(vc, t) < Rank(clock, t);
        }
        todo := todo - {t};
      }
      if !lesser {
        assert RankLeq(vc, clock);
        return false;
      }
      if greater {
        return true;
      }
      todo := clock.Keys;
      while todo != {} && !greater
        invariant todo <= clock.Keys
        invariant greater ==> !RankLeq(clock, vc)
        invariant !greater ==> forall t | t in clock && t !in todo :: t in vc
        decreases |todo|
      {
        var t :| t in todo;
        if t !in vc {
          greater := true;
          assert Rank(vc, t) < Rank(clock, t);
        }
        todo := todo - {t};
      }
      if !greater {
        assert RankLeq(clock, vc);
      }
      r := greater && lesser;
    }
  }

  /** On clocks with positive entries the code's reading is the usual one. */
  lemma ConcurrentIsIncomparable(a: Clock, b: Clock)
    requires Positive(a) && Positive(b)
    ensures (!RankLeq(a, b) && !RankLeq(b, a)) <==> Incomparable(a, b)
  {
    assert forall t :: Get(a, t) <= Get(b, t) <==> Rank(a, t) <= Rank(b, t);
    assert forall t :: Get(b, t) <= Get(a, t) <==> Rank(b, t) <= Rank(a, t);
  }

  /** With a stored zero the two readings part: neither clock is above the other, yet the code says so. */
  lemma StoredZeroIsNotAbsent()
    ensures var a: Clock, b: Clock := map[1 := 0], map[2 := 1];
            !RankLeq(a, b) && !RankLeq(b, a) && Leq(a, b)
  {
    var a: Clock, b: Clock := map[1 := 0], map[2 := 1];
    assert Rank(a, 1) > Rank(b, 1);
    assert Rank(b, 2) > Rank(a, 2);
  }

  /** `Merged` is the least upper bound, and both updates keep entries positive. */
  lemma MergedIsLeastUpperBound(a: Clock, b: Clock, c: Clock)
    ensures Leq(a, Merged(a, b)) && Leq(b, Merged(a, b))
    ensures Leq(a, c) && Leq(b, c) ==> Leq(Merged(a, b), c)
    ensures Positive(a) && Positive(b) ==> Positive(Merged(a, b))
    ensures Positive(a) ==> forall t :: Positive(Ticked(a, t))
  {
    assert forall t :: Get(Merged(a, b), t) == Max(Get(a, t), Get(b, t));
  }

  lemma LeqTransitive(a: Clock, b: Clock, c: Clock)
    requires Leq(a, b) && Leq(b, c)
    ensures Leq(a, c)
  {
    assert forall t :: Get(a, t) <= Get(b, t) <= Get(c, t);
  }
}
