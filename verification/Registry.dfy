/**
 * Lock indices: ordinary locks are numbered on first use, acquire/release scopes at
 * image load, both from one shared counter.
 */
module Registry {
  import opened Events

  ghost predicate Injective(names: map<Mutex, nat>) {
    forall m, m' | m in names && m' in names && names[m] == names[m'] :: m == m'
  }

  /** Every earlier name keeps its index. */
  ghost predicate Extends(names: map<Mutex, nat>, before: map<Mutex, nat>) {
    forall m | m in before :: m in names && names[m] == before[m]
  }

  class LockRegistry {
    var lockIndex: map<Addr, nat>
    var lockCounter: nat
    ghost var names: map<Mutex, nat>

    ghost predicate Valid()
      reads this
    {
      && Injective(names)
      && (forall m | m in names :: names[m] < lockCounter)
      && (forall a :: Ordinary(a) in names <==> a in lockIndex)
      && (forall a | a in lockIndex :: names[Ordinary(a)] == lockIndex[a])
      && (forall i | Special(i) in names :: names[Special(i)] == i)
    }

    constructor ()
      ensures Valid() && names == map[]
    {
      lockIndex := map[];
      lockCounter := 0;
      names := map[];
    }

    method RegisterMutex(mutex: Addr)
      requires Valid()
      modifies this
      ensures Valid() && Extends(names, old(names))
      ensures names.Keys == old(names).Keys + {Ordinary(mutex)}
    {
      if mutex !in lockIndex {
        lockIndex := lockIndex[mutex := lockCounter];
        names := names[Ordinary(mutex) := lockCounter];
        lockCounter := lockCounter + 1;
      }
    }

    method RegisterSpecialMutex() returns (id: nat)
      requires Valid()
      modifies this
      ensures Valid() && Extends(names, old(names))
      ensures Special(id) !in old(names) && names == old(names)[Special(id) := id]
    {
      id := lockCounter;
      lockCounter := lockCounter + 1;
      names := names[Special(id) := id];
    }

    method GetIndex(mutex: Addr) returns (index: nat)
      requires Valid() && Ordinary(mutex) in names
      ensures index == names[Ordinary(mutex)]
    {
      index := lockIndex[mutex];
    }
  }

  // ------------------------------------------- the same, step by step and interleaved

  /** The one registration that can be under way inside the mutex. */
  datatype Pending = Idle | Entered(mutex: Addr) | Counted(mutex: Addr, index: nat)

  /** Numbered scopes are known by the index they were given. */
  datatype Shared = Shared(lockIndex: map<Addr, nat>, specials: set<nat>, counter: nat, pending: Pending)

  datatype Action =
    | Enter(mutex: Addr)   // take the registration mutex and look the lock up
    | FetchAdd             // the post-increment of the shared counter
    | WriteMap             // store the index and leave
    | SpecialFetchAdd      // a bare increment, from any thread, at any time

  /** The next state, or none when the action is not enabled. */
  function Act(s: Shared, x: Action): Option<Shared> {
    match x
    case Enter(m) =>
      if !s.pending.Idle? then None
      else if m in s.lockIndex then Some(s)
      else Some(s.(pending := Entered(m)))
    case FetchAdd =>
      if s.pending.Entered?
            then Some(s.(pending := Counted(s.pending.mutex, s.counter), counter := s.counter + 1)) else None
    case WriteMap =>
      if s.pending.Counted? then
        Some(s.(lockIndex := s.lockIndex[s.pending.mutex := s.pending.index], pending := Idle))
      else None
    case SpecialFetchAdd =>
      Some(s.(specials := s.specials + {s.counter}, counter := s.counter + 1))
  }

  function Acted(s: Shared, actions: seq<Action>): Option<Shared> {
    if actions == [] then Some(s) else
      match Acted(s, actions[..|actions| - 1])
      case None => None
      case Some(before) => Act(before, Last(actions))
  }

  const START := Shared(map[], {}, 0, Idle)

  ghost predicate Distinct(s: Shared) {
    && (forall a, b | a in s.lockIndex && b in s.lockIndex && s.lockIndex[a] == s.lockIndex[b] :: a == b)
    && (forall a | a in s.lockIndex :: s.lockIndex[a] < s.counter && s.lockIndex[a] !in s.specials)
    && (forall i | i in s.specials :: i < s.counter)
  }

  ghost predicate PendingIsNew(s: Shared) {
    && (s.pending.Entered? ==> s.pending.mutex !in s.lockIndex)
    && (s.pending.Counted? ==>
          && s.pending.mutex !in s.lockIndex
          && s.pending.index < s.counter && s.pending.index !in s.specials
          && forall a | a in s.lockIndex :: s.lockIndex[a] != s.pending.index)
  }

  /** Under every interleaving, all indices handed out are distinct and below the counter. */
  lemma {:induction false} IndicesStayDistinct(actions: seq<Action>)
    requires Acted(START, actions).Some?
    ensures Distinct(Acted(START, actions).value) && PendingIsNew(Acted(START, actions).value)
  {
    if actions != [] {
      var earlier := actions[..|actions| - 1];
      IndicesStayDistinct(earlier);
      ActKeepsDistinct(Acted(START, earlier).value, Last(actions));
    }
  }

  lemma ActKeepsDistinct(s: Shared, x: Action)
    requires Distinct(s) && PendingIsNew(s) && Act(s, x).Some?
    ensures Distinct(Act(s, x).value) && PendingIsNew(Act(s, x).value)
  {
  }

  /** No index is ever reassigned: whatever follows, a lock or scope keeps its index. */
  lemma {:induction false} IndicesAreStable(actions: seq<Action>, more: seq<Action>)
    requires Acted(START, actions).Some? && Acted(START, actions + more).Some?
    ensures var s, s' := Acted(START, actions).value, Acted(START, actions + more).value;
            && (forall a | a in s.lockIndex :: a in s'.lockIndex && s'.lockIndex[a] == s.lockIndex[a])
            && s.specials <= s'.specials && s.counter <= s'.counter
    decreases |more|
  {
    if more == [] {
      assert actions + more == actions;
    } else {
      var fewer := more[..|more| - 1];
      assert (actions + more)[..|actions + more| - 1] == actions + fewer;
      IndicesAreStable(actions, fewer);
      IndicesStayDistinct(actions + fewer);
    }
  }

  // ------------------------------------------------ the indices, read off the actions

  /** How often the counter was incremented by the first `j` actions. */
  function Increments(actions: seq<Action>, j: nat): nat
    requires j <= |actions|
  {
    if j == 0 then 0 else
      Increments(actions, j - 1) + if actions[j - 1].FetchAdd? || actions[j - 1].SpecialFetchAdd? then 1 else 0
  }

  /** Lock `a` entered at `i`, took a number at `j` and was written at `w`; only scopes came in between. */
  ghost predicate Registered(actions: seq<Action>, a: Addr, i: nat, j: nat, w: nat) {
    && i < j < w < |actions| && actions[i] == Enter(a) && actions[j] == FetchAdd && actions[w] == WriteMap
    && forall x | i < x < w && x != j :: actions[x] == SpecialFetchAdd
  }

  /** The registration of `m` is waiting for its number, or for its write with the number taken at `j`. */
  ghost predicate Waiting(actions: seq<Action>, m: Addr, i: nat) {
    i < |actions| && actions[i] == Enter(m) && forall x | i < x < |actions| :: actions[x] == SpecialFetchAdd
  }

  ghost predicate Numbered(actions: seq<Action>, m: Addr, i: nat, j: nat) {
    && i < j < |actions| && actions[i] == Enter(m) && actions[j] == FetchAdd
    && forall x | i < x < |actions| && x != j :: actions[x] == SpecialFetchAdd
  }

  ghost predicate PendingIsUnderWay(actions: seq<Action>, s: Shared) {
    match s.pending
    case Idle => true
    case Entered(m) => exists i: nat :: Waiting(actions, m, i)
    case Counted(m, index) => exists i: nat, j: nat :: Numbered(actions, m, i, j) && Increments(actions, j) == index
  }

  /** Every index in the map was taken off the counter by a finished registration. */
  ghost predicate IndicesWereTaken(actions: seq<Action>, s: Shared) {
    forall a | a in s.lockIndex ::
      exists i: nat, j: nat, w: nat :: Registered(actions, a, i, j, w) && Increments(actions, j) == s.lockIndex[a]
  }

  /** Every finished registration left its lock with the number it took. */
  ghost predicate FinishedAreIndexed(actions: seq<Action>, s: Shared) {
    forall a: Addr, i: nat, j: nat, w: nat | Registered(actions, a, i, j, w) ::
      a in s.lockIndex && s.lockIndex[a] == Increments(actions, j)
  }

  /** Every lock that entered has an index or is the one under way. */
  ghost predicate EnteredAreKnown(actions: seq<Action>, s: Shared) {
    forall i | 0 <= i < |actions| && actions[i].Enter? ::
      actions[i].mutex in s.lockIndex || (!s.pending.Idle? && s.pending.mutex == actions[i].mutex)
  }

  /** The scopes are known by exactly the numbers that their increments read. */
  ghost predicate ScopesWereTaken(actions: seq<Action>, s: Shared) {
    forall k :: k in s.specials <==> ScopeTook(actions, k)
  }

  ghost predicate ScopeTook(actions: seq<Action>, k: nat) {
    exists j: nat :: j < |actions| && actions[j].SpecialFetchAdd? && Increments(actions, j) == k
  }

  lemma {:induction false} SameIncrements(actions: seq<Action>, x: Action, j: nat)
    requires j <= |actions|
    ensures Increments(actions + [x], j) == Increments(actions, j)
  {
    if j > 0 {
      SameIncrements(actions, x, j - 1);
    }
  }

  lemma SameRegistered(actions: seq<Action>, x: Action, a: Addr, i: nat, j: nat, w: nat)
    requires w < |actions|
    ensures Registered(actions + [x], a, i, j, w) <==> Registered(actions, a, i, j, w)
  {
    var more := actions + [x];
    assert forall k | 0 <= k <= w :: more[k] == actions[k];
    if Registered(more, a, i, j, w) {
      forall k | i < k < w && k != j
        ensures actions[k] == SpecialFetchAdd
      {
        assert more[k] == actions[k];
      }
    }
  }

  lemma UnderWayStep(actions: seq<Action>, x: Action, s: Shared)
    requires PendingIsUnderWay(actions, s) && s.counter == Increments(actions, |actions|) && Act(s, x).Some?
    ensures PendingIsUnderWay(actions + [x], Act(s, x).value)
    ensures Act(s, x).value.counter == Increments(actions + [x], |actions + [x]|)
  {
    var more, s' := actions + [x], Act(s, x).value;
    SameIncrements(actions, x, |actions|);
    if s'.pending.Entered? {
      if s.pending.Idle? {
        assert Waiting(more, s'.pending.mutex, |actions|);
      } else {
        var i: nat :| Waiting(actions, s.pending.mutex, i);
        assert Waiting(more, s.pending.mutex, i);
      }
    } else if s'.pending.Counted? {
      if s.pending.Entered? {
        var i: nat :| Waiting(actions, s.pending.mutex, i);
        assert Numbered(more, s.pending.mutex, i, |actions|);
      } else {
        var i: nat, j: nat :| Numbered(actions, s.pending.mutex, i, j) && Increments(actions, j) == s.pending.index;
        SameIncrements(actions, x, j);
        assert Numbered(more, s.pending.mutex, i, j);
      }
    }
  }

  lemma TakenStep(actions: seq<Action>, x: Action, s: Shared)
    requires PendingIsUnderWay(actions, s) && IndicesWereTaken(actions, s) && Act(s, x).Some?
    ensures IndicesWereTaken(actions + [x], Act(s, x).value)
  {
    var more, s' := actions + [x], Act(s, x).value;
    forall a | a in s'.lockIndex
      ensures exists i: nat, j: nat, w: nat :: Registered(more, a, i, j, w) && Increments(more, j) == s'.lockIndex[a]
    {
      if x.WriteMap? && a == s.pending.mutex {
        var i: nat, j: nat :| Numbered(actions, a, i, j) && Increments(actions, j) == s.pending.index;
        SameIncrements(actions, x, j);
        assert Registered(more, a, i, j, |actions|);
      } else {
        var i: nat, j: nat, w: nat :| Registered(actions, a, i, j, w) && Increments(actions, j) == s.lockIndex[a];
        SameIncrements(actions, x, j);
        SameRegistered(actions, x, a, i, j, w);
      }
    }
  }

  lemma FinishedStep(actions: seq<Action>, x: Action, s: Shared)
    requires PendingIsUnderWay(actions, s) && FinishedAreIndexed(actions, s) && PendingIsNew(s) && Act(s, x).Some?
    ensures FinishedAreIndexed(actions + [x], Act(s, x).value)
  {
    var more, s' := actions + [x], Act(s, x).value;
    forall a: Addr, i: nat, j: nat, w: nat | Registered(more, a, i, j, w)
      ensures a in s'.lockIndex && s'.lockIndex[a] == Increments(more, j)
    {
      SameIncrements(actions, x, j);
      if w < |actions| {
        SameRegistered(actions, x, a, i, j, w);
      } else {
        var i': nat, j': nat :|
          Numbered(actions, s.pending.mutex, i', j') && Increments(actions, j') == s.pending.index;
        assert more[i'] == Enter(s.pending.mutex) && more[j'] == FetchAdd;
        assert i == i' && j == j';
      }
    }
  }

  lemma ScopesStep(actions: seq<Action>, x: Action, s: Shared)
    requires ScopesWereTaken(actions, s) && s.counter == Increments(actions, |actions|) && Act(s, x).Some?
    ensures ScopesWereTaken(actions + [x], Act(s, x).value)
  {
    var more, s' := actions + [x], Act(s, x).value;
    forall k
      ensures ScopeTook(more, k) <==> ScopeTook(actions, k) || (x.SpecialFetchAdd? && k == s.counter)
    {
      forall j: nat | j <= |actions| {
        SameIncrements(actions, x, j);
      }
      if ScopeTook(actions, k) {
        var j: nat :| j < |actions| && actions[j].SpecialFetchAdd? && Increments(actions, j) == k;
        assert more[j].SpecialFetchAdd? && Increments(more, j) == k;
      }
      if x.SpecialFetchAdd? && k == s.counter {
        assert more[|actions|].SpecialFetchAdd? && Increments(more, |actions|) == k;
      }
    }
  }

  lemma EnteredStep(actions: seq<Action>, x: Action, s: Shared)
    requires EnteredAreKnown(actions, s) && Act(s, x).Some?
    ensures EnteredAreKnown(actions + [x], Act(s, x).value)
  {
  }

  /**
   * What the registrations leave behind, under every interleaving: each finished one has
   * put its lock into the map with the number it took off the counter, nothing else is in
   * the map, every lock that entered is in it or under way, and each scope is known by
   * the number that its own increment read.
   */
  lemma {:induction false} RegistrationsAreKept(actions: seq<Action>)
    requires Acted(START, actions).Some?
    ensures var s := Acted(START, actions).value;
            && s.counter == Increments(actions, |actions|) && PendingIsUnderWay(actions, s)
            && FinishedAreIndexed(actions, s) && IndicesWereTaken(actions, s)
            && EnteredAreKnown(actions, s) && ScopesWereTaken(actions, s)
  {
    if actions != [] {
      var earlier, x := actions[..|actions| - 1], Last(actions);
      var s := Acted(START, earlier).value;
      RegistrationsAreKept(earlier);
      IndicesStayDistinct(earlier);
      assert actions == earlier + [x];
      UnderWayStep(earlier, x, s);
      TakenStep(earlier, x, s);
      FinishedStep(earlier, x, s);
      ScopesStep(earlier, x, s);
      EnteredStep(earlier, x, s);
    }
  }

  lemma ActedMore(actions: seq<Action>, x: Action)
    requires Acted(START, actions).Some?
    ensures Acted(START, actions + [x]) == Act(Acted(START, actions).value, x)
  {
    assert (actions + [x])[..|actions|] == actions;
  }

  /** Nobody waits for good: what is under way can finish, and then any lock gets its index. */
  lemma EveryLockCanRegister(actions: seq<Action>, m: Addr) returns (more: seq<Action>)
    requires Acted(START, actions).Some?
    ensures actions <= more && |more| <= |actions| + 5
    ensures Acted(START, more).Some? && m in Acted(START, more).value.lockIndex
    ensures Acted(START, actions + [SpecialFetchAdd]).Some?
    ensures Acted(START, actions).value.pending.Idle? ==> Acted(START, actions + [Enter(m)]).Some?
  {
    ActedMore(actions, SpecialFetchAdd);
    ActedMore(actions, Enter(m));
    more := actions;
    if Acted(START, more).value.pending.Entered? {
      more := Then(more, FetchAdd);
    }
    if Acted(START, more).value.pending.Counted? {
      more := Then(more, WriteMap);
    }
    if m !in Acted(START, more).value.lockIndex {
      more := Then(more, Enter(m));
      more := Then(more, FetchAdd);
      more := Then(more, WriteMap);
    }
  }

  lemma Then(actions: seq<Action>, x: Action) returns (more: seq<Action>)
    requires Acted(START, actions).Some? && Act(Acted(START, actions).value, x).Some?
    ensures more == actions + [x] && Acted(START, more) == Act(Acted(START, actions).value, x)
  {
    more := actions + [x];
    ActedMore(actions, x);
  }
}
