/**
 * The simulated cache of one thread, byte by byte: a store dirties its bytes, a
 * flush moves the dirty bytes of one line, a fence drains what was flushed.
 *
 * A pending byte remembers the position of its store in the log. With
 * `unpersisted` checking on, a store also discards what it overwrites.
 */
module Persistence {
  import opened Events

  datatype Cache = Cache(dirty: map<Addr, nat>, flushed: map<Addr, nat>)

  /** The bytes `first .. first + size`. */
  function Bytes(first: Addr, size: nat): (bytes: set<Addr>)
    ensures forall a :: a in bytes <==> first <= a < first + size
    ensures |bytes| == size
  {
    if size == 0 then {} else Bytes(first, size - 1) + {first + size - 1}
  }

  function OfLine<T>(m: map<Addr, T>, line: Addr): map<Addr, T> {
    map a | a in m && CacheLine(a) == line :: m[a]
  }

  function StoreAll<T>(m: map<Addr, T>, bytes: set<Addr>, x: T): map<Addr, T> {
    m + map a | a in bytes :: x
  }

  function CacheStep(unpersisted: bool, c: Cache, t: Tid, k: nat, e: Event): Cache {
    if e.tid != t then c else
      match e
      case Store(_, addr, size, _) =>
        var bytes := Bytes(addr, size);
        Cache(StoreAll(c.dirty, bytes, k), if unpersisted then c.flushed - bytes else c.flushed)
      case Flush(_, addr) =>
        var moved := OfLine(c.dirty, CacheLine(addr));
        Cache(c.dirty - moved.Keys, c.flushed + moved)
      case Fence(_, _) => c.(flushed := map[])
      case _ => c
  }

  function CacheAt(unpersisted: bool, log: Log, k: nat, t: Tid): Cache
    requires k <= |log|
  {
    if k == 0 then Cache(map[], map[]) else
      CacheStep(unpersisted, CacheAt(unpersisted, log, k - 1, t), t, k - 1, log[k - 1])
  }

  // ------------------------------------------------ the same, read off the log

  ghost predicate IsStore(log: Log, i: nat, t: Tid, a: Addr) {
    i < |log| && log[i].Store? && log[i].tid == t && log[i].addr <= a < log[i].addr + log[i].size
  }

  ghost predicate IsFlush(log: Log, j: nat, t: Tid, a: Addr) {
    j < |log| && log[j].Flush? && log[j].tid == t && log[j].addr / 64 == a / 64
  }

  ghost predicate IsFence(log: Log, j: nat, t: Tid) {
    j < |log| && log[j].Fence? && log[j].tid == t
  }

  /** `j` is the first flush of `a`'s line after event `i`. */
  ghost predicate FirstFlush(log: Log, i: nat, j: nat, t: Tid, a: Addr) {
    i < j && IsFlush(log, j, t, a) && forall x | i < x < j :: !IsFlush(log, x, t, a)
  }

  /** The store at `i` was flushed, and `t` has not fenced between that first flush and `k`. */
  ghost predicate FlushedSinceFence(log: Log, k: nat, t: Tid, a: Addr, i: nat) {
    && i < k && IsStore(log, i, t, a)
    && exists j: nat | j < k :: FirstFlush(log, i, j, t, a) && forall x | j < x < k :: !IsFence(log, x, t)
  }

  /** The latest such store: what a fence at `k` persists for byte `a`. */
  ghost predicate DrainedBy(log: Log, k: nat, t: Tid, a: Addr, i: nat) {
    FlushedSinceFence(log, k, t, a, i) && forall i' | i < i' < k :: !FlushedSinceFence(log, k, t, a, i')
  }

  /** The store at `i` is the latest to `a` and its line was not flushed since. */
  ghost predicate DirtySince(log: Log, k: nat, t: Tid, a: Addr, i: nat) {
    i < k && IsStore(log, i, t, a) && forall j | i < j < k :: !IsStore(log, j, t, a) && !IsFlush(log, j, t, a)
  }

  // ------------------------------------------------------------------ theorems

  lemma {:induction false} DirtyIsHistory(unpersisted: bool, log: Log, k: nat, t: Tid, a: Addr)
    requires k <= |log|
    ensures var dirty := CacheAt(unpersisted, log, k, t).dirty;
            && (a in dirty ==> DirtySince(log, k, t, a, dirty[a]))
            && (forall i: nat | i < k && IsStore(log, i, t, a) && (forall j | i < j < k :: !IsFlush(log, j, t, a)) ::
                  a in dirty && i <= dirty[a])
  {
    if k > 0 {
      DirtyIsHistory(unpersisted, log, k - 1, t, a);
      var e := log[k - 1];
      var before, after := CacheAt(unpersisted, log, k - 1, t).dirty, CacheAt(unpersisted, log, k, t).dirty;
      if IsStore(log, k - 1, t, a) {
        assert a in after && after[a] == k - 1;
      } else if IsFlush(log, k - 1, t, a) {
        assert a !in after;
      } else {
        assert a in after <==> a in before;
        assert a in after ==> after[a] == before[a];
      }
    }
  }

  /** The drained set does not change at an event that neither flushes the line nor fences. */
  lemma UnchangedUnlessFlushOrFence(log: Log, k: nat, t: Tid, a: Addr, i: nat)
    requires k < |log| && !IsFlush(log, k, t, a) && !IsFence(log, k, t)
    ensures FlushedSinceFence(log, k + 1, t, a, i) <==> FlushedSinceFence(log, k, t, a, i)
  {
    if FlushedSinceFence(log, k, t, a, i) {
      var j: nat :| j < k && FirstFlush(log, i, j, t, a) && forall x | j < x < k :: !IsFence(log, x, t);
      assert j < k + 1 && forall x | j < x < k + 1 :: !IsFence(log, x, t);
    }
    if FlushedSinceFence(log, k + 1, t, a, i) {
      var j: nat :| j < k + 1 && FirstFlush(log, i, j, t, a) && forall x | j < x < k + 1 :: !IsFence(log, x, t);
      assert j != k && i < k;
    }
  }

  /** A flush adds exactly the stores still waiting for their first flush. */
  lemma AtFlush(log: Log, k: nat, t: Tid, a: Addr, i: nat)
    requires k < |log| && IsFlush(log, k, t, a)
    ensures FlushedSinceFence(log, k + 1, t, a, i) <==>
              FlushedSinceFence(log, k, t, a, i)
              || (i < k && IsStore(log, i, t, a) && forall j | i < j < k :: !IsFlush(log, j, t, a))
  {
    if FlushedSinceFence(log, k, t, a, i) {
      var j: nat :| j < k && FirstFlush(log, i, j, t, a) && forall x | j < x < k :: !IsFence(log, x, t);
      assert j < k + 1 && forall x | j < x < k + 1 :: !IsFence(log, x, t);
    }
    if i < k && IsStore(log, i, t, a) && forall j | i < j < k :: !IsFlush(log, j, t, a) {
      assert FirstFlush(log, i, k, t, a);
    }
    if FlushedSinceFence(log, k + 1, t, a, i) {
      var j: nat :| j < k + 1 && FirstFlush(log, i, j, t, a) && forall x | j < x < k + 1 :: !IsFence(log, x, t);
      if j < k {
        assert FlushedSinceFence(log, k, t, a, i);
      }
    }
  }

  lemma AtFence(log: Log, k: nat, t: Tid, a: Addr, i: nat)
    requires k < |log| && IsFence(log, k, t)
    ensures !FlushedSinceFence(log, k + 1, t, a, i)
  {
    forall j: nat | j < k + 1 && FirstFlush(log, i, j, t, a)
      ensures exists x :: j < x < k + 1 && IsFence(log, x, t)
    {
      assert j < k;
    }
  }

  /**
   * What a fence drains, with unpersisted checking off: byte `a` with the store at `i`
   * exactly when `i` is the latest store to `a` whose first later flush of the line
   * came after the thread's last fence.
   */
  lemma {:induction false} DrainsExactly(log: Log, k: nat, t: Tid, a: Addr)
    requires k <= |log|
    ensures var flushed := CacheAt(false, log, k, t).flushed;
            && (a in flushed ==> DrainedBy(log, k, t, a, flushed[a]))
            && (a !in flushed ==> forall i: nat :: !FlushedSinceFence(log, k, t, a, i))
    decreases k
  {
    if k > 0 {
      DrainsExactly(log, k - 1, t, a);
      forall i: nat
        ensures IsFence(log, k - 1, t) ==> !FlushedSinceFence(log, k, t, a, i)
        ensures !IsFence(log, k - 1, t) && !IsFlush(log, k - 1, t, a) ==>
                  (FlushedSinceFence(log, k, t, a, i) <==> FlushedSinceFence(log, k - 1, t, a, i))
        ensures IsFlush(log, k - 1, t, a) ==>
                  (FlushedSinceFence(log, k, t, a, i) <==>
                     FlushedSinceFence(log, k - 1, t, a, i)
                     || (i < k - 1 && IsStore(log, i, t, a) && forall j | i < j < k - 1 :: !IsFlush(log, j, t, a)))
      {
        if IsFence(log, k - 1, t) {
          AtFence(log, k - 1, t, a, i);
        } else if IsFlush(log, k - 1, t, a) {
          AtFlush(log, k - 1, t, a, i);
        } else {
          UnchangedUnlessFlushOrFence(log, k - 1, t, a, i);
        }
      }
      if IsFlush(log, k - 1, t, a) {
        DirtyIsHistory(false, log, k - 1, t, a);
        DirtyIsLater(log, k - 1, t, a);
      }
    }
  }

  /** A byte that is dirty again was stored after everything already flushed. */
  lemma DirtyIsLater(log: Log, k: nat, t: Tid, a: Addr)
    requires k <= |log|
    ensures var c := CacheAt(false, log, k, t);
            a in c.dirty ==> forall i: nat | FlushedSinceFence(log, k, t, a, i) :: i < c.dirty[a]
  {
    DirtyIsHistory(false, log, k, t, a);
    var c := CacheAt(false, log, k, t);
    if a in c.dirty {
      forall i: nat | FlushedSinceFence(log, k, t, a, i)
        ensures i < c.dirty[a]
      {
        var j: nat :| j < k && FirstFlush(log, i, j, t, a) && forall x | j < x < k :: !IsFence(log, x, t);
      }
    }
  }

  // -------------------------------------------- the same with unpersisted checking on

  /** The store at `i` is the latest to `a`, was flushed, and `t` has not fenced since that first flush. */
  ghost predicate WaitsForFence(log: Log, k: nat, t: Tid, a: Addr, i: nat) {
    FlushedSinceFence(log, k, t, a, i) && forall j | i < j < k :: !IsStore(log, j, t, a)
  }

  lemma {:induction false} DirtyExactly(unpersisted: bool, log: Log, k: nat, t: Tid, a: Addr, i: nat)
    requires k <= |log|
    ensures var dirty := CacheAt(unpersisted, log, k, t).dirty;
            a in dirty && dirty[a] == i <==> DirtySince(log, k, t, a, i)
  {
    DirtyIsHistory(unpersisted, log, k, t, a);
  }

  lemma WaitsStep(log: Log, k: nat, t: Tid, a: Addr, i: nat)
    requires k < |log|
    ensures WaitsForFence(log, k + 1, t, a, i) <==>
              && !IsStore(log, k, t, a) && !IsFence(log, k, t)
              && (WaitsForFence(log, k, t, a, i) || (IsFlush(log, k, t, a) && DirtySince(log, k, t, a, i)))
  {
    if IsFence(log, k, t) {
      AtFence(log, k, t, a, i);
    } else if IsFlush(log, k, t, a) {
      AtFlush(log, k, t, a, i);
    } else {
      UnchangedUnlessFlushOrFence(log, k, t, a, i);
    }
    if WaitsForFence(log, k, t, a, i) && !IsStore(log, k, t, a) {
      assert forall j | i < j < k + 1 :: !IsStore(log, j, t, a);
    }
  }

  /** With unpersisted checking on a byte is flushed exactly when its latest store waits for a fence. */
  lemma {:induction false} WaitsExactly(log: Log, k: nat, t: Tid, a: Addr, i: nat)
    requires k <= |log|
    ensures var flushed := CacheAt(true, log, k, t).flushed;
            a in flushed && flushed[a] == i <==> WaitsForFence(log, k, t, a, i)
    decreases k
  {
    if k > 0 {
      WaitsExactly(log, k - 1, t, a, i);
      DirtyExactly(true, log, k - 1, t, a, i);
      NeverDirtyAndFlushed(log, k - 1, t);
      WaitsStep(log, k - 1, t, a, i);
      assert k - 1 + 1 == k;
    }
  }

  /** Every position in `m` is a past store of thread `t` to that byte. */
  ghost predicate AreStores(m: map<Addr, nat>, log: Log, k: nat, t: Tid) {
    forall a | a in m :: m[a] < k && IsStore(log, m[a], t, a)
  }

  lemma {:induction false} PendingAreStores(unpersisted: bool, log: Log, k: nat, t: Tid)
    requires k <= |log|
    ensures AreStores(CacheAt(unpersisted, log, k, t).dirty, log, k, t)
    ensures AreStores(CacheAt(unpersisted, log, k, t).flushed, log, k, t)
  {
    if k > 0 {
      PendingAreStores(unpersisted, log, k - 1, t);
      var before, after := CacheAt(unpersisted, log, k - 1, t), CacheAt(unpersisted, log, k, t);
      forall a | a in after.dirty
        ensures after.dirty[a] < k && IsStore(log, after.dirty[a], t, a)
      {
        assert (a in before.dirty && after.dirty[a] == before.dirty[a])
               || (after.dirty[a] == k - 1 && IsStore(log, k - 1, t, a));
      }
      forall a | a in after.flushed
        ensures after.flushed[a] < k && IsStore(log, after.flushed[a], t, a)
      {
        assert (a in before.flushed && after.flushed[a] == before.flushed[a])
               || (a in before.dirty && after.flushed[a] == before.dirty[a]);
      }
    }
  }

  /** With unpersisted checking on, no byte is ever both dirty and flushed. */
  lemma {:induction false} NeverDirtyAndFlushed(log: Log, k: nat, t: Tid)
    requires k <= |log|
    ensures var c := CacheAt(true, log, k, t); c.dirty.Keys !! c.flushed.Keys
  {
    if k > 0 {
      NeverDirtyAndFlushed(log, k - 1, t);
    }
  }
}
