/**
 * The initialization-removal heuristic: accesses to an address are ignored until
 * more than `n` distinct threads have come to it.
 */
module FirstTouchFilters {
  import opened Events
  import opened Ledger
  import opened Locksets

  // ------------------------------------------------------------------ access masks

  function Pow2(n: nat): (r: nat)
    ensures r >= 1
  {
    if n == 0 then 1 else 2 * Pow2(n - 1)
  }

  predicate BitOfNumber(x: nat, i: nat) {
    if i == 0 then x % 2 == 1 else BitOfNumber(x / 2, i - 1)
  }

  /** The bitset of a 64-bit number. */
  function FromUlong(x: nat): Word {
    seq(64, i requires 0 <= i < 64 => BitOfNumber(x, i))
  }

  function LowMask(size: nat): Word {
    seq(64, i requires 0 <= i < 64 => i < size)
  }

  lemma HalfOfAllOnes(size: nat)
    requires size > 0
    ensures (Pow2(size) - 1) / 2 == Pow2(size - 1) - 1 && (Pow2(size) - 1) % 2 == 1
  {
  }

  lemma {:induction false} ShiftGivesLowBits(size: nat, i: nat)
    ensures BitOfNumber(Pow2(size) - 1, i) <==> i < size
  {
    if size == 0 {
      NoBitsInZero(i);
    } else {
      HalfOfAllOnes(size);
      if i > 0 {
        ShiftGivesLowBits(size - 1, i - 1);
      }
    }
  }

  lemma {:induction false} NoBitsInZero(i: nat)
    ensures !BitOfNumber(0, i)
  {
    if i > 0 {
      NoBitsInZero(i - 1);
    }
  }

  /** `(1 << size) - 1` is exactly the low `size` bits. */
  lemma ShiftGivesLowMask(size: nat)
    ensures FromUlong(Pow2(size) - 1) == LowMask(size)
  {
    forall i: nat | i < 64
      ensures FromUlong(Pow2(size) - 1)[i] == LowMask(size)[i]
    {
      ShiftGivesLowBits(size, i);
    }
  }

  /** The only two answers the filter gives for an access: all of its bytes, or none. */
  function UniformMask(size: nat, published: bool): Word {
    LowMask(if published then size else 0)
  }

  lemma OneMoreBit(i: nat, published: bool)
    requires i < 64
    ensures UniformMask(i, published)[i := published] == UniformMask(i + 1, published)
  {
  }

  lemma NoBits()
    ensures LowMask(0) == ZERO
  {
  }

  /** With the heuristic off: all bits for a full word, otherwise a shift and a subtraction. */
  method FullMask(size: nat) returns (mask: Word)
    requires size <= 64
    ensures mask == LowMask(size)
  {
    if size == 64 {
      mask := seq(64, _ => true);
    } else {
      ShiftGivesLowMask(size);
      mask := FromUlong(Pow2(size) - 1);
    }
  }

  // -------------------------------------------------------------------- the filter

  function BitsOf(threadIndex: map<Tid, nat>, threads: set<Tid>): set<nat> {
    set t | t in threads && t in threadIndex :: threadIndex[t]
  }

  ghost predicate OneToOne(threadIndex: map<Tid, nat>) {
    && (forall t | t in threadIndex :: threadIndex[t] < |threadIndex|)
    && (forall t, u | t in threadIndex && u in threadIndex && threadIndex[t] == threadIndex[u] :: t == u)
  }

  lemma {:induction false} BitsCountThreads(threadIndex: map<Tid, nat>, threads: set<Tid>)
    requires OneToOne(threadIndex) && threads <= threadIndex.Keys
    ensures |BitsOf(threadIndex, threads)| == |threads|
  {
    if threads != {} {
      var t :| t in threads;
      BitsCountThreads(threadIndex, threads - {t});
      assert threadIndex[t] !in BitsOf(threadIndex, threads - {t});
      assert BitsOf(threadIndex, threads) == BitsOf(threadIndex, threads - {t}) + {threadIndex[t]};
    }
  }

  lemma TouchAdds(touched: set<(Tid, Addr)>, t: Tid, a: Addr, b: Addr)
    ensures ThreadsOn(touched + {(t, a)}, b) == if a == b then ThreadsOn(touched, b) + {t} else ThreadsOn(touched, b)
  {
    assert (t, a) in touched + {(t, a)};
  }

  /** What the bitset of `a` says when `threads` have come: nothing, their bits, or cleared once more than `n`. */
  ghost predicate BitsetOk(n: nat, threadIndex: map<Tid, nat>, accessed: map<Addr, set<nat>>, a: Addr,
                           threads: set<Tid>) {
    if threads == {} then a !in accessed else
      a in accessed && accessed[a] == if |threads| > n then {} else BitsOf(threadIndex, threads)
  }

  ghost predicate FilterOk(n: nat, threadIndex: map<Tid, nat>, accessed: map<Addr, set<nat>>,
                           touched: set<(Tid, Addr)>) {
    && OneToOne(threadIndex)
    && (forall p | p in touched :: p.0 in threadIndex)
    && (forall a :: BitsetOk(n, threadIndex, accessed, a, ThreadsOn(touched, a)))
  }

  /** The same, quantified over its last argument only so that callers carry it whole. */
  ghost predicate BitsetsSay(n: nat, threadIndex: map<Tid, nat>, accessed: map<Addr, set<nat>>,
                             touched: set<(Tid, Addr)>) {
    forall ps {:trigger FilterOk(n, threadIndex, accessed, ps)} | ps == touched ::
          FilterOk(n, threadIndex, accessed, ps)
  }

  /** The threads that have come to any address. */
  ghost function Comers(touched: set<(Tid, Addr)>): set<Tid> {
    set p | p in touched :: p.0
  }

  lemma OneMoreComer(touched: set<(Tid, Addr)>, t: Tid, a: Addr)
    ensures Comers(touched + {(t, a)}) == Comers(touched) + {t}
  {
    assert (t, a) in touched + {(t, a)};
  }

  /** Giving a new thread the next bit changes no bitset. */
  lemma NewIndexKeepsBitsets(n: nat, before: map<Tid, nat>, accessed: map<Addr, set<nat>>, touched: set<(Tid, Addr)>,
                             t: Tid)
    requires BitsetsSay(n, before, accessed, touched) && t !in before
    ensures BitsetsSay(n, before[t := |before|], accessed, touched)
  {
    assert FilterOk(n, before, accessed, touched);
    var after := before[t := |before|];
    assert |after.Keys| == |before.Keys| + 1;
    forall a
      ensures BitsOf(after, ThreadsOn(touched, a)) == BitsOf(before, ThreadsOn(touched, a))
    {
      assert forall u | u in ThreadsOn(touched, a) :: u in before;
    }
  }

  /** One access changes the bitset of its own address only. */
  lemma AccessKeepsOthers(n: nat, threadIndex: map<Tid, nat>, before: map<Addr, set<nat>>, after: map<Addr, set<nat>>,
                          touched: set<(Tid, Addr)>, t: Tid, address: Addr)
    requires BitsetsSay(n, threadIndex, before, touched) && t in threadIndex
    requires forall a | a != address :: (a in before <==> a in after) && (a in before ==> after[a] == before[a])
    requires BitsetOk(n, threadIndex, after, address, ThreadsOn(touched, address) + {t})
    ensures BitsetsSay(n, threadIndex, after, touched + {(t, address)})
  {
    assert FilterOk(n, threadIndex, before, touched);
    forall a
      ensures BitsetOk(n, threadIndex, after, a, ThreadsOn(touched + {(t, address)}, a))
    {
      TouchAdds(touched, t, address, a);
    }
  }

  /** The counts behind the branches: bits stand for threads one to one. */
  ghost predicate BitsCount(threadIndex: map<Tid, nat>, threads: set<Tid>, t: Tid)
    requires t in threadIndex
  {
    && BitsOf(threadIndex, threads + {t}) == BitsOf(threadIndex, threads) + {threadIndex[t]}
    && |BitsOf(threadIndex, threads)| == |threads|
    && |BitsOf(threadIndex, threads) + {threadIndex[t]}| == |threads + {t}|
    && (threadIndex[t] in BitsOf(threadIndex, threads) <==> t in threads)
    && |threads| <= |threads + {t}| <= |threads| + 1
  }

  lemma OneMoreThread(threadIndex: map<Tid, nat>, threads: set<Tid>, t: Tid)
    requires OneToOne(threadIndex) && threads <= threadIndex.Keys && t in threadIndex
    ensures BitsCount(threadIndex, threads, t)
  {
    BitsCountThreads(threadIndex, threads);
    BitsCountThreads(threadIndex, threads + {t});
    assert t in threads ==> threads + {t} == threads;
  }

  /** Before an access: what the bitset says, and what one more thread means for it. */
  lemma BeforeAccess(n: nat, threadIndex: map<Tid, nat>, accessed: map<Addr, set<nat>>, touched: set<(Tid, Addr)>,
                     t: Tid, address: Addr)
    requires BitsetsSay(n, threadIndex, accessed, touched) && t in threadIndex
    ensures ThreadsOn(touched + {(t, address)}, address) == ThreadsOn(touched, address) + {t}
    ensures BitsetOk(n, threadIndex, accessed, address, ThreadsOn(touched, address))
    ensures BitsCount(threadIndex, ThreadsOn(touched, address), t)
  {
    assert FilterOk(n, threadIndex, accessed, touched);
    OneMoreThread(threadIndex, ThreadsOn(touched, address), t);
    TouchAdds(touched, t, address, address);
  }

  /** After an access: the new bitset, the other bitsets and the newcomer together. */
  lemma AfterAccess(n: nat, threadIndex: map<Tid, nat>, before: map<Addr, set<nat>>, after: map<Addr, set<nat>>,
                    touched: set<(Tid, Addr)>, t: Tid, address: Addr)
    requires BitsetsSay(n, threadIndex, before, touched) && threadIndex.Keys == Comers(touched) + {t}
    requires forall a | a != address :: (a in before <==> a in after) && (a in before ==> after[a] == before[a])
    requires BitsetOk(n, threadIndex, after, address, ThreadsOn(touched, address) + {t})
    ensures BitsetsSay(n, threadIndex, after, touched + {(t, address)})
    ensures threadIndex.Keys == Comers(touched + {(t, address)})
    ensures ThreadsOn(touched + {(t, address)}, address) == ThreadsOn(touched, address) + {t}
  {
    AccessKeepsOthers(n, threadIndex, before, after, touched, t, address);
    OneMoreComer(touched, t, address);
    TouchAdds(touched, t, address, address);
  }

  /**
   * A cleared bitset that is still present says, exactly, that more than `n` threads have
   * come; and it is cleared for good, since nobody's coming is forgotten.
   */
  lemma ClearedIsSaturated(n: nat, threadIndex: map<Tid, nat>, accessed: map<Addr, set<nat>>,
                           touched: set<(Tid, Addr)>, a: Addr)
    requires FilterOk(n, threadIndex, accessed, touched)
    ensures a in accessed && accessed[a] == {} <==> |ThreadsOn(touched, a)| > n
    ensures a !in accessed <==> ThreadsOn(touched, a) == {}
    ensures a in accessed && accessed[a] != {} ==> |accessed[a]| == |ThreadsOn(touched, a)|
  {
    var threads := ThreadsOn(touched, a);
    assert BitsetOk(n, threadIndex, accessed, a, threads);
    BitsCountThreads(threadIndex, threads);
  }

  class FirstTouchFilter {
    const n: nat
    /** Per address, a 64-bit set of thread bits; present but cleared means the limit was reached. */
    var variableAccessed: map<Addr, set<nat>>
    var threadIndex: map<Tid, nat>
    ghost var touched: set<(Tid, Addr)>

    ghost predicate Valid()
      reads this
    {
      n >= 1 ==> BitsetsSay(n, threadIndex, variableAccessed, touched) && threadIndex.Keys == Comers(touched)
    }

    constructor (n: nat)
      ensures Valid() && this.n == n && touched == {} && threadIndex == map[]
    {
      this.n := n;
      variableAccessed := map[];
      threadIndex := map[];
      touched := {};
    }

    /** At most 64 threads fit; a new one gets the next bit. */
    method IndexOf(tid: Tid) returns (bit: nat)
      requires Valid() && n >= 1 && (tid in threadIndex || |threadIndex| < 64)
      modifies this`threadIndex
      ensures BitsetsSay(n, threadIndex, variableAccessed, touched) && tid in threadIndex && threadIndex[tid] == bit
      ensures threadIndex.Keys == old(threadIndex).Keys + {tid}
    {
      if tid !in threadIndex {
        NewIndexKeepsBitsets(n, threadIndex, variableAccessed, touched, tid);
        threadIndex := threadIndex[tid := |threadIndex|];
      }
      bit := threadIndex[tid];
    }

    method IgnoreAccess(tid: Tid, address: Addr) returns (ignore: bool)
      requires Valid() && n >= 1 && (tid in threadIndex || |threadIndex| < 64)
      modifies this
      ensures Valid() && touched == old(touched) + {(tid, address)}
      ensures ignore <==> !Published(n, touched, address)
      ensures threadIndex.Keys == old(threadIndex).Keys + {tid}
    {
      var bit := IndexOf(tid);
      ghost var threads := ThreadsOn(touched, address);
      ghost var before := variableAccessed;
      BeforeAccess(n, threadIndex, before, touched, tid, address);
      ignore := Decide(bit, address, threads, tid);
      AfterAccess(n, threadIndex, before, variableAccessed, touched, tid, address);
      touched := touched + {(tid, address)};
    }

    /** The branches on the bitset of `address`. */
    method Decide(bit: nat, address: Addr, ghost threads: set<Tid>, ghost tid: Tid) returns (ignore: bool)
      requires n >= 1 && BitsetOk(n, threadIndex, variableAccessed, address, threads)
      requires tid in threadIndex && threadIndex[tid] == bit && BitsCount(threadIndex, threads, tid)
      modifies this`variableAccessed
      ensures BitsetOk(n, threadIndex, variableAccessed, address, threads + {tid})
      ensures ignore <==> |threads + {tid}| <= n
      ensures forall a | a != address :: (a in old(variableAccessed) <==> a in variableAccessed)
                                         && (a in old(variableAccessed) ==>
                                               variableAccessed[a] == old(variableAccessed)[a])
    {
      // the first thread to access the address
      if address !in variableAccessed {
        variableAccessed := variableAccessed[address := {bit}];
        assert threads == {} && threads + {tid} == {tid};
        return true;
      }
      // the limit was reached by an earlier access
      if variableAccessed[address] == {} {
        assert |threads| > n;
        return false;
      }
      // a repeated access is not a new thread
      if bit in variableAccessed[address] {
        assert threads + {tid} == threads;
        return true;
      }
      variableAccessed := variableAccessed[address := variableAccessed[address] + {bit}];
      if |variableAccessed[address]| == n + 1 {
        variableAccessed := variableAccessed[address := {}];
        return false;
      }
      return true;
    }

    method HandleAccessByte(tid: Tid, address: Addr) returns (ret: bool)
      requires Valid() && (n >= 1 ==> tid in threadIndex || |threadIndex| < 64)
      modifies this
      ensures Valid() && touched == old(touched) + {(tid, address)}
      ensures ret <==> Published(n, touched, address)
      ensures threadIndex.Keys <= old(threadIndex).Keys + {tid}
      ensures n >= 1 ==> tid in threadIndex
    {
      if n == 0 {
        touched := touched + {(tid, address)};
        return true;
      }
      var ignore := IgnoreAccess(tid, address);
      ret := !ignore;
    }

    /**
     * Every turn of the loop asks about the first address, so the answer is uniform:
     * all of the low `size` bits, or none.
     */
    method HandleAccess(tid: Tid, address: Addr, size: nat) returns (mask: Word)
      requires Valid() && size <= 64 && (n >= 1 && size > 0 ==> tid in threadIndex || |threadIndex| < 64)
      modifies this
      ensures Valid() && touched == old(touched) + if size > 0 then {(tid, address)} else {}
      ensures mask == UniformMask(size, Published(n, touched, address))
      ensures threadIndex.Keys <= old(threadIndex).Keys + {tid}
      ensures n >= 1 && size > 0 ==> tid in threadIndex
    {
      if n == 0 {
        if size > 0 {
          touched := touched + {(tid, address)};
        }
        mask := FullMask(size);
      } else {
        mask := AskForEach(tid, address, size);
      }
    }

    method AskForEach(tid: Tid, address: Addr, size: nat) returns (mask: Word)
      requires Valid() && n >= 1 && size <= 64 && (size > 0 ==> tid in threadIndex || |threadIndex| < 64)
      modifies this
      ensures Valid() && touched == old(touched) + if size > 0 then {(tid, address)} else {}
      ensures mask == UniformMask(size, Published(n, touched, address))
      ensures threadIndex.Keys == old(threadIndex).Keys + if size > 0 then {tid} else {}
    {
      ghost var after := touched + {(tid, address)};
      ghost var published := Published(n, after, address);
      mask := ZERO;
      NoBits();
      for i := 0 to size
        invariant Valid() && touched == if i > 0 then after else old(touched)
        invariant threadIndex.Keys == old(threadIndex).Keys + if i > 0 then {tid} else {}
        invariant mask == UniformMask(i, published)
      {
        var ignore := IgnoreAccess(tid, address);
        assert touched == after;
        OneMoreBit(i, published);
        mask := mask[i := !ignore];
      }
    }
  }
}
