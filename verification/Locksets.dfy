/**
 * Locksets as growable bit vectors: bit `i % 64` of word `i / 64` says whether the
 * lock with index `i` is in the set. Missing words count as zero.
 */
module Locksets {

  /** One `bitset<64>`, lowest bit first. */
  type Word = w: seq<bool> | |w| == 64 witness seq(64, _ => false)

  const ZERO: Word := seq(64, _ => false)

  predicate Bit(ws: seq<Word>, i: nat) {
    i / 64 < |ws| && ws[i / 64][i % 64]
  }

  /** The set of lock indices a bit vector stands for. */
  function Indices(ws: seq<Word>): set<nat> {
    set i: nat | i < 64 * |ws| && Bit(ws, i)
  }

  predicate Any(w: Word) {
    true in w
  }

  function And(v: Word, w: Word): (r: Word)
    ensures forall j | 0 <= j < 64 :: r[j] <==> v[j] && w[j]
  {
    seq(64, j requires 0 <= j < 64 => v[j] && w[j])
  }

  lemma IndexOfBit(ws: seq<Word>, i: nat)
    ensures i in Indices(ws) <==> Bit(ws, i)
  {
  }

  lemma BitOfIndex(ws: seq<Word>, m: nat, j: nat)
    requires m < |ws| && j < 64
    ensures 64 * m + j in Indices(ws) <==> ws[m][j]
  {
    assert (64 * m + j) / 64 == m && (64 * m + j) % 64 == j;
  }

  /** The stored words of a lockset that nothing changes any more: what a `pLockset` points to. */
  class PLockset {
    const locks: seq<Word>

    constructor (locks: seq<Word>)
      ensures this.locks == locks
    {
      this.locks := locks;
    }

    function Content(): set<nat> {
      Indices(locks)
    }

    /** `false` for empty sets, `true` for a pointer met with itself, otherwise word by word. */
    method ShortIntersect(ls: PLockset) returns (r: bool)
      ensures r <==> Content() * ls.Content() != {}
    {
      var thisEmpty := Empty(locks);
      var otherEmpty := Empty(ls.locks);
      if thisEmpty || otherEmpty {
        return false;
      }
      if this == ls {
        return true;
      }
      var minSize := if |locks| < |ls.locks| then |locks| else |ls.locks|;
      var m := 0;
      while m < minSize
        invariant 0 <= m <= minSize
        invariant forall i: nat | i < 64 * m :: !(Bit(locks, i) && Bit(ls.locks, i))
      {
        var res := And(locks[m], ls.locks[m]);
        if Any(res) {
          var j :| 0 <= j < 64 && res[j];
          BitOfIndex(locks, m, j);
          BitOfIndex(ls.locks, m, j);
          assert 64 * m + j in Content() * ls.Content();
          return true;
        }
        assert forall j | 0 <= j < 64 :: !res[j];
        m := m + 1;
      }
      forall i: nat
        ensures i !in Content() * ls.Content()
      {
      }
      return false;
    }
  }

  method Empty(ws: seq<Word>) returns (r: bool)
    ensures r <==> Indices(ws) == {}
  {
    for m := 0 to |ws|
      invariant forall i: nat | i < 64 * m :: !Bit(ws, i)
    {
      if Any(ws[m]) {
        var j :| 0 <= j < 64 && ws[m][j];
        BitOfIndex(ws, m, j);
        return false;
      }
    }
    return true;
  }

  /** Words are compared as memory; the longer vector may differ only by zero words. */
  method Equal(a: seq<Word>, b: seq<Word>) returns (r: bool)
    ensures r <==> Indices(a) == Indices(b)
  {
    if |a| == |b| {
      SameLengthEqual(a, b);
      return a == b;
    }
    var min := if |a| < |b| then |a| else |b|;
    if a[..min] != b[..min] {
      PrefixesDiffer(a, b, min);
      return false;
    }
    var remainder := if |a| != min then a else b;
    for m := min to |remainder|
      invariant forall i: nat | 64 * min <= i < 64 * m :: !Bit(remainder, i)
    {
      if Any(remainder[m]) {
        var j :| 0 <= j < 64 && remainder[m][j];
        BitOfIndex(remainder, m, j);
        assert 64 * m + j !in Indices(if |a| != min then b else a);
        return false;
      }
    }
    forall i: nat
      ensures Bit(a, i) <==> Bit(b, i)
    {
      if i < 64 * min {
        assert a[i / 64] == a[..min][i / 64] && b[i / 64] == b[..min][i / 64];
      }
    }
    return true;
  }

  lemma PrefixesDiffer(a: seq<Word>, b: seq<Word>, min: nat)
    requires min <= |a| && min <= |b| && a[..min] != b[..min]
    ensures Indices(a) != Indices(b)
  {
    var m :| 0 <= m < min && a[m] != b[m];
    var j :| 0 <= j < 64 && a[m][j] != b[m][j];
    BitOfIndex(a, m, j);
    BitOfIndex(b, m, j);
  }

  lemma SameLengthEqual(a: seq<Word>, b: seq<Word>)
    requires |a| == |b|
    ensures a == b <==> Indices(a) == Indices(b)
  {
    if a != b {
      assert a[..|a|] == a && b[..|a|] == b;
      PrefixesDiffer(a, b, |a|);
    }
  }

  /** A lockset under construction. */
  class Lockset {
    var locks: seq<Word>

    /** A new vector has one zero word. */
    constructor ()
      ensures locks == [ZERO] && Indices(locks) == {}
    {
      locks := [ZERO];
    }

    constructor Copy(ls: PLockset)
      ensures locks == ls.locks
    {
      locks := ls.locks;
    }

    method SetMutexInternal(index: nat, val: bool)
      modifies this
      ensures Indices(locks) == if val then old(Indices(locks)) + {index} else old(Indices(locks)) - {index}
    {
      var macro, micro := index / 64, index % 64;
      ghost var before := locks;
      if macro >= |locks| {
        locks := locks + seq(macro + 1 - |locks|, _ => ZERO);
      }
      assert forall i: nat :: Bit(locks, i) <==> Bit(before, i);
      ghost var resized := locks;
      locks := locks[macro := locks[macro][micro := val]];
      forall i: nat
        ensures Bit(locks, i) <==> if i == index then val else Bit(resized, i)
      {
        assert i == i / 64 * 64 + i % 64;
      }
    }

    method LockSpecial(mutex: nat)
      modifies this
      ensures Indices(locks) == old(Indices(locks)) + {mutex}
    {
      SetMutexInternal(mutex, true);
    }

    method UnlockSpecial(mutex: nat)
      modifies this
      ensures Indices(locks) == old(Indices(locks)) - {mutex}
    {
      SetMutexInternal(mutex, false);
    }

    method Intersect(ls: PLockset)
      modifies this
      ensures Indices(locks) == old(Indices(locks)) * ls.Content()
    {
      ghost var before := locks;
      var minSize := if |locks| < |ls.locks| then |locks| else |ls.locks|;
      locks := locks[..minSize];
      for m := 0 to minSize
        invariant |locks| == minSize
        invariant forall x | m <= x < minSize :: locks[x] == before[x]
        invariant forall x | 0 <= x < m :: locks[x] == And(before[x], ls.locks[x])
      {
        locks := locks[m := And(locks[m], ls.locks[m])];
      }
      assert forall i: nat :: Bit(locks, i) <==> Bit(before, i) && Bit(ls.locks, i);
    }
  }
}
