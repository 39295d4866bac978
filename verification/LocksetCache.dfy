/**
 * Hash-consed locksets: one shared pointer per content, found through a hash table
 * that compares by content.
 */
module LocksetCaches {
  import opened LockHistory
  import opened Locksets
  import opened TimedLocksets

  // --------------------------------------------------------------------- hashing

  /** How a seed absorbs one more value; nothing below depends on which function it is. */
  type Mixer = (nat, nat) -> nat

  /** The seed after the first `n` bit positions: only set bits mix in. */
  function BitsHash(mix: Mixer, ws: seq<Word>, n: nat): nat {
    if n == 0 then 0 else
      var seed := BitsHash(mix, ws, n - 1);
      if Bit(ws, n - 1) then mix(seed, (n - 1) / 64 + (n - 1) % 64) else seed
  }

  function WordsHash(mix: Mixer, ws: seq<Word>): nat {
    BitsHash(mix, ws, 64 * |ws|)
  }

  lemma BitPosition(ws: seq<Word>, macro: nat, i: nat, n: nat)
    requires macro < |ws| && i < 64 && n == 64 * macro + i
    ensures n / 64 == macro && n % 64 == i
    ensures Bit(ws, n) <==> ws[macro][i]
  {
  }

  lemma StepHash(mix: Mixer, ws: seq<Word>, n: nat)
    ensures BitsHash(mix, ws, n + 1) ==
              if Bit(ws, n) then mix(BitsHash(mix, ws, n), n / 64 + n % 64) else BitsHash(mix, ws, n)
  {
  }

  method HashWords(mix: Mixer, ws: seq<Word>) returns (seed: nat)
    ensures seed == WordsHash(mix, ws)
  {
    seed := 0;
    for macro := 0 to |ws|
      invariant seed == BitsHash(mix, ws, 64 * macro)
    {
      for i := 0 to 64
        invariant seed == BitsHash(mix, ws, 64 * macro + i)
      {
        ghost var n := 64 * macro + i;
        BitPosition(ws, macro, i, n);
        StepHash(mix, ws, n);
        if ws[macro][i] {
          seed := mix(seed, macro + i);
        }
      }
    }
  }

  lemma {:induction false} BitsHashSame(mix: Mixer, a: seq<Word>, b: seq<Word>, n: nat)
    requires forall i: nat | i < n :: Bit(a, i) <==> Bit(b, i)
    ensures BitsHash(mix, a, n) == BitsHash(mix, b, n)
  {
    if n > 0 {
      BitsHashSame(mix, a, b, n - 1);
    }
  }

  lemma {:induction false} TrailingZeros(mix: Mixer, ws: seq<Word>, n: nat)
    requires 64 * |ws| <= n
    ensures BitsHash(mix, ws, n) == WordsHash(mix, ws)
  {
    if 64 * |ws| < n {
      TrailingZeros(mix, ws, n - 1);
    }
  }

  /** Equal sets hash alike, whatever their word lengths. */
  lemma EqualSetsHashAlike(mix: Mixer, a: seq<Word>, b: seq<Word>)
    requires Indices(a) == Indices(b)
    ensures WordsHash(mix, a) == WordsHash(mix, b)
  {
    forall i: nat
      ensures Bit(a, i) <==> Bit(b, i)
    {
      IndexOfBit(a, i);
      IndexOfBit(b, i);
    }
    var n := 64 * (|a| + |b|);
    BitsHashSame(mix, a, b, n);
    TrailingZeros(mix, a, n);
    TrailingZeros(mix, b, n);
  }

  function Least(s: set<nat>): (k: nat)
    requires s != {}
    ensures k in s && forall j | j in s :: k <= j
  {
    LeastExists(s);
    var k :| k in s && forall j | j in s :: k <= j;
    k
  }

  lemma {:induction false} LeastExists(s: set<nat>)
    requires s != {}
    ensures exists k :: k in s && forall j | j in s :: k <= j
  {
    var x :| x in s;
    var rest := s - {x};
    if rest == {} {
      assert forall j | j in s :: j == x by { assert s == {x}; }
    } else {
      LeastExists(rest);
      var k :| k in rest && forall j | j in rest :: k <= j;
      LeastOfMore(s, rest, x, k);
    }
  }

  lemma LeastOfMore(s: set<nat>, rest: set<nat>, x: nat, k: nat)
    requires x in s && rest == s - {x} && k in rest && forall j | j in rest :: k <= j
    ensures exists k :: k in s && forall j | j in s :: k <= j
  {
    var least := if x < k then x else k;
    forall j | j in s
      ensures least <= j
    {
      assert j in rest || j == x;
    }
    assert least in s;
  }

  /** Entries mix in by ascending key; equal maps therefore hash alike. */
  function EntriesHash(mix: Mixer, timestamps: map<nat, nat>, seed: nat, macro: nat): nat
    decreases |timestamps|
  {
    if timestamps == map[] then seed else
      var k := Least(timestamps.Keys);
      var rest := timestamps - {k};
      assert |rest.Keys| < |timestamps.Keys| by { assert rest.Keys == timestamps.Keys - {k}; }
      EntriesHash(mix, rest, mix(mix(seed, macro + k), macro + timestamps[k]), macro + 1)
  }

  function TimedHash(mix: Mixer, timestamps: map<nat, nat>): nat {
    EntriesHash(mix, timestamps, 0, 0)
  }

  // ------------------------------------------------------------ the lockset cache

  class LocksetCache {
    const mix: Mixer
    var buckets: map<nat, seq<PLockset>>
    const emptyLockset: PLockset
    ghost var members: set<PLockset>

    ghost predicate Valid()
      reads this
    {
      && emptyLockset.Content() == {}
      && (forall h | h in buckets :: BucketValid(mix, h, buckets[h], members))
      && (forall p | p in members :: WordsHash(mix, p.locks) in buckets && p in buckets[WordsHash(mix, p.locks)])
    }

    /** All pointers of a bucket share its hash, and no two share a content. */
    static ghost predicate BucketValid(mix: Mixer, h: nat, bucket: seq<PLockset>, members: set<PLockset>) {
      && (forall i | 0 <= i < |bucket| :: bucket[i] in members && WordsHash(mix, bucket[i].locks) == h)
      && (forall i, j | 0 <= i < j < |bucket| :: bucket[i].Content() != bucket[j].Content())
    }

    static lemma BucketGrows(mix: Mixer, h: nat, bucket: seq<PLockset>, members: set<PLockset>, p: PLockset)
      requires BucketValid(mix, h, bucket, members) && WordsHash(mix, p.locks) == h
      requires forall q | q in members :: q.Content() != p.Content()
      ensures BucketValid(mix, h, bucket + [p], members + {p})
    {
    }

    constructor (mix: Mixer)
      ensures Valid() && members == {}
    {
      this.mix := mix;
      buckets := map[];
      emptyLockset := new PLockset([ZERO]);
      members := {};
    }

    /** Looks in the bucket of the hash only; equal sets hashing alike, that is enough. */
    method Find(ls: seq<Word>) returns (p: PLockset?)
      requires Valid()
      ensures p != null ==> p in members && p.Content() == Indices(ls)
      ensures p == null ==> forall q | q in members :: q.Content() != Indices(ls)
    {
      var h := HashWords(mix, ls);
      if h in buckets {
        for i := 0 to |buckets[h]|
          invariant forall j | 0 <= j < i :: buckets[h][j].Content() != Indices(ls)
        {
          var same := Equal(buckets[h][i].locks, ls);
          if same {
            return buckets[h][i];
          }
        }
      }
      forall q | q in members
        ensures q.Content() != Indices(ls)
      {
        if q.Content() == Indices(ls) {
          EqualSetsHashAlike(mix, q.locks, ls);
        }
      }
      return null;
    }

    /** Set insertion: reports whether the content was new. */
    method Insert(p: PLockset) returns (inserted: bool)
      requires Valid()
      modifies this
      ensures Valid()
      ensures inserted <==> forall q | q in old(members) :: q.Content() != p.Content()
      ensures inserted ==> members == old(members) + {p}
      ensures !inserted ==> members == old(members) && buckets == old(buckets)
    {
      var found := Find(p.locks);
      if found != null {
        return false;
      }
      var h := HashWords(mix, p.locks);
      var bucket := if h in buckets then buckets[h] else [];
      BucketGrows(mix, h, bucket, members, p);
      buckets := buckets[h := bucket + [p]];
      members := members + {p};
      return true;
    }

    method Get(ls: Lockset) returns (ret: PLockset)
      requires Valid()
      modifies this
      ensures Valid() && ret in members && ret.Content() == Indices(ls.locks)
      ensures old(members) <= members
    {
      var found := Find(ls.locks);
      if found == null {
        var p := new PLockset(ls.locks);
        var inserted := Insert(p);
        assert inserted;
        return p;
      }
      return found;
    }
  }

  /** One pointer per content, at any time; members stay members, so this covers every pair of calls. */
  lemma PointersAreCanonical(cache: LocksetCache, p: PLockset, q: PLockset)
    requires cache.Valid() && p in cache.members && q in cache.members
    ensures p == q <==> p.Content() == q.Content()
  {
    if p.Content() == q.Content() {
      EqualSetsHashAlike(cache.mix, p.locks, q.locks);
      var h := WordsHash(cache.mix, p.locks);
      assert LocksetCache.BucketValid(cache.mix, h, cache.buckets[h], cache.members);
    }
  }

  // ------------------------------------------------------ the timed lockset cache

  class TimedLocksetCache {
    const mix: Mixer
    var buckets: map<nat, seq<PTimedLockset>>
    ghost var members: set<PTimedLockset>

    ghost predicate Valid()
      reads this
    {
      && (forall h | h in buckets :: BucketValid(mix, h, buckets[h], members))
      && (forall p | p in members ::
            TimedHash(mix, p.timestamps) in buckets && p in buckets[TimedHash(mix, p.timestamps)])
    }

    static ghost predicate BucketValid(mix: Mixer, h: nat, bucket: seq<PTimedLockset>, members: set<PTimedLockset>) {
      && (forall i | 0 <= i < |bucket| :: bucket[i] in members && TimedHash(mix, bucket[i].timestamps) == h)
      && (forall i, j | 0 <= i < j < |bucket| :: bucket[i].timestamps != bucket[j].timestamps)
    }

    static lemma BucketGrows(mix: Mixer, h: nat, bucket: seq<PTimedLockset>, members: set<PTimedLockset>,
                             p: PTimedLockset)
      requires BucketValid(mix, h, bucket, members) && TimedHash(mix, p.timestamps) == h
      requires forall q | q in bucket :: q.timestamps != p.timestamps
      ensures BucketValid(mix, h, bucket + [p], members + {p})
    {
    }

    constructor (mix: Mixer)
      ensures Valid() && members == {}
    {
      this.mix := mix;
      buckets := map[];
      members := {};
    }

    /** Looks in the bucket of the hash only; equal maps hashing alike, that is enough. */
    method Find(timestamps: map<nat, nat>) returns (p: PTimedLockset?)
      requires Valid()
      ensures p != null ==> p in members && p.timestamps == timestamps
      ensures p == null ==> forall q | q in members :: q.timestamps != timestamps
    {
      var h := TimedHash(mix, timestamps);
      if h in buckets {
        for i := 0 to |buckets[h]|
          invariant forall j | 0 <= j < i :: buckets[h][j].timestamps != timestamps
        {
          if buckets[h][i].timestamps == timestamps {
            return buckets[h][i];
          }
        }
      }
      return null;
    }

    method Insert(p: PTimedLockset) returns (inserted: bool)
      requires Valid()
      modifies this
      ensures Valid()
      ensures inserted <==> forall q | q in old(members) :: q.timestamps != p.timestamps
      ensures inserted ==> members == old(members) + {p}
      ensures !inserted ==> members == old(members) && buckets == old(buckets)
    {
      var found := Find(p.timestamps);
      if found != null {
        return false;
      }
      var h := TimedHash(mix, p.timestamps);
      var bucket := if h in buckets then buckets[h] else [];
      BucketGrows(mix, h, bucket, members, p);
      buckets := buckets[h := bucket + [p]];
      members := members + {p};
      return true;
    }

    method Get(tls: TimedLockset) returns (ret: PTimedLockset)
      requires Valid()
      modifies this
      ensures Valid() && ret in members && ret.timestamps == tls.timestamps
      ensures old(members) <= members
    {
      var found := Find(tls.timestamps);
      if found == null {
        var p := new PTimedLockset(tls.timestamps);
        var inserted := Insert(p);
        assert inserted;
        return p;
      }
      return found;
    }
  }

  lemma TimedPointersAreCanonical(cache: TimedLocksetCache, p: PTimedLockset, q: PTimedLockset)
    requires cache.Valid() && p in cache.members && q in cache.members
    ensures p == q <==> p.timestamps == q.timestamps
  {
    var h := TimedHash(cache.mix, p.timestamps);
    assert TimedLocksetCache.BucketValid(cache.mix, h, cache.buckets[h], cache.members);
  }

  // ---------------------------------------------------------------- intersections

  method IntersectLockset(cache: LocksetCache, ls1: PLockset, ls2: PLockset) returns (p: PLockset)
    requires cache.Valid()
    modifies cache
    ensures cache.Valid() && p.Content() == ls1.Content() * ls2.Content()
    ensures p == cache.emptyLockset || p == ls1 || p in cache.members
    ensures old(cache.members) <= cache.members
  {
    var empty1 := Empty(ls1.locks);
    if empty1 {
      return cache.emptyLockset;
    }
    var empty2 := Empty(ls2.locks);
    if empty2 {
      return cache.emptyLockset;
    }
    if ls1 == ls2 {
      return ls1;
    }
    var result := new Lockset.Copy(ls1);
    result.Intersect(ls2);
    p := cache.Get(result);
  }

  /** For all inputs, fast paths included, the content is the timed intersection. */
  method IntersectTimedLockset(cache: LocksetCache, tls1: PTimedLockset, tls2: PTimedLockset) returns (p: PLockset)
    requires cache.Valid()
    modifies cache
    ensures cache.Valid() && p.Content() == Common(tls1.timestamps, tls2.timestamps)
    ensures p == cache.emptyLockset || p in cache.members
    ensures old(cache.members) <= cache.members
  {
    if tls1.timestamps == map[] {
      return cache.emptyLockset;
    }
    if tls2.timestamps == map[] {
      return cache.emptyLockset;
    }
    var ls: Lockset;
    if tls1 == tls2 {
      ls := ToLockset(tls1.timestamps);
    } else {
      var result := new TimedLockset(tls1.timestamps);
      result.Intersect(tls2);
      ls := ToLockset(result.timestamps);
    }
    p := cache.Get(ls);
  }
}
