/**
 * Interned backtraces: one shared pointer per frame sequence, found in a set ordered
 * by length and then by the bytes of the frames.
 */
module Backtraces {
  import opened Events
  import opened Locksets
  import opened Records

  /** A 64-bit return address. */
  type Frame = f: nat | f < 0x1_0000_0000_0000_0000

  type Byte = b: nat | b < 256

  // ------------------------------------------------------------- frames as bytes

  /** The `n` low bytes of `x`, lowest first, as they lie in memory. */
  function LittleEndian(x: nat, n: nat): (bytes: seq<Byte>)
    ensures |bytes| == n
  {
    if n == 0 then [] else [x % 256] + LittleEndian(x / 256, n - 1)
  }

  /** What a vector of frames holds. */
  function Data(frames: seq<Frame>): (bytes: seq<Byte>)
    ensures |bytes| == 8 * |frames|
  {
    if frames == [] then [] else LittleEndian(frames[0], 8) + Data(frames[1..])
  }

  function Pow256(n: nat): (r: nat)
    ensures r >= 1
  {
    if n == 0 then 1 else 256 * Pow256(n - 1)
  }

  lemma {:induction false} LowBytesFirst(x: nat, n: nat, j: nat)
    requires j < n
    ensures LittleEndian(x, n)[j] == Shifted(x, j) % 256
  {
    if j > 0 {
      LowBytesFirst(x / 256, n - 1, j - 1);
      ShiftedFirst(x, j);
    }
  }

  /** A right shift by `j` bytes. */
  function Shifted(x: nat, j: nat): nat {
    if j == 0 then x else Shifted(x, j - 1) / 256
  }

  lemma {:induction false} ShiftedFirst(x: nat, j: nat)
    requires j > 0
    ensures Shifted(x, j) == Shifted(x / 256, j - 1)
  {
    if j > 1 {
      ShiftedFirst(x, j - 1);
    }
  }

  /** Frame after frame, and in each frame the low byte first. */
  lemma {:induction false} BytesOfFrames(frames: seq<Frame>, i: nat, j: nat)
    requires i < |frames| && j < 8
    ensures Data(frames)[8 * i + j] == Shifted(frames[i], j) % 256
  {
    if i == 0 {
      LowBytesFirst(frames[0], 8, j);
    } else {
      BytesOfFrames(frames[1..], i - 1, j);
    }
  }

  lemma {:induction false} SameBytesSameNumber(x: nat, y: nat, n: nat)
    requires LittleEndian(x, n) == LittleEndian(y, n) && x < Pow256(n) && y < Pow256(n)
    ensures x == y
  {
    if n > 0 {
      var a, b := LittleEndian(x, n), LittleEndian(y, n);
      assert x % 256 == a[0] == b[0] == y % 256;
      assert LittleEndian(x / 256, n - 1) == a[1..] == b[1..] == LittleEndian(y / 256, n - 1);
      SameBytesSameNumber(x / 256, y / 256, n - 1);
    }
  }

  lemma {:induction false} SameDataSameFrames(a: seq<Frame>, b: seq<Frame>)
    requires |a| == |b| && Data(a) == Data(b)
    ensures a == b
  {
    if a != [] {
      assert LittleEndian(a[0], 8) == Data(a)[..8] == Data(b)[..8] == LittleEndian(b[0], 8);
      assert Data(a[1..]) == Data(a)[8..] == Data(b)[8..] == Data(b[1..]);
      assert Pow256(8) == 0x1_0000_0000_0000_0000;
      SameBytesSameNumber(a[0], b[0], 8);
      SameDataSameFrames(a[1..], b[1..]);
      assert a == [a[0]] + a[1..] && b == [b[0]] + b[1..];
    }
  }

  // ---------------------------------------------------------------- the comparator

  /** `memcmp` is negative: at the first byte that differs, `a` has the smaller one. */
  ghost predicate LessBytes(a: seq<Byte>, b: seq<Byte>)
    requires |a| == |b|
  {
    exists k: nat :: k < |a| && FirstDifference(a, b, k) && a[k] < b[k]
  }

  ghost predicate FirstDifference(a: seq<Byte>, b: seq<Byte>, k: nat)
    requires |a| == |b| && k < |a|
  {
    a[k] != b[k] && forall j | 0 <= j < k :: a[j] == b[j]
  }

  /** The order of the set: shorter first, then byte by byte. */
  ghost predicate Before(a: seq<Frame>, b: seq<Frame>) {
    if |a| == |b| then LessBytes(Data(a), Data(b)) else |a| < |b|
  }

  method MemcmpIsNegative(a: seq<Byte>, b: seq<Byte>) returns (negative: bool)
    requires |a| == |b|
    ensures negative <==> LessBytes(a, b)
  {
    for k := 0 to |a|
      invariant forall j | 0 <= j < k :: a[j] == b[j]
    {
      if a[k] != b[k] {
        assert FirstDifference(a, b, k);
        return a[k] < b[k];
      }
    }
    return false;
  }

  method Compare(r1: seq<Frame>, r2: seq<Frame>) returns (less: bool)
    ensures less <==> Before(r1, r2)
    ensures |r1| < |r2| ==> less
    ensures |r1| > |r2| || r1 == r2 ==> !less
    ensures |r1| == |r2| ==>
              forall k: nat | k < 8 * |r1| && FirstDifference(Data(r1), Data(r2), k) ::
                less <==> Data(r1)[k] < Data(r2)[k]
  {
    if |r1| == |r2| {
      less := MemcmpIsNegative(Data(r1), Data(r2));
    } else {
      less := |r1| < |r2|;
    }
  }

  lemma {:induction false} DifferAt(a: seq<Byte>, b: seq<Byte>) returns (k: nat)
    requires |a| == |b| && a != b
    ensures k < |a| && FirstDifference(a, b, k)
  {
    if a[0] != b[0] {
      k := 0;
    } else {
      assert a == [a[0]] + a[1..] && b == [b[0]] + b[1..];
      var j := DifferAt(a[1..], b[1..]);
      k := j + 1;
      forall i | 0 <= i < k
        ensures a[i] == b[i]
      {
        assert i > 0 ==> a[i] == a[1..][i - 1] && b[i] == b[1..][i - 1];
      }
    }
  }

  /** Strict and total: of two frame sequences that differ, exactly one comes first. */
  lemma ComparatorIsTotal(a: seq<Frame>, b: seq<Frame>)
    ensures !(Before(a, b) && Before(b, a))
    ensures !Before(a, b) && !Before(b, a) <==> a == b
  {
    if |a| == |b| && a != b {
      if Data(a) == Data(b) {
        SameDataSameFrames(a, b);
      }
      var k := DifferAt(Data(a), Data(b));
      assert FirstDifference(Data(b), Data(a), k);
    }
  }

  lemma ComparatorIsTransitive(a: seq<Frame>, b: seq<Frame>, c: seq<Frame>)
    requires Before(a, b) && Before(b, c)
    ensures Before(a, c)
  {
    if |a| == |b| == |c| {
      var x, y, z := Data(a), Data(b), Data(c);
      var i: nat :| i < |x| && FirstDifference(x, y, i) && x[i] < y[i];
      var j: nat :| j < |y| && FirstDifference(y, z, j) && y[j] < z[j];
      assert FirstDifference(x, z, if i < j then i else j);
    }
  }

  // ----------------------------------------------------------------------- interning

  class Backtrace {
    const frames: seq<Frame>

    constructor (frames: seq<Frame>)
      ensures this.frames == frames
    {
      this.frames := frames;
    }
  }

  function Reversed<T>(s: seq<T>): (r: seq<T>)
    ensures |r| == |s| && forall i | 0 <= i < |s| :: r[i] == s[|s| - 1 - i]
  {
    seq(|s|, i requires 0 <= i < |s| => s[|s| - 1 - i])
  }

  class Interner {
    /** The ordered set, in order. */
    var backtraces: seq<Backtrace>

    ghost predicate Valid()
      reads this
    {
      forall i, j | 0 <= i < j < |backtraces| :: Before(backtraces[i].frames, backtraces[j].frames)
    }

    ghost function Members(): set<Backtrace>
      reads this
    {
      set p | p in backtraces
    }

    constructor ()
      ensures Valid() && Members() == {}
    {
      backtraces := [];
    }

    /** The first member not before `vec`, by bisection. */
    method LowerBound(vec: seq<Frame>) returns (at: nat)
      requires Valid()
      ensures at <= |backtraces|
      ensures forall i | 0 <= i < at :: Before(backtraces[i].frames, vec)
      ensures forall i | at <= i < |backtraces| :: !Before(backtraces[i].frames, vec)
    {
      var lo, hi := 0, |backtraces|;
      while lo < hi
        invariant lo <= hi <= |backtraces|
        invariant forall i | 0 <= i < lo :: Before(backtraces[i].frames, vec)
        invariant forall i | hi <= i < |backtraces| :: !Before(backtraces[i].frames, vec)
      {
        var mid := (lo + hi) / 2;
        var less := Compare(backtraces[mid].frames, vec);
        if less {
          forall i | lo <= i < mid {
            ComparatorIsTransitive(backtraces[i].frames, backtraces[mid].frames, vec);
          }
          lo := mid + 1;
        } else {
          forall i | mid < i < hi
            ensures !Before(backtraces[i].frames, vec)
          {
            if Before(backtraces[i].frames, vec) {
              ComparatorIsTransitive(backtraces[mid].frames, backtraces[i].frames, vec);
            }
          }
          hi := mid;
        }
      }
      at := lo;
    }

    /** The instruction pointer on top of the call stack, interned. */
    method GetBacktrace(ip: Frame, stack: seq<Frame>) returns (ret: Backtrace)
      requires Valid()
      modifies this
      ensures Valid() && old(Members()) <= Members()
      ensures ret in Members() && ret.frames == [ip] + Reversed(stack)
      ensures Members() <= old(Members()) + {ret}
    {
      var vec := [ip] + Reversed(stack);
      var at := LowerBound(vec);
      if at < |backtraces| {
        var greater := Compare(vec, backtraces[at].frames);
        if !greater {
          ComparatorIsTotal(vec, backtraces[at].frames);
          return backtraces[at];
        }
      }
      ret := new Backtrace(vec);
      forall i | at < i < |backtraces| {
        ComparatorIsTransitive(vec, backtraces[at].frames, backtraces[i].frames);
      }
      backtraces := backtraces[..at] + [ret] + backtraces[at..];
    }
  }

  /** One pointer per content: members stay members, so this covers any two calls. */
  lemma PointersAreCanonical(interner: Interner, p: Backtrace, q: Backtrace)
    requires interner.Valid() && p in interner.Members() && q in interner.Members()
    ensures p == q <==> p.frames == q.frames
  {
    var i :| 0 <= i < |interner.backtraces| && interner.backtraces[i] == p;
    var j :| 0 <= j < |interner.backtraces| && interner.backtraces[j] == q;
    ComparatorIsTotal(p.frames, q.frames);
  }

  // ------------------------------------------------------- keys that hold the pointer

  /** A load key as the code stores it. */
  datatype PointerKey = PointerKey(address: Addr, backtrace: Backtrace, clockI: nat, mask: Word)

  function ContentOf(key: PointerKey): AccessKey {
    AccessKey(key.address, Frames(key.backtrace.frames), key.clockI, key.mask)
  }

  function TraceAt(p: Backtrace?): Trace {
    if p == null then NoTrace else Frames(p.frames)
  }

  /** Keying loads by pointer is keying them by content. */
  lemma PointerKeysAreContentKeys(interner: Interner, k: PointerKey, l: PointerKey)
    requires interner.Valid() && k.backtrace in interner.Members() && l.backtrace in interner.Members()
    ensures k == l <==> ContentOf(k) == ContentOf(l)
  {
    PointersAreCanonical(interner, k.backtrace, l.backtrace);
  }

  /** So is keying reports, where the null pointer stands for a thread exit. */
  lemma ReportPointersAreTraces(interner: Interner, p: Backtrace?, q: Backtrace?)
    requires interner.Valid() && (p != null ==> p in interner.Members()) && (q != null ==> q in interner.Members())
    ensures p == q <==> TraceAt(p) == TraceAt(q)
  {
    if p != null && q != null {
      PointersAreCanonical(interner, p, q);
    }
  }
}
