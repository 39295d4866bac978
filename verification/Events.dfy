/**
 * The vocabulary shared by every module: what the instrumented program can do
 * (one `Event` per call into the detector) and the history in which it did it.
 *
 * Addresses, sizes and identifiers are mathematical naturals; the places where
 * the detector truncates a counter write the truncation out.
 */
module Events {

  type Tid = nat
  type Addr = nat

  /** A backtrace is an opaque frame sequence; `NoTrace` is the null pointer used at thread exit. */
  datatype Trace = NoTrace | Frames(frames: seq<nat>)

  /** A lock address of the program, or an acquire/release scope numbered at image load. */
  datatype Mutex = Ordinary(addr: Addr) | Special(id: nat)

  datatype Event =
    | Store(tid: Tid, addr: Addr, size: nat, trace: Trace)
    | Flush(tid: Tid, addr: Addr)
    | Fence(tid: Tid, trace: Trace)
    | Load(tid: Tid, addr: Addr, size: nat, trace: Trace)
    | Lock(tid: Tid, mutex: Mutex)
    | Unlock(tid: Tid, mutex: Mutex)
    | Create(tid: Tid, child: Tid)
    | Init(tid: Tid)
    | Join(tid: Tid, other: Tid)
    | Exit(tid: Tid)

  /** Every history is a log; an event is named by its position. */
  type Log = seq<Event>

  /** The address of the 64-byte line that byte `a` is in. */
  function CacheLine(a: Addr): (line: Addr)
    ensures line % 64 == 0 && line <= a < line + 64
  {
    a / 64 * 64
  }

  /** The store or load `e` touches byte `a`. */
  predicate Covers(e: Event, a: Addr) {
    (e.Store? || e.Load?) && e.addr <= a < e.addr + e.size
  }

  /** Creating, starting, joining and exiting push a new vector clock; nothing else does. */
  predicate PushesClock(e: Event) {
    e.Create? || e.Init? || e.Join? || e.Exit?
  }

  datatype Option<+T> = None | Some(value: T)

  function Last<T>(s: seq<T>): T
    requires |s| > 0
  {
    s[|s| - 1]
  }
}
