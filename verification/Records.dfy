/** What the detector keeps per thread, and one thread's data as the final analysis sees it. */
module Records {
  import opened Events
  import opened Locksets
  import opened TimedLocksets
  import opened VectorClocks

  /** A store that has not been fenced yet. */
  datatype StoreData = StoreData(lockset: PTimedLockset, trace: Trace)

  /** A finished store record. */
  datatype StoreFenceData = StoreFenceData(
    commonSet: PLockset, clockI: nat, writeTrace: Trace, fenceTrace: Trace,
    address: Addr, persisted: bool, wasFlushed: bool)

  /** Loads with the same key share one set of locksets. */
  datatype AccessKey = AccessKey(address: Addr, trace: Trace, clockI: nat, mask: Word)

  /** Epoch numbers are stored in 16 bits. */
  const EPOCHS := 0x1_0000

  /** Byte `a` is under a set bit of the key's mask. */
  predicate KeyCovers(key: AccessKey, a: Addr) {
    key.address <= a < key.address + 64 && key.mask[a - key.address]
  }

  datatype View = View(
    used: bool, clocks: seq<Clock>, stores: seq<StoreFenceData>, loads: map<AccessKey, set<PLockset>>)
  {
    /** Every stored epoch number names a clock. */
    ghost predicate Valid() {
      && (forall r | r in stores :: r.clockI < |clocks|)
      && (forall key | key in loads :: key.clockI < |clocks|)
    }
  }
}
