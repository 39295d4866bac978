/** Timed locksets: lock index to the timestamp of its acquisition. */
module TimedLocksets {
  import opened Locksets
  import opened Events
  import opened LockHistory
  import opened Registry

  /** A timed lockset that nothing changes any more: what a `pTimedLockset` points to. */
  class PTimedLockset {
    const timestamps: map<nat, nat>

    constructor (timestamps: map<nat, nat>)
      ensures this.timestamps == timestamps
    {
      this.timestamps := timestamps;
    }
  }

  method ToLockset(timestamps: map<nat, nat>) returns (result: Lockset)
    ensures fresh(result) && Indices(result.locks) == timestamps.Keys
  {
    result := new Lockset();
    var todo := timestamps.Keys;
    while todo != {}
      invariant todo <= timestamps.Keys
      invariant fresh(result) && Indices(result.locks) == timestamps.Keys - todo
      decreases |todo|
    {
      var m :| m in todo;
      result.LockSpecial(m);
      todo := todo - {m};
    }
  }

  class TimedLockset {
    var timestamps: map<nat, nat>
    /** The thread this is the current lockset of; tells the threads' locksets apart. */
    ghost const owner: nat

    constructor (timestamps: map<nat, nat>, ghost owner: nat := 0)
      ensures this.timestamps == timestamps && this.owner == owner
    {
      this.timestamps, this.owner := timestamps, owner;
    }

    /** Relocking a held lock overwrites its timestamp. */
    method LockSpecial(mutex: nat, timestamp: nat)
      modifies this
      ensures timestamps == old(timestamps)[mutex := timestamp]
    {
      timestamps := timestamps[mutex := timestamp];
    }

    method UnlockSpecial(mutex: nat)
      modifies this
      ensures timestamps == old(timestamps) - {mutex}
    {
      timestamps := timestamps - {mutex};
    }

    method Lock(registry: LockRegistry, mutex: Addr, timestamp: nat)
      requires registry.Valid()
      modifies this, registry
      ensures registry.Valid() && Extends(registry.names, old(registry.names))
      ensures registry.names.Keys == old(registry.names).Keys + {Ordinary(mutex)}
      ensures timestamps == old(timestamps)[registry.names[Ordinary(mutex)] := timestamp]
    {
      registry.RegisterMutex(mutex);
      var index := registry.GetIndex(mutex);
      timestamps := timestamps[index := timestamp];
    }

    method Unlock(registry: LockRegistry, mutex: Addr)
      requires registry.Valid()
      modifies this, registry
      ensures registry.Valid() && Extends(registry.names, old(registry.names))
      ensures registry.names.Keys == old(registry.names).Keys + {Ordinary(mutex)}
      ensures timestamps == old(timestamps) - {registry.names[Ordinary(mutex)]}
    {
      registry.RegisterMutex(mutex);
      var index := registry.GetIndex(mutex);
      timestamps := timestamps - {index};
    }

    /** Keeps the entries `tls` has with the same timestamp, erasing while iterating. */
    method Intersect(tls: PTimedLockset)
      modifies this
      ensures timestamps.Keys == Common(old(timestamps), tls.timestamps)
      ensures forall m | m in timestamps :: timestamps[m] == old(timestamps)[m]
    {
      ghost var before := timestamps;
      var todo := timestamps.Keys;
      while todo != {}
        invariant todo <= timestamps.Keys
        invariant forall m :: m in timestamps <==> m in before && (m in todo || m in Common(before, tls.timestamps))
        invariant forall m | m in timestamps :: timestamps[m] == before[m]
        decreases |todo|
      {
        var m :| m in todo;
        todo := todo - {m};
        if m !in tls.timestamps || tls.timestamps[m] != timestamps[m] {
          timestamps := timestamps - {m};
        }
      }
    }
  }
}
