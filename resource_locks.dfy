/**
 * Resources, lock types and the resource lock manager that the transaction manager drives.
 * The lock manager's own source is not part of this model: it is reduced to a reader count and
 * a writer flag per resource, and an acquire that would block on the real reader/writer mutex
 * fails instead.
 */
module ResourceLocks {
  import opened Common

  /** A uniquely lockable unit: an entry of a table, by table name and key. */
  datatype Resource = Resource(tableName: string, key: Int64)

  /** READ is shared, WRITE is exclusive. */
  datatype LockType = Read | Write

  /** Who holds one resource's mutex: how many readers, and whether a writer. */
  datatype Hold = Hold(readers: nat, writer: bool)

  const Free := Hold(0, false)

  datatype LockError = WouldBlock | NotHeld

  /** A request of type `t` can be granted now (the real mutex would not block). */
  predicate CanAcquire(h: Hold, t: LockType)
  {
    match t
    case Read => !h.writer
    case Write => !h.writer && h.readers == 0
  }

  function Acquire(h: Hold, t: LockType): (h': Hold)
    requires CanAcquire(h, t)
    ensures t == Read ==> h'.readers == h.readers + 1 && h'.writer == h.writer
    ensures t == Write ==> h'.writer && h'.readers == 0
  {
    match t
    case Read => h.(readers := h.readers + 1)
    case Write => h.(writer := true)
  }

  /** A release of type `t` matches something that is held. */
  predicate CanRelease(h: Hold, t: LockType)
  {
    match t
    case Read => h.readers > 0
    case Write => h.writer
  }

  function Release(h: Hold, t: LockType): (h': Hold)
    requires CanRelease(h, t)
    ensures t == Read ==> h'.readers + 1 == h.readers && h'.writer == h.writer
    ensures t == Write ==> !h'.writer && h'.readers == h.readers
  {
    match t
    case Read => h.(readers := h.readers - 1)
    case Write => h.(writer := false)
  }

  /** Releasing what was just acquired gives back the state before the acquire. */
  lemma ReleaseUndoesAcquire(h: Hold, t: LockType)
    requires CanAcquire(h, t)
    ensures CanRelease(Acquire(h, t), t) && Release(Acquire(h, t), t) == h
  {
  }

  /** The hold on `r` among `holds`; a resource never locked is free. */
  function HoldIn(holds: map<Resource, Hold>, r: Resource): Hold
  {
    if r in holds then holds[r] else Free
  }

  class ResourceLockManager {
    var holds: map<Resource, Hold>

    constructor ()
      ensures holds == map[]
    {
      holds := map[];
    }

    function HoldOf(r: Resource): Hold
      reads this
    {
      HoldIn(holds, r)
    }

    method Lock(r: Resource, t: LockType) returns (out: Outcome<LockError>)
      modifies this
      ensures out.Pass? <==> CanAcquire(old(HoldOf(r)), t)
      ensures out.Pass? ==> holds == old(holds)[r := Acquire(old(HoldOf(r)), t)]
      ensures out.Fail? ==> out.error == WouldBlock && unchanged(this)
    {
      var h := HoldOf(r);
      if !CanAcquire(h, t) {
        return Fail(WouldBlock);
      }
      holds := holds[r := Acquire(h, t)];
      return Pass;
    }

    method Unlock(r: Resource, t: LockType) returns (out: Outcome<LockError>)
      modifies this
      ensures out.Pass? <==> CanRelease(old(HoldOf(r)), t)
      ensures out.Pass? ==> holds == old(holds)[r := Release(old(HoldOf(r)), t)]
      ensures out.Fail? ==> out.error == NotHeld && unchanged(this)
    {
      var h := HoldOf(r);
      if !CanRelease(h, t) {
        return Fail(NotHeld);
      }
      holds := holds[r := Release(h, t)];
      return Pass;
    }
  }
}
