/**
 * The locks the transaction registry records, as a value: for each client, the resources its
 * transaction has locked and how. This module states when the resource lock manager's holds are
 * in step with those records, and that a registry in step with the lock manager never has two
 * transactions holding one resource unless both only read it.
 */
module LockState {
  import opened Common
  import opened ResourceLocks

  /** Each client's locked resources, as its transaction records them. */
  type LockTable = map<ClientId, map<Resource, LockType>>

  /** A lock held with type `held` conflicts with a request of type `requested`. */
  predicate Conflicts(held: LockType, requested: LockType)
  {
    held == Write || requested == Write
  }

  ghost function Readers(locks: LockTable, r: Resource): set<ClientId>
  {
    set c | c in locks && r in locks[c] && locks[c][r] == Read
  }

  ghost function Writers(locks: LockTable, r: Resource): set<ClientId>
  {
    set c | c in locks && r in locks[c] && locks[c][r] == Write
  }

  /** The lock manager holds each resource exactly as the recorded locks add up to. */
  ghost predicate Coupled(holds: map<Resource, Hold>, locks: LockTable)
  {
    forall r :: HoldIn(holds, r) == Hold(|Readers(locks, r)|, Writers(locks, r) != {})
  }

  /** A writer, if any, is the only holder. */
  ghost predicate SoleWriter(readers: set<ClientId>, writers: set<ClientId>)
  {
    forall c | c in writers :: writers == {c} && readers == {}
  }

  /** Whoever writes `r` holds it alone. */
  ghost predicate WriterAlone(locks: LockTable, r: Resource)
  {
    SoleWriter(Readers(locks, r), Writers(locks, r))
  }

  /** No resource is written by one client while another holds it. */
  ghost predicate Exclusive(locks: LockTable)
  {
    forall r :: WriterAlone(locks, r)
  }

  ghost predicate InStep(holds: map<Resource, Hold>, locks: LockTable)
  {
    Coupled(holds, locks) && Exclusive(locks)
  }

  /** Exclusive registries let two clients share a resource only when both hold it for reading. */
  lemma ExclusiveIsPairwise(locks: LockTable)
    requires Exclusive(locks)
    ensures forall c, d, r | c in locks && d in locks && c != d && r in locks[c] && r in locks[d] ::
      locks[c][r] == Read && locks[d][r] == Read
  {
    forall c, d, r | c in locks && d in locks && c != d && r in locks[c] && r in locks[d]
      ensures locks[c][r] == Read && locks[d][r] == Read
    {
      assert WriterAlone(locks, r);
      assert c in Readers(locks, r) || c in Writers(locks, r);
      assert d in Readers(locks, r) || d in Writers(locks, r);
    }
  }

  /** How the readers and writers of `r` change when client `c`'s lock map becomes `m`. */
  lemma Reassign(locks: LockTable, c: ClientId, m: map<Resource, LockType>, r: Resource)
    ensures Readers(locks[c := m], r)
         == (Readers(locks, r) - {c}) + (if r in m && m[r] == Read then {c} else {})
    ensures Writers(locks[c := m], r)
         == (Writers(locks, r) - {c}) + (if r in m && m[r] == Write then {c} else {})
  {
  }

  /** How the readers and writers of `r` change when client `c` leaves. */
  lemma Remove(locks: LockTable, c: ClientId, r: Resource)
    ensures Readers(locks - {c}, r) == Readers(locks, r) - {c}
    ensures Writers(locks - {c}, r) == Writers(locks, r) - {c}
  {
  }

  /**
   * With the lock manager in step, a request can be granted at once exactly when no client
   * holds the resource in conflict with it: the lock manager refuses what the conflict scan finds.
   */
  lemma GrantIffNoConflict(holds: map<Resource, Hold>, locks: LockTable, r: Resource, t: LockType)
    requires Coupled(holds, locks)
    ensures CanAcquire(HoldIn(holds, r), t) <==>
      forall c | c in locks && r in locks[c] :: !Conflicts(locks[c][r], t)
  {
    assert HoldIn(holds, r) == Hold(|Readers(locks, r)|, Writers(locks, r) != {});
    forall d | d in Writers(locks, r) ensures d in locks && r in locks[d] && Conflicts(locks[d][r], t) {
    }
    forall d | d in Readers(locks, r) ensures d in locks && r in locks[d] && (t == Write ==> Conflicts(locks[d][r], t)) {
    }
    forall d | d in locks && r in locks[d] ensures d in Readers(locks, r) || d in Writers(locks, r) {
    }
  }

  /** Changing `c`'s lock map anywhere but at `r` leaves the readers and writers of `r` alone. */
  lemma Untouched(locks: LockTable, c: ClientId, m: map<Resource, LockType>, r: Resource)
    requires c in locks
    requires r in m <==> r in locks[c]
    requires r in m ==> m[r] == locks[c][r]
    ensures Readers(locks[c := m], r) == Readers(locks, r)
    ensures Writers(locks[c := m], r) == Writers(locks, r)
  {
    Reassign(locks, c, m, r);
  }

  /** A client joining with no locks keeps the registry in step. */
  lemma JoinKeepsInStep(holds: map<Resource, Hold>, locks: LockTable, c: ClientId)
    requires InStep(holds, locks)
    requires c !in locks
    ensures InStep(holds, locks[c := map[]])
  {
    forall r
      ensures Readers(locks[c := map[]], r) == Readers(locks, r)
      ensures Writers(locks[c := map[]], r) == Writers(locks, r)
      ensures WriterAlone(locks[c := map[]], r)
    {
      Reassign(locks, c, map[], r);
      assert WriterAlone(locks, r);
    }
  }

  /** Lock manager and registry at `r` itself after `c` is granted `r` with type `t`. */
  lemma GrantHere(holds: map<Resource, Hold>, locks: LockTable, c: ClientId, r: Resource, t: LockType)
    requires InStep(holds, locks)
    requires c in locks && r !in locks[c]
    requires CanAcquire(HoldIn(holds, r), t)
    ensures var locks', holds' := locks[c := locks[c][r := t]], holds[r := Acquire(HoldIn(holds, r), t)];
      && HoldIn(holds', r) == Hold(|Readers(locks', r)|, Writers(locks', r) != {})
      && WriterAlone(locks', r)
  {
    Reassign(locks, c, locks[c][r := t], r);
    assert HoldIn(holds, r) == Hold(|Readers(locks, r)|, Writers(locks, r) != {});
    assert c !in Readers(locks, r) && c !in Writers(locks, r);
  }

  /** Lock manager and registry at any resource after `c` is granted `r` with type `t`. */
  lemma GrantAt(holds: map<Resource, Hold>, locks: LockTable, c: ClientId, r: Resource, t: LockType, r2: Resource)
    requires InStep(holds, locks)
    requires c in locks && r !in locks[c]
    requires CanAcquire(HoldIn(holds, r), t)
    ensures var locks', holds' := locks[c := locks[c][r := t]], holds[r := Acquire(HoldIn(holds, r), t)];
      && HoldIn(holds', r2) == Hold(|Readers(locks', r2)|, Writers(locks', r2) != {})
      && WriterAlone(locks', r2)
  {
    if r2 == r {
      GrantHere(holds, locks, c, r, t);
    } else {
      Untouched(locks, c, locks[c][r := t], r2);
      assert HoldIn(holds, r2) == Hold(|Readers(locks, r2)|, Writers(locks, r2) != {});
      assert WriterAlone(locks, r2);
    }
  }

  /**
   * Granting `c` a lock on a resource it does not hold, when the lock manager allows it, keeps
   * the registry in step, and so keeps writers exclusive.
   */
  lemma GrantKeepsInStep(holds: map<Resource, Hold>, locks: LockTable, c: ClientId, r: Resource, t: LockType)
    requires InStep(holds, locks)
    requires c in locks && r !in locks[c]
    requires CanAcquire(HoldIn(holds, r), t)
    ensures InStep(holds[r := Acquire(HoldIn(holds, r), t)], locks[c := locks[c][r := t]])
  {
    var locks', holds' := locks[c := locks[c][r := t]], holds[r := Acquire(HoldIn(holds, r), t)];
    forall r2
      ensures HoldIn(holds', r2) == Hold(|Readers(locks', r2)|, Writers(locks', r2) != {})
      ensures WriterAlone(locks', r2)
    {
      GrantAt(holds, locks, c, r, t, r2);
    }
  }

  /** Lock manager and registry at `r` itself after `c` releases its lock on `r`. */
  lemma ReleaseHere(holds: map<Resource, Hold>, locks: LockTable, c: ClientId, r: Resource)
    requires InStep(holds, locks)
    requires c in locks && r in locks[c]
    ensures CanRelease(HoldIn(holds, r), locks[c][r])
    ensures var locks', holds' := locks[c := locks[c] - {r}], holds[r := Release(HoldIn(holds, r), locks[c][r])];
      && HoldIn(holds', r) == Hold(|Readers(locks', r)|, Writers(locks', r) != {})
      && Readers(locks', r) == Readers(locks, r) - {c}
      && Writers(locks', r) == Writers(locks, r) - {c}
      && WriterAlone(locks', r)
  {
    Reassign(locks, c, locks[c] - {r}, r);
    assert HoldIn(holds, r) == Hold(|Readers(locks, r)|, Writers(locks, r) != {});
    assert WriterAlone(locks, r);
    if locks[c][r] == Read {
      assert c in Readers(locks, r) && c !in Writers(locks, r);
      assert Writers(locks, r) == {};
    } else {
      assert c in Writers(locks, r);
      assert Writers(locks, r) == {c} && Readers(locks, r) == {};
    }
  }

  /** Lock manager and registry at any resource after `c` releases its lock on `r`. */
  lemma ReleaseAt(holds: map<Resource, Hold>, locks: LockTable, c: ClientId, r: Resource, r2: Resource)
    requires InStep(holds, locks)
    requires c in locks && r in locks[c]
    ensures CanRelease(HoldIn(holds, r), locks[c][r])
    ensures var locks', holds' := locks[c := locks[c] - {r}], holds[r := Release(HoldIn(holds, r), locks[c][r])];
      && HoldIn(holds', r2) == Hold(|Readers(locks', r2)|, Writers(locks', r2) != {})
      && WriterAlone(locks', r2)
  {
    ReleaseHere(holds, locks, c, r);
    if r2 != r {
      Untouched(locks, c, locks[c] - {r}, r2);
      assert HoldIn(holds, r2) == Hold(|Readers(locks, r2)|, Writers(locks, r2) != {});
      assert WriterAlone(locks, r2);
    }
  }

  /**
   * With the registry in step, the lock manager can release every lock the registry records,
   * and dropping one keeps the registry in step.
   */
  lemma ReleaseKeepsInStep(holds: map<Resource, Hold>, locks: LockTable, c: ClientId, r: Resource)
    requires InStep(holds, locks)
    requires c in locks && r in locks[c]
    ensures CanRelease(HoldIn(holds, r), locks[c][r])
    ensures InStep(holds[r := Release(HoldIn(holds, r), locks[c][r])], locks[c := locks[c] - {r}])
  {
    ReleaseHere(holds, locks, c, r);
    var locks', holds' := locks[c := locks[c] - {r}], holds[r := Release(HoldIn(holds, r), locks[c][r])];
    forall r2
      ensures HoldIn(holds', r2) == Hold(|Readers(locks', r2)|, Writers(locks', r2) != {})
      ensures WriterAlone(locks', r2)
    {
      ReleaseAt(holds, locks, c, r, r2);
    }
  }

  /** Lock manager and registry at `r` after all of `c`'s locks are released and `c` leaves. */
  lemma LeaveAt(holds: map<Resource, Hold>, holds': map<Resource, Hold>, locks: LockTable, c: ClientId, r: Resource)
    requires InStep(holds, locks)
    requires c in locks
    requires r in locks[c] ==>
      CanRelease(HoldIn(holds, r), locks[c][r]) && HoldIn(holds', r) == Release(HoldIn(holds, r), locks[c][r])
    requires r !in locks[c] ==> HoldIn(holds', r) == HoldIn(holds, r)
    ensures HoldIn(holds', r) == Hold(|Readers(locks - {c}, r)|, Writers(locks - {c}, r) != {})
    ensures WriterAlone(locks - {c}, r)
  {
    Remove(locks, c, r);
    assert HoldIn(holds, r) == Hold(|Readers(locks, r)|, Writers(locks, r) != {});
    assert WriterAlone(locks, r);
    if r in locks[c] {
      ReleaseHere(holds, locks, c, r);
    } else {
      assert c !in Readers(locks, r) && c !in Writers(locks, r);
    }
  }

  /** Releasing every lock of `c` at once, then dropping `c`, keeps the registry in step. */
  lemma LeaveKeepsInStep(holds: map<Resource, Hold>, holds': map<Resource, Hold>, locks: LockTable, c: ClientId)
    requires InStep(holds, locks)
    requires c in locks
    requires forall r | r in locks[c] ::
      CanRelease(HoldIn(holds, r), locks[c][r]) && HoldIn(holds', r) == Release(HoldIn(holds, r), locks[c][r])
    requires forall r | r !in locks[c] :: HoldIn(holds', r) == HoldIn(holds, r)
    ensures InStep(holds', locks - {c})
  {
    forall r
      ensures HoldIn(holds', r) == Hold(|Readers(locks - {c}, r)|, Writers(locks - {c}, r) != {})
      ensures WriterAlone(locks - {c}, r)
    {
      LeaveAt(holds, holds', locks, c, r);
    }
  }
}
