/**
 * The transaction manager: a registry of one running transaction per client, each with the
 * resources it has locked, on top of the resource lock manager and the waits-for graph. The
 * mutexes that guard the registry and each transaction are left out; every call is atomic.
 */
module Concurrency {
  import opened Common
  import opened ResourceLocks
  import opened WaitsFor
  import opened LockState

  datatype TxError =
    | AlreadyBegan            // "transaction already began"
    | TransactionNotFound     // "Could not find transaction with client ID"
    | UpgradeDenied           // "Trying to upgrade lock type"
    | Deadlock                // "We have a cycle"
    | LockManager(cause: LockError)
    | TypeMismatch            // "Locks not of same type"
    | NotLocked               // "Resource not in locked resources"
    | NoTransactionsRunning   // "no transactions running"

  class Transaction {
    const clientId: ClientId
    var lockedResources: map<Resource, LockType>

    constructor (clientId: ClientId)
      ensures this.clientId == clientId && lockedResources == map[]
    {
      this.clientId := clientId;
      lockedResources := map[];
    }
  }

  /** The inner loop of the conflict scan: does `t` hold `r` in a way that conflicts with `lType`? */
  method HoldsConflicting(t: Transaction, r: Resource, lType: LockType) returns (conflict: bool)
    ensures conflict <==> r in t.lockedResources && Conflicts(t.lockedResources[r], lType)
  {
    conflict := false;
    var stored := t.lockedResources.Keys;
    while stored != {}
      invariant stored <= t.lockedResources.Keys
      invariant r in t.lockedResources && r !in stored ==> !Conflicts(t.lockedResources[r], lType)
      decreases stored
    {
      var s :| s in stored;
      if s == r && (t.lockedResources[s] == Write || lType == Write) {
        conflict := true;
        break;
      }
      stored := stored - {s};
    }
  }

  /**
   * What a request for a resource the requester does not hold leaves behind, given the lock map,
   * the edge set after the conflict edges are added (`waiting`) and the lock manager's holds.
   */
  ghost predicate FreshRequestOutcome(
    held: map<Resource, LockType>, held': map<Resource, LockType>,
    waiting: set<(Transaction, Transaction)>, edges': set<(Transaction, Transaction)>,
    holds: map<Resource, Hold>, holds': map<Resource, Hold>,
    tx: Transaction, res: Resource, lType: LockType, out: Outcome<TxError>)
  {
    var hold := if res in holds then holds[res] else Free;
    if HasCycle(waiting) then
      out == Fail(Deadlock) && edges' == waiting && held' == held && holds' == holds
    else if !CanAcquire(hold, lType) then
      out == Fail(LockManager(WouldBlock)) && edges' == waiting && held' == held && holds' == holds
    else
      && out == Pass
      && held' == held[res := lType]
      && edges' == waiting - Outgoing(waiting, tx)
      && holds' == holds[res := Acquire(hold, lType)]
      && !HasCycle(edges')
  }

  class TransactionManager {
    const resourceLockManager: ResourceLockManager
    const waitsForGraph: WaitsForGraph<Transaction>
    var transactions: map<ClientId, Transaction>

    /** Each registered transaction belongs to the client it is registered under. */
    ghost predicate Valid()
      reads this
    {
      forall c | c in transactions :: transactions[c].clientId == c
    }

    /** Each client's locked resources, as the registry records them. */
    ghost function Locks(): LockTable
      reads this, transactions.Values
    {
      map c | c in transactions :: transactions[c].lockedResources
    }

    /** The lock manager holds exactly what the registry records, and a writer holds alone. */
    ghost predicate Consistent()
      reads this, transactions.Values, resourceLockManager
    {
      InStep(resourceLockManager.holds, Locks())
    }

    constructor (lm: ResourceLockManager)
      ensures Valid()
      ensures resourceLockManager == lm && transactions == map[]
      ensures fresh(waitsForGraph) && waitsForGraph.edges == {}
      ensures lm.holds == map[] ==> Consistent()
    {
      resourceLockManager := lm;
      waitsForGraph := new WaitsForGraph();
      transactions := map[];
      new;
      assert Locks() == map[];
    }

    /** The registered transactions, among those of `clients`, holding `r` in conflict with `lType`. */
    ghost function ConflictsAmong(clients: set<ClientId>, r: Resource, lType: LockType): set<Transaction>
      reads this, transactions.Values
    {
      set c | c in clients && c in transactions && r in transactions[c].lockedResources
                && Conflicts(transactions[c].lockedResources[r], lType) :: transactions[c]
    }

    ghost function ConflictSet(r: Resource, lType: LockType): set<Transaction>
      reads this, transactions.Values
    {
      ConflictsAmong(transactions.Keys, r, lType)
    }

    /** The edges a request by `tx` adds: one to each transaction it conflicts with. */
    ghost function WaitEdges(tx: Transaction, r: Resource, lType: LockType): set<(Transaction, Transaction)>
      reads this, transactions.Values
    {
      set t | t in ConflictSet(r, lType) :: (tx, t)
    }

    /**
     * In step, the lock manager grants a request at once exactly when the conflict scan finds no
     * transaction to wait for.
     */
    lemma GrantIffNoConflictingTransaction(r: Resource, t: LockType)
      requires Valid() && Consistent()
      ensures CanAcquire(resourceLockManager.HoldOf(r), t) <==> ConflictSet(r, t) == {}
    {
      var locks := Locks();
      GrantIffNoConflict(resourceLockManager.holds, locks, r, t);
      if ConflictSet(r, t) != {} {
        var x :| x in ConflictSet(r, t);
        var c :| c in transactions && r in transactions[c].lockedResources
                 && Conflicts(transactions[c].lockedResources[r], t) && transactions[c] == x;
        assert c in locks && r in locks[c] && Conflicts(locks[c][r], t);
      }
      forall c | c in locks && r in locks[c] && Conflicts(locks[c][r], t)
        ensures transactions[c] in ConflictSet(r, t)
      {
      }
    }

    method GetTransaction(clientId: ClientId) returns (tx: Transaction?, found: bool)
      ensures found <==> clientId in transactions
      ensures found ==> tx == transactions[clientId]
      ensures !found ==> tx == null
    {
      if clientId in transactions {
        tx, found := transactions[clientId], true;
      } else {
        tx, found := null, false;
      }
    }

    method Begin(clientId: ClientId) returns (out: Outcome<TxError>)
      requires Valid()
      modifies this
      ensures Valid()
      ensures clientId in old(transactions) ==> out == Fail(AlreadyBegan) && transactions == old(transactions)
      ensures clientId !in old(transactions) ==>
        && out == Pass
        && clientId in transactions
        && fresh(transactions[clientId])
        && transactions[clientId].lockedResources == map[]
        && transactions == old(transactions)[clientId := transactions[clientId]]
      ensures old(Consistent()) ==> Consistent()
    {
      if clientId in transactions {
        return Fail(AlreadyBegan);
      }
      ghost var locks := Locks();
      var tx := new Transaction(clientId);
      transactions := transactions[clientId := tx];
      assert Locks() == locks[clientId := map[]];
      if old(Consistent()) {
        JoinKeepsInStep(resourceLockManager.holds, locks, clientId);
      }
      return Pass;
    }

    /** Every registered transaction that holds `r` in conflict with `lType`, each once. */
    method ConflictingTransactions(r: Resource, lType: LockType) returns (txs: seq<Transaction>)
      requires Valid()
      ensures forall t :: t in txs <==> t in ConflictSet(r, lType)
      ensures forall i, j | 0 <= i < j < |txs| :: txs[i] != txs[j]
    {
      txs := [];
      var pending := transactions.Keys;
      while pending != {}
        invariant pending <= transactions.Keys
        invariant forall t :: t in txs <==> t in ConflictsAmong(transactions.Keys - pending, r, lType)
        invariant forall i | 0 <= i < |txs| :: txs[i].clientId in transactions.Keys - pending
        invariant forall i, j | 0 <= i < j < |txs| :: txs[i] != txs[j]
        decreases pending
      {
        var c :| c in pending;
        var t := transactions[c];
        var conflict := HoldsConflicting(t, r, lType);
        if conflict {
          txs := txs + [t];
        }
        pending := pending - {c};
      }
    }

    /** The edge-adding loop of `Lock`: `tx` waits for each of `conflicts`. */
    method AddWaitEdges(tx: Transaction, conflicts: seq<Transaction>)
      modifies waitsForGraph
      ensures waitsForGraph.edges == old(waitsForGraph.edges) + set t | t in conflicts :: (tx, t)
    {
      var i := 0;
      while i < |conflicts|
        invariant 0 <= i <= |conflicts|
        invariant waitsForGraph.edges == old(waitsForGraph.edges) + set t | t in conflicts[..i] :: (tx, t)
      {
        assert conflicts[..i + 1] == conflicts[..i] + [conflicts[i]];
        waitsForGraph.AddEdge(tx, conflicts[i]);
        i := i + 1;
      }
      assert conflicts[..i] == conflicts;
    }

    /** The edge-removing loop at the end of `Lock`: drop every edge out of `tx`, one at a time. */
    method StopWaiting(tx: Transaction)
      modifies waitsForGraph
      ensures waitsForGraph.edges == old(waitsForGraph.edges) - Outgoing(old(waitsForGraph.edges), tx)
    {
      var edges := waitsForGraph.edges;
      while edges != {}
        invariant edges <= old(waitsForGraph.edges)
        invariant waitsForGraph.edges
                  == old(waitsForGraph.edges) - Outgoing(old(waitsForGraph.edges) - edges, tx)
        decreases edges
      {
        var e :| e in edges;
        if e.0 == tx {
          waitsForGraph.RemoveEdge(tx, e.1);
        }
        edges := edges - {e};
      }
    }

    method Lock(clientId: ClientId, tableName: string, resourceKey: Int64, lType: LockType)
      returns (out: Outcome<TxError>)
      requires Valid()
      modifies waitsForGraph, resourceLockManager, transactions.Values
      ensures Valid() && transactions == old(transactions)
      ensures forall c | c in transactions && c != clientId ::
        transactions[c].lockedResources == old(transactions[c].lockedResources)
      ensures clientId !in transactions ==>
        out == Fail(TransactionNotFound) && unchanged(waitsForGraph, resourceLockManager)
      // Already holding the resource: the same type, or READ under WRITE, is a no-op;
      // READ to WRITE is refused.
      ensures clientId in transactions ==>
        var tx, res := transactions[clientId], Resource(tableName, resourceKey);
        var held := old(tx.lockedResources);
        res in held ==>
          && tx.lockedResources == held
          && unchanged(waitsForGraph, resourceLockManager)
          && (out == Pass <==> held[res] == lType || held[res] == Write)
          && (out != Pass ==> out == Fail(UpgradeDenied))
      ensures clientId in transactions ==>
        var tx, res := transactions[clientId], Resource(tableName, resourceKey);
        res !in old(tx.lockedResources) ==>
          FreshRequestOutcome(old(tx.lockedResources), tx.lockedResources,
                              old(waitsForGraph.edges) + old(WaitEdges(tx, res, lType)), waitsForGraph.edges,
                              old(resourceLockManager.holds), resourceLockManager.holds, tx, res, lType, out)
      // With the lock manager in step: it stays in step, and once no deadlock is found a fresh
      // request fails exactly when some transaction holds the resource in conflict with it.
      ensures old(Consistent()) ==> Consistent()
      ensures clientId in transactions && old(Consistent()) ==>
        var tx, res := transactions[clientId], Resource(tableName, resourceKey);
        res !in old(tx.lockedResources) && !HasCycle(old(waitsForGraph.edges) + old(WaitEdges(tx, res, lType))) ==>
          (out == Pass <==> old(ConflictSet(res, lType)) == {})
    {
      var registered, found := GetTransaction(clientId);
      var res := Resource(tableName, resourceKey);
      if !found {
        return Fail(TransactionNotFound);
      }
      var tx: Transaction := registered;
      if res in tx.lockedResources {
        var existing := tx.lockedResources[res];
        if existing == lType || (existing == Write && lType == Read) {
          return Pass;
        } else if existing == Read && lType == Write {
          return Fail(UpgradeDenied);
        }
      }
      out := RequestFresh(tx, res, lType);
    }

    /**
     * A request for a resource `tx` does not hold: wait for every conflicting transaction, refuse
     * on a cycle (keeping the new edges), acquire, record, and drop every edge out of `tx`.
     */
    method RequestFresh(tx: Transaction, res: Resource, lType: LockType) returns (out: Outcome<TxError>)
      requires Valid()
      requires tx.clientId in transactions && transactions[tx.clientId] == tx
      requires res !in tx.lockedResources
      modifies tx, waitsForGraph, resourceLockManager
      ensures FreshRequestOutcome(old(tx.lockedResources), tx.lockedResources,
                                  old(waitsForGraph.edges) + old(WaitEdges(tx, res, lType)), waitsForGraph.edges,
                                  old(resourceLockManager.holds), resourceLockManager.holds, tx, res, lType, out)
      ensures old(Consistent()) ==> Consistent()
      ensures old(Consistent()) && !HasCycle(old(waitsForGraph.edges) + old(WaitEdges(tx, res, lType))) ==>
        (out == Pass <==> old(ConflictSet(res, lType)) == {})
    {
      ghost var waiting := waitsForGraph.edges + WaitEdges(tx, res, lType);
      var cyclic := WaitForConflicts(tx, res, lType);
      if cyclic {
        return Fail(Deadlock);
      }
      out := Grant(tx, res, lType);
      if out == Pass {
        AcyclicSubset(waitsForGraph.edges, waiting);
      }
    }

    /** The deadlock test of `Lock`: `tx` waits for every conflicting transaction; is there now a cycle? */
    method WaitForConflicts(tx: Transaction, res: Resource, lType: LockType) returns (cyclic: bool)
      requires Valid()
      modifies waitsForGraph
      ensures waitsForGraph.edges == old(waitsForGraph.edges) + WaitEdges(tx, res, lType)
      ensures cyclic == HasCycle(waitsForGraph.edges)
    {
      var conflicts := ConflictingTransactions(res, lType);
      AddWaitEdges(tx, conflicts);
      assert (set t | t in conflicts :: (tx, t)) == WaitEdges(tx, res, lType);
      cyclic := waitsForGraph.DetectCycle();
    }

    /**
     * The granting step of `Lock`: take the resource in the lock manager, record it, and drop
     * every edge out of `tx`; a refusal changes nothing.
     */
    method Grant(tx: Transaction, res: Resource, lType: LockType) returns (out: Outcome<TxError>)
      requires Valid()
      requires tx.clientId in transactions && transactions[tx.clientId] == tx
      requires res !in tx.lockedResources
      modifies tx, waitsForGraph, resourceLockManager
      ensures var hold := old(resourceLockManager.HoldOf(res));
        if CanAcquire(hold, lType) then
          && out == Pass
          && tx.lockedResources == old(tx.lockedResources)[res := lType]
          && resourceLockManager.holds == old(resourceLockManager.holds)[res := Acquire(hold, lType)]
          && waitsForGraph.edges == old(waitsForGraph.edges) - Outgoing(old(waitsForGraph.edges), tx)
        else
          out == Fail(LockManager(WouldBlock)) && unchanged(tx, waitsForGraph, resourceLockManager)
      ensures old(Consistent()) ==> Consistent() && (out == Pass <==> old(ConflictSet(res, lType)) == {})
    {
      ghost var locks, holds, consistent := Locks(), resourceLockManager.holds, Consistent();
      if consistent {
        GrantIffNoConflictingTransaction(res, lType);
      }
      var err := resourceLockManager.Lock(res, lType);
      if err.Fail? {
        return Fail(LockManager(err.error));
      }
      tx.lockedResources := tx.lockedResources[res := lType];
      assert Locks() == locks[tx.clientId := locks[tx.clientId][res := lType]];
      if consistent {
        GrantKeepsInStep(holds, locks, tx.clientId, res, lType);
      }
      StopWaiting(tx);
      return Pass;
    }

    method Unlock(clientId: ClientId, tableName: string, resourceKey: Int64, lType: LockType)
      returns (out: Outcome<TxError>)
      requires Valid()
      modifies resourceLockManager, transactions.Values
      ensures Valid() && transactions == old(transactions) && unchanged(waitsForGraph)
      ensures forall c | c in transactions && c != clientId ::
        transactions[c].lockedResources == old(transactions[c].lockedResources)
      ensures clientId !in transactions ==>
        out == Fail(TransactionNotFound) && unchanged(resourceLockManager)
      ensures clientId in transactions ==>
        var tx, res := transactions[clientId], Resource(tableName, resourceKey);
        var held := old(tx.lockedResources);
        var hold := old(resourceLockManager.HoldOf(res));
        if res !in held then
          out == Fail(NotLocked) && tx.lockedResources == held && unchanged(resourceLockManager)
        else if held[res] != lType then
          out == Fail(TypeMismatch) && tx.lockedResources == held && unchanged(resourceLockManager)
        else
          // The entry is dropped before the lock manager is asked, and stays dropped if it refuses.
          && tx.lockedResources == held - {res}
          && (out == Pass <==> CanRelease(hold, lType))
          && (out == Pass ==> resourceLockManager.holds == old(resourceLockManager.holds)[res := Release(hold, lType)])
          && (out != Pass ==> out == Fail(LockManager(NotHeld)) && unchanged(resourceLockManager))
      // With the lock manager in step, it stays in step and never refuses the release.
      ensures old(Consistent()) ==> Consistent() && out != Fail(LockManager(NotHeld))
    {
      ghost var locks, holds, consistent := Locks(), resourceLockManager.holds, Consistent();
      var registered, found := GetTransaction(clientId);
      var res := Resource(tableName, resourceKey);
      if !found {
        return Fail(TransactionNotFound);
      }
      var tx: Transaction := registered;
      if res in tx.lockedResources {
        var existing := tx.lockedResources[res];
        if existing != lType {
          return Fail(TypeMismatch);
        }
        tx.lockedResources := tx.lockedResources - {res};
        assert Locks() == locks[clientId := locks[clientId] - {res}];
        if consistent {
          ReleaseKeepsInStep(holds, locks, clientId, res);
        }
      } else {
        return Fail(NotLocked);
      }
      var err := resourceLockManager.Unlock(res, lType);
      if err.Fail? {
        return Fail(LockManager(err.error));
      }
      return Pass;
    }

    method Commit(clientId: ClientId) returns (out: Outcome<TxError>)
      requires Valid()
      modifies this, resourceLockManager
      ensures Valid() && unchanged(waitsForGraph)
      ensures clientId !in old(transactions) ==>
        out == Fail(NoTransactionsRunning) && transactions == old(transactions) && unchanged(resourceLockManager)
      ensures clientId in old(transactions) ==>
        var locked := old(transactions[clientId].lockedResources);
        && (out == Pass <==> forall r | r in locked :: CanRelease(old(resourceLockManager.HoldOf(r)), locked[r]))
        // Success: every held lock released, and the client no longer registered.
        && (out == Pass ==>
              && transactions == old(transactions) - {clientId}
              && forall r :: resourceLockManager.HoldOf(r)
                   == if r in locked then Release(old(resourceLockManager.HoldOf(r)), locked[r])
                      else old(resourceLockManager.HoldOf(r)))
        // Early return on the first refused release: still registered, some locks already released.
        && (out != Pass ==>
              && out == Fail(LockManager(NotHeld))
              && transactions == old(transactions)
              && forall r :: resourceLockManager.HoldOf(r) == old(resourceLockManager.HoldOf(r))
                   || (r in locked && CanRelease(old(resourceLockManager.HoldOf(r)), locked[r])
                       && resourceLockManager.HoldOf(r) == Release(old(resourceLockManager.HoldOf(r)), locked[r])))
      // With the lock manager in step, no release is refused, and it stays in step.
      ensures old(Consistent()) && clientId in old(transactions) ==> out == Pass
      ensures old(Consistent()) ==> Consistent()
    {
      if clientId !in transactions {
        return Fail(NoTransactionsRunning);
      }
      var t := transactions[clientId];
      var locked := t.lockedResources;
      ghost var locks, consistent := Locks(), Consistent();
      if consistent {
        forall r | r in locked ensures CanRelease(resourceLockManager.HoldOf(r), locked[r]) {
          ReleaseHere(resourceLockManager.holds, locks, clientId, r);
        }
      }
      var pending := locked.Keys;
      while pending != {}
        modifies resourceLockManager
        invariant pending <= locked.Keys
        invariant consistent ==> forall r | r in locked :: CanRelease(old(resourceLockManager.HoldOf(r)), locked[r])
        invariant forall r | r in locked && r !in pending :: CanRelease(old(resourceLockManager.HoldOf(r)), locked[r])
        invariant forall r :: resourceLockManager.HoldOf(r)
                    == if r in locked && r !in pending then Release(old(resourceLockManager.HoldOf(r)), locked[r])
                       else old(resourceLockManager.HoldOf(r))
        decreases pending
      {
        var r :| r in pending;
        var err := resourceLockManager.Unlock(r, locked[r]);
        if err.Fail? {
          return Fail(LockManager(err.error));
        }
        pending := pending - {r};
      }
      transactions := transactions - {clientId};
      assert Locks() == locks - {clientId};
      if consistent {
        LeaveKeepsInStep(old(resourceLockManager.holds), resourceLockManager.holds, locks, clientId);
      }
      return Pass;
    }
  }
}
