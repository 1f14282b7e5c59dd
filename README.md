# Transaction and recovery bookkeeping of an embedded database, in Dafny

This project models two cores of a small embedded key-value database and proves properties of them.

**The transaction manager** (`pkg/concurrency/transaction_manager.go`) keeps a registry with one running transaction per client. Each transaction records the resources it has locked: a resource is a (table name, key) pair, and each lock is READ or WRITE.

- `Begin` and `Commit` add and remove registry entries.
- `Lock` does the following, in order:
  - treats a duplicate request as a no-op;
  - refuses a READ→WRITE upgrade;
  - adds a waits-for edge to every transaction holding the resource in conflict;
  - rejects the request as a deadlock if the waits-for graph now has a cycle;
  - takes the resource in the resource lock manager;
  - records the lock;
  - drops every edge out of the requester.
- `Unlock` releases one recorded lock. The lock type must match.

The resource lock manager and the waits-for graph come from files outside this model. Each is reduced to abstract state:

- The lock manager is a reader count and a writer flag per resource. A request the real reader/writer mutex would block on fails instead.
- The graph is a set of edges. Its cycle test is defined by reachability.

On top of the source's own behaviour, the model proves an invariant `Consistent`: the lock manager's holds are exactly what the registry records, and a writer holds its resource alone. `Begin`, `Lock`, `Unlock` and `Commit` all preserve it. While it holds:

- the lock manager refuses a request exactly when a conflicting transaction exists;
- `Unlock` and `Commit` never meet a refused release.

**The recovery manager** (`pkg/recovery/recovery_manager.go`) keeps the write-ahead log. The log file is modelled as a sequence of lines. A line is either a record, or text that does not parse (such as the empty text after the final newline).

- `Table`, `Start`, `Edit`, `Commit` and `Checkpoint` each append one record. A write may fail or may fail to sync: the `Io` parameter says which.
- `Edit` pushes onto the client's undo stack, and `Commit` drops that stack.
- `Checkpoint` names every client that has a stack.

Under the invariant `InSync`, every undo stack equals the client's edits since its last commit record, as the lines written since opening give them. Every operation preserves `InSync`, except an `Edit` or a `Commit` whose write is lost: a lost `Edit` pushes an edit the log does not show, and a lost `Commit` of a client with pending edits drops a stack the log still shows.

`redo` and `undo` dispatch onto an abstract storage engine, a map from table name to a map from key to value. On that engine:

- undo reverts redo;
- replaying an insert or update twice is the same as replaying it once;
- replaying a delete twice fails.

`getRelevantStrings` is the backward scan. It runs until it has seen the newest checkpoint and a start record for every client that checkpoint names. It is proved against a specification of where the scan stops. `readLogs` parses every scanned line except the last.

Where the code and its comments disagree, the model follows the code. The doc comment of `readLogs` (`pkg/recovery/recovery_manager.go:321-322`) promises `len(logs)` as the checkpoint index when there is no checkpoint. The scan returns 0 whenever it reaches the start of the file, and `ScanShape` states exactly that.

Files:

| file | module | contents |
|---|---|---|
| `common.dfy` | `Common` | client ids, 64-bit integers, `Outcome` and `Result` |
| `resource_locks.dfy` | `ResourceLocks` | resources, lock types, the abstract resource lock manager |
| `waits_for.dfy` | `WaitsFor` | the waits-for graph and its cycle test |
| `lock_state.dfy` | `LockState` | the registry's locks as a value; the in-step invariant and its preservation |
| `transaction_manager.dfy` | `Concurrency` | `Transaction` and `TransactionManager` |
| `storage.dfy` | `Storage` | the abstract storage engine that redo and undo act on |
| `recovery_manager.dfy` | `Recovery` | log records, `RecoveryManager`, redo/undo, the backward scan and `readLogs` |

## Model

| member | source | states |
|---|---|---|
| `Concurrency.TransactionManager.constructor` | pkg/concurrency/transaction_manager.go:22-28 | the given lock manager, a fresh empty waits-for graph and no transactions; `Consistent` when the lock manager holds nothing |
| `Concurrency.TransactionManager.GetTransaction` | pkg/concurrency/transaction_manager.go:39-44 | found exactly when the client is registered, and then the transaction is the registered one |
| `Concurrency.TransactionManager.Begin` | pkg/concurrency/transaction_manager.go:47-56 | fails with the registry unchanged if the client already has a transaction; otherwise adds exactly one fresh entry with no locks; keeps `Consistent` |
| `Concurrency.HoldsConflicting` | pkg/concurrency/transaction_manager.go:175-180 | the inner scan finds a match exactly when the transaction holds the resource and either side is WRITE |
| `Concurrency.TransactionManager.ConflictingTransactions` | pkg/concurrency/transaction_manager.go:171-184 | returns exactly the registered transactions holding the resource in conflict, each once |
| `Concurrency.TransactionManager.Lock` | pkg/concurrency/transaction_manager.go:68-110 | for an unregistered client: fails and changes nothing. Holding the same type, or WRITE when READ is asked: succeeds with no change. READ→WRITE: fails with the upgrade error and no change. A fresh request ends as `FreshRequestOutcome` says. Other transactions' lock maps are untouched. Keeps `Consistent`, and under it a fresh request that finds no deadlock fails exactly when a conflicting transaction exists |
| `Concurrency.TransactionManager.RequestFresh` | pkg/concurrency/transaction_manager.go:88-108 | on a cycle: deadlock error, the new edges kept, no lock recorded. If the lock manager refuses: its error, nothing recorded. Otherwise: the lock recorded, the lock manager updated, every edge out of the requester dropped, and the graph left acyclic |
| `Concurrency.TransactionManager.WaitForConflicts` | pkg/concurrency/transaction_manager.go:88-91 | adds one edge to each conflicting transaction and reports whether the graph now has a cycle |
| `Concurrency.TransactionManager.AddWaitEdges` | pkg/concurrency/transaction_manager.go:88-90 | the edge set gains exactly an edge from the requester to each listed transaction |
| `Concurrency.TransactionManager.Grant` | pkg/concurrency/transaction_manager.go:94-108 | if the lock manager grants: records the lock, updates the holds and drops the requester's outgoing edges; otherwise fails with nothing changed. Keeps `Consistent`, and under it succeeds exactly when no transaction conflicts |
| `Concurrency.TransactionManager.StopWaiting` | pkg/concurrency/transaction_manager.go:103-107 | removes exactly the edges whose source is the requester |
| `Concurrency.TransactionManager.Unlock` | pkg/concurrency/transaction_manager.go:116-145 | for an unregistered client, or a resource not held: fails with no change. Type mismatch: fails with no change. Otherwise: the entry is dropped, and the lock manager releases it or refuses. Keeps `Consistent`, and under it the lock manager never refuses |
| `Concurrency.TransactionManager.Commit` | pkg/concurrency/transaction_manager.go:148-168 | for an unregistered client: fails with no change. Succeeds exactly when every held lock can be released; then all are released and the client is deregistered. Otherwise the first refused release ends it: the client stays registered, and each resource is either untouched or already released. Under `Consistent` it always succeeds and keeps `Consistent` |
| `Concurrency.TransactionManager.GrantIffNoConflictingTransaction` | pkg/concurrency/transaction_manager.go:88-98 | in step, the lock manager can grant a request at once exactly when the conflict scan's set is empty |
| `LockState.GrantIffNoConflict` | pkg/concurrency/transaction_manager.go:171-184 | holds coupled to the registry allow a request exactly when no client holds the resource with a conflicting type |
| `LockState.ExclusiveIsPairwise` | pkg/concurrency/transaction_manager.go:94-101 | in an exclusive registry, two clients hold one resource only when both hold it for READ |
| `LockState.JoinKeepsInStep` | pkg/concurrency/transaction_manager.go:54 | a new transaction with no locks keeps holds and registry in step |
| `LockState.GrantKeepsInStep` | pkg/concurrency/transaction_manager.go:94-101 | a lock the lock manager grants, once recorded, keeps holds and registry in step and writers exclusive |
| `LockState.ReleaseKeepsInStep` | pkg/concurrency/transaction_manager.go:132-143 | in step, the lock manager can release any recorded lock, and dropping it keeps them in step |
| `LockState.LeaveKeepsInStep` | pkg/concurrency/transaction_manager.go:159-166 | releasing all of a client's locks, then deregistering it, keeps holds and registry in step |
| `LockState.GrantHere` | pkg/concurrency/transaction_manager.go:94-101 | after a grant, the granted resource's hold matches its readers and writers |
| `LockState.GrantAt` | pkg/concurrency/transaction_manager.go:94-101 | after a grant, every resource's hold matches its readers and writers |
| `LockState.ReleaseHere` | pkg/concurrency/transaction_manager.go:132-143 | a recorded lock can be released, and afterwards the resource's holders are the old ones less the client |
| `LockState.ReleaseAt` | pkg/concurrency/transaction_manager.go:132-143 | after a release, every resource's hold matches its readers and writers |
| `LockState.LeaveAt` | pkg/concurrency/transaction_manager.go:159-166 | after a client's locks are released and it leaves, each resource's hold matches what remains |
| `LockState.Reassign` | pkg/concurrency/transaction_manager.go:101 | replacing one client's lock map changes a resource's readers and writers only in that client |
| `LockState.Untouched` | pkg/concurrency/transaction_manager.go:101 | a change to one client's lock map elsewhere leaves a resource's readers and writers alone |
| `LockState.Remove` | pkg/concurrency/transaction_manager.go:166 | deregistering a client removes exactly it from every resource's readers and writers |
| `ResourceLocks.Acquire` | pkg/concurrency/transaction_manager.go:94 | READ adds a reader; WRITE sets the writer flag over zero readers |
| `ResourceLocks.Release` | pkg/concurrency/transaction_manager.go:138 | READ removes a reader; WRITE clears the writer flag |
| `ResourceLocks.ReleaseUndoesAcquire` | pkg/concurrency/transaction_manager.go:94-138 | releasing what was just acquired restores the hold |
| `ResourceLocks.ResourceLockManager.Lock` | pkg/concurrency/transaction_manager.go:94-98 | granted exactly when the mutex would not block; a refusal changes nothing |
| `ResourceLocks.ResourceLockManager.Unlock` | pkg/concurrency/transaction_manager.go:138-142 | released exactly when a lock of that type is held; a refusal changes nothing |
| `WaitsFor.Outgoing` | pkg/concurrency/transaction_manager.go:103-107 | the edges whose source is the given transaction, and no others |
| `WaitsFor.ReachesWithinMonotone` | pkg/concurrency/transaction_manager.go:91 | a walk within n edges in a subgraph is a walk within any m >= n edges in the whole graph |
| `WaitsFor.AcyclicSubset` | pkg/concurrency/transaction_manager.go:103-107 | removing edges never creates a cycle, so a successful lock leaves the graph acyclic |
| `WaitsFor.MutualWaitIsCycle` | pkg/concurrency/transaction_manager.go:88-93 | two transactions waiting on each other form a cycle, so the second request is refused as a deadlock |
| `WaitsFor.WaitsForGraph.AddEdge` | pkg/concurrency/transaction_manager.go:89 | the edge set gains exactly the one edge |
| `WaitsFor.WaitsForGraph.RemoveEdge` | pkg/concurrency/transaction_manager.go:105 | the edge set loses exactly the one edge |
| `WaitsFor.WaitsForGraph.DetectCycle` | pkg/concurrency/transaction_manager.go:91 | reports whether the current edge set has a cycle |
| `Recovery.RecoveryManager.constructor` | pkg/recovery/recovery_manager.go:49-54 | starts with no undo stacks over the existing file, in sync |
| `Recovery.RecoveryManager.FlushLog` | pkg/recovery/recovery_manager.go:59-66 | a failed write appends nothing; otherwise exactly one line is appended; the error is the write's or the sync's |
| `Recovery.RecoveryManager.Table` | pkg/recovery/recovery_manager.go:69-81 | appends one table record unless the write fails; returns the wrapped error exactly when the write or the sync fails; stacks unchanged |
| `Recovery.RecoveryManager.Edit` | pkg/recovery/recovery_manager.go:84-91 | appends one edit record unless the write fails; always pushes that record onto the end of the client's stack; other stacks unchanged; always succeeds; a lost write breaks `InSync` |
| `Recovery.RecoveryManager.Start` | pkg/recovery/recovery_manager.go:94-100 | appends one start record unless the write fails; stacks unchanged; always succeeds |
| `Recovery.RecoveryManager.Commit` | pkg/recovery/recovery_manager.go:103-110 | removes the client's stack and appends one commit record unless the write fails; other stacks unchanged; always succeeds; keeps `InSync` when the write lands, and a lost write of a client with pending edits breaks it |
| `Recovery.RecoveryManager.Checkpoint` | pkg/recovery/recovery_manager.go:115-131 | the recorded ids are exactly the clients with a stack, each once; in sync, exactly the clients with uncommitted edits; stacks unchanged |
| `Recovery.RecoveryManager.StaysInSync` | pkg/recovery/recovery_manager.go:94-100 | a record that is neither an edit nor a commit leaves every client's pending edits as they were |
| `Recovery.RecoveryManager.StaysInSyncAfterEdit` | pkg/recovery/recovery_manager.go:88-89 | logging an edit and pushing it keeps stacks and log in sync |
| `Recovery.RecoveryManager.StaysInSyncAfterCommit` | pkg/recovery/recovery_manager.go:106-108 | dropping a stack and logging the commit keeps stacks and log in sync |
| `Recovery.PendingEdits` | pkg/recovery/recovery_manager.go:29-31 | a client's edits since its last commit record belong to that client and are no more than the lines |
| `Recovery.PendingEditsAppend` | pkg/recovery/recovery_manager.go:84-110 | appending a commit record empties the client's pending edits; appending one of its edits pushes it; any other record leaves them unchanged |
| `Recovery.Redo` | pkg/recovery/recovery_manager.go:135-178 | insert or update: succeeds exactly when the table exists, leaving key ↦ newval, through either fallback; delete: succeeds exactly when the key is present and removes it, else propagates the error; table: creates it exactly when absent; any other record is refused |
| `Recovery.Undo` | pkg/recovery/recovery_manager.go:183-205 | insert is undone by deleting the key, update by writing oldval over it, delete by inserting oldval; each fails with the storage error when its precondition on the key fails |
| `Recovery.UndoRevertsRedo` | pkg/recovery/recovery_manager.go:135-205 | from a state the edit was made in, redo succeeds and undo then restores that state |
| `Recovery.RedoUpsertIdempotent` | pkg/recovery/recovery_manager.go:145-166 | replaying an insert or update a second time gives the same result |
| `Recovery.RedoDeleteTwiceFails` | pkg/recovery/recovery_manager.go:167-172 | replaying a delete a second time fails with the missing-key error |
| `Recovery.LastCheckpoint` | pkg/recovery/recovery_manager.go:303-304 | the index of the newest checkpoint line, or -1; no later line is a checkpoint |
| `Recovery.StartBoundary` | pkg/recovery/recovery_manager.go:293-316 | the largest index from which every named client has a start record before the checkpoint, or -1 |
| `Recovery.StartBoundaryIs` | pkg/recovery/recovery_manager.go:313-316 | the first index, counting down, at which every named client has started is the boundary |
| `Recovery.StartedStep` | pkg/recovery/recovery_manager.go:293-301 | one more line read back adds exactly the client whose start record it is |
| `Recovery.PendingIdsEmpty` | pkg/recovery/recovery_manager.go:314-316 | the set of clients still awaited is empty exactly when all have started |
| `Recovery.ScanShape` | pkg/recovery/recovery_manager.go:269-319 | the scan's result is a suffix of the file in file order. After an early stop, the position indexes the newest checkpoint and every client it names has a start record before it in the suffix. At the start of the file, the position is 0 |
| `Recovery.GetRelevantStrings` | pkg/recovery/recovery_manager.go:269-319 | fails exactly when the checkpoint, or a start line read after it, does not parse; otherwise returns the suffix from the start boundary and the checkpoint's index in it, or the whole file with position 0 |
| `Recovery.ReadLogs` | pkg/recovery/recovery_manager.go:324-342 | fails when the scan fails or a kept line does not parse; otherwise returns the parsed records of all scanned lines but the last, in order (`len-1`, or 0 if none), with the scan's position |

## Left out

- Mutexes, for the registry, each transaction and the log file: every call is atomic. This includes the stray `tx.mtx.Unlock()` on the lock-manager error path of `Lock` (`pkg/concurrency/transaction_manager.go:96`), which in Go unlocks an unlocked mutex.
- Blocking in the resource lock manager: a request the mutex would block on fails with `WouldBlock`. The lock manager's and the waits-for graph's own source is not part of this model. The requester's wait edges stay in the graph, as they would for a blocked Go call, but no later grant removes them: once a deadlock has been refused, the stale edges of the refused pair (`A→B`, `B→A`) keep a cycle in the graph, so every later fresh lock request fails as a deadlock. In Go, the blocked call would finish when the other transaction commits, and then drop its own edges.
- `Concurrency.TransactionManager.StopWaiting`: the graph is a set of edges, and every edge out of the requester is removed. The Go loop walks `waitsForGraph.edges` while `RemoveEdge` changes that same slice (`pkg/concurrency/transaction_manager.go:103-107`); depending on how `RemoveEdge` shifts the slice, which is not part of this model, the source may skip an outgoing edge. The model does not capture that order or aliasing.
- `WaitsFor.HasCycle` looks only at walks of at most as many edges as the graph has. That loses no cycle, but the model does not prove it equal to a depth-first search.
- `ResourceLocks.ResourceLockManager.Unlock`: a refused release of an unlocked reader/writer mutex is fatal in Go. The model returns `NotHeld` instead.
- Serialisation `toString`/`logFromString`, and the record definitions. Records are a datatype. A line either is a record or is text that does not parse.
- `Recovery.IsStartLine` and `Recovery.IsCheckpointLine` classify a record line by its kind. The source tests a substring of the line's text. A record whose text merely contains "start" (a table named "start", say) would fail the source's type assertion at `pkg/recovery/recovery_manager.go:299`. The model does not reproduce that panic.
- The backscanner, and the file-size `Stat` call, are not modelled. Their I/O errors are left out; the scan reads the given lines.
- Partial writes: a write either appends the whole line or nothing.
- `Recovery.RecoveryManager.Checkpoint`: flushing the pages (`:118-122`) and copying the database directory (`delta`, `:129`, `:255-266`) are left out.
- `Recover` and `Rollback` are not modelled: in the source they only panic. `Prime` and `NewRecoveryManager`'s file opening are I/O.
- `Recovery.Undo`: in the source, undo goes through handlers that lock the key through the transaction manager and log the undoing edit. The model applies the inverse storage operation only.
- `Storage` stands in for the storage engine and its `Handle*` text-command parsers. Inserting fails iff the key is present; updating and deleting fail iff it is absent.
- UUID client ids are natural numbers.
