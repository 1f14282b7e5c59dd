/**
 * The recovery manager's bookkeeping: the append-only write-ahead log, the per-client undo
 * stacks of uncommitted edits, the redo/undo dispatch onto storage, and the backward scan of
 * the log file for the newest checkpoint. The log file is a sequence of lines; the mutex that
 * serialises log writes is left out, so every call is atomic.
 */
module Recovery {
  import opened Common
  import opened Storage

  datatype Action = InsertAction | UpdateAction | DeleteAction

  /** The log record variants; each is one line of the log file. */
  datatype Log =
    | TableLog(tblType: string, tblName: string)
    | EditLog(id: ClientId, tablename: string, action: Action, key: Int64, oldval: Int64, newval: Int64)
    | StartLog(id: ClientId)
    | CommitLog(id: ClientId)
    | CheckpointLog(ids: seq<ClientId>)

  type EditRecord = l: Log | l.EditLog? witness EditLog(0, "", InsertAction, 0, 0, 0)

  /**
   * A line of the log file: a record that parses, or text that does not (the empty text after
   * the final newline, or a damaged line).
   */
  datatype Line = Record(log: Log) | Text(text: string)

  /** How a write of one line to the log file ends: written and synced, not written, or not synced. */
  datatype Io = Written | WriteFailed | SyncFailed

  datatype RecoveryError =
    | IoError(failure: Io)
    | TableLogError(io: Io)     // "error writing a Table log: %w"
    | StorageFailed(cause: StorageError)
    | NotRedoable                // "can only redo edit or table logs"
    | Malformed(text: string)

  /************************************************************************************
   * Log file and undo stacks
   ************************************************************************************/

  /**
   * The edits of client `c` since its last commit record, oldest first: what its undo stack
   * holds if it was built from these lines.
   */
  function PendingEdits(lines: seq<Line>, c: ClientId): (edits: seq<EditRecord>)
    ensures forall e | e in edits :: e.id == c
    ensures |edits| <= |lines|
  {
    if lines == [] then []
    else
      var before := PendingEdits(lines[..|lines| - 1], c);
      match lines[|lines| - 1]
      case Record(l) =>
        if l == CommitLog(c) then []
        else if l.EditLog? && l.id == c then before + [l]
        else before
      case Text(_) => before
  }

  lemma PendingEditsAppend(lines: seq<Line>, l: Log, c: ClientId)
    ensures PendingEdits(lines + [Record(l)], c)
         == if l == CommitLog(c) then []
            else if l.EditLog? && l.id == c then PendingEdits(lines, c) + [l]
            else PendingEdits(lines, c)
  {
    assert (lines + [Record(l)])[..|lines|] == lines;
  }

  class RecoveryManager {
    /** Each client's uncommitted edits, most recent last. */
    var txStack: map<ClientId, seq<EditRecord>>
    /** The log file, line by line. */
    var logFile: seq<Line>
    /** How many lines the file had when this manager opened it. */
    ghost const origin: nat

    /** Stacks are never empty and hold only their own client's edits. */
    ghost predicate Valid()
      reads this
    {
      && origin <= |logFile|
      && forall c | c in txStack :: txStack[c] != [] && forall e | e in txStack[c] :: e.id == c
    }

    /** The undo stack of `c`; a client without an entry has an empty stack. */
    function StackOf(c: ClientId): seq<EditRecord>
      reads this
    {
      if c in txStack then txStack[c] else []
    }

    /** Every undo stack is what the lines written since opening say it should be. */
    ghost predicate InSync()
      reads this
      requires Valid()
    {
      forall c :: StackOf(c) == PendingEdits(logFile[origin..], c)
    }

    constructor (existing: seq<Line>)
      ensures Valid() && InSync()
      ensures logFile == existing && txStack == map[]
    {
      logFile := existing;
      txStack := map[];
      origin := |existing|;
      new;
      assert logFile[origin..] == [];
    }

    /** Appends one record line; a failed write leaves the file as it was. */
    method FlushLog(l: Log, io: Io) returns (out: Outcome<Io>)
      requires Valid()
      modifies this
      ensures Valid() && txStack == old(txStack)
      ensures logFile == if io == WriteFailed then old(logFile) else old(logFile) + [Record(l)]
      ensures out == if io == Written then Pass else Fail(io)
    {
      if io == WriteFailed {
        return Fail(io);
      }
      logFile := logFile + [Record(l)];
      if io == SyncFailed {
        return Fail(io);
      }
      return Pass;
    }

    /** Record the creation of a table. */
    method Table(tblType: string, tblName: string, io: Io) returns (out: Outcome<RecoveryError>)
      requires Valid()
      modifies this
      ensures Valid() && txStack == old(txStack)
      ensures logFile == if io == WriteFailed then old(logFile) else old(logFile) + [Record(TableLog(tblType, tblName))]
      ensures out == if io == Written then Pass else Fail(TableLogError(io))
      ensures old(InSync()) ==> InSync()
    {
      var err := FlushLog(TableLog(tblType, tblName), io);
      StaysInSync(old(logFile), TableLog(tblType, tblName));
      if err.Fail? {
        return Fail(TableLogError(err.error));
      }
      return Pass;
    }

    /** Record an edit and push it on its client's undo stack; the write's outcome is ignored. */
    method Edit(clientId: ClientId, tableName: string, action: Action, key: Int64, oldval: Int64, newval: Int64, io: Io)
      returns (out: Outcome<RecoveryError>)
      requires Valid()
      modifies this
      ensures Valid() && out == Pass
      ensures var e := EditLog(clientId, tableName, action, key, oldval, newval);
        && logFile == (if io == WriteFailed then old(logFile) else old(logFile) + [Record(e)])
        && txStack == old(txStack)[clientId := old(StackOf(clientId)) + [e]]
      ensures old(InSync()) && io != WriteFailed ==> InSync()
      // A lost write leaves the stack holding an edit the log does not.
      ensures old(InSync()) && io == WriteFailed ==> !InSync()
    {
      var edit: EditRecord := EditLog(clientId, tableName, action, key, oldval, newval);
      var _ := FlushLog(edit, io);
      txStack := txStack[clientId := StackOf(clientId) + [edit]];
      if io != WriteFailed {
        StaysInSyncAfterEdit(old(logFile), old(txStack), edit);
      } else if old(InSync()) {
        assert StackOf(clientId) != PendingEdits(logFile[origin..], clientId) by {
          assert |StackOf(clientId)| == |PendingEdits(logFile[origin..], clientId)| + 1;
        }
      }
      return Pass;
    }

    /** Record the start of a transaction. */
    method Start(clientId: ClientId, io: Io) returns (out: Outcome<RecoveryError>)
      requires Valid()
      modifies this
      ensures Valid() && out == Pass && txStack == old(txStack)
      ensures logFile == if io == WriteFailed then old(logFile) else old(logFile) + [Record(StartLog(clientId))]
      ensures old(InSync()) ==> InSync()
    {
      var _ := FlushLog(StartLog(clientId), io);
      StaysInSync(old(logFile), StartLog(clientId));
      return Pass;
    }

    /** Record a commit and drop the client's undo stack. */
    method Commit(clientId: ClientId, io: Io) returns (out: Outcome<RecoveryError>)
      requires Valid()
      modifies this
      ensures Valid() && out == Pass
      ensures txStack == old(txStack) - {clientId}
      ensures logFile == if io == WriteFailed then old(logFile) else old(logFile) + [Record(CommitLog(clientId))]
      ensures old(InSync()) && io != WriteFailed ==> InSync()
      // A lost write drops a stack whose edits the log still shows as pending.
      ensures old(InSync()) && io == WriteFailed && old(StackOf(clientId)) != [] ==> !InSync()
    {
      txStack := txStack - {clientId};
      var _ := FlushLog(CommitLog(clientId), io);
      if io != WriteFailed {
        StaysInSyncAfterCommit(old(logFile), old(txStack), clientId);
      } else if old(InSync()) && old(StackOf(clientId)) != [] {
        assert StackOf(clientId) != PendingEdits(logFile[origin..], clientId);
      }
      return Pass;
    }

    /**
     * Record a checkpoint naming every client with an undo stack, that is, every client with
     * uncommitted edits. Flushing the pages and copying the database directory are left out.
     */
    method Checkpoint(io: Io) returns (out: Outcome<RecoveryError>, ids: seq<ClientId>)
      requires Valid()
      modifies this
      ensures Valid() && out == Pass && txStack == old(txStack)
      ensures forall c :: c in ids <==> c in txStack
      ensures forall i, j | 0 <= i < j < |ids| :: ids[i] != ids[j]
      ensures logFile == if io == WriteFailed then old(logFile) else old(logFile) + [Record(CheckpointLog(ids))]
      ensures old(InSync()) ==> InSync()
      ensures old(InSync()) ==> forall c :: c in ids <==> PendingEdits(old(logFile)[origin..], c) != []
    {
      ids := [];
      var pending := txStack.Keys;
      while pending != {}
        invariant pending <= txStack.Keys
        invariant forall c :: c in ids <==> c in txStack && c !in pending
        invariant forall i, j | 0 <= i < j < |ids| :: ids[i] != ids[j]
        decreases pending
      {
        var id :| id in pending;
        ids := ids + [id];
        pending := pending - {id};
      }
      var _ := FlushLog(CheckpointLog(ids), io);
      StaysInSync(old(logFile), CheckpointLog(ids));
      return Pass, ids;
    }

    /** A record that is neither an edit nor a commit does not disturb the undo stacks. */
    lemma StaysInSync(file: seq<Line>, l: Log)
      requires Valid() && origin <= |file|
      requires !l.EditLog? && !l.CommitLog?
      requires logFile == file || logFile == file + [Record(l)]
      ensures (forall c :: StackOf(c) == PendingEdits(file[origin..], c)) ==> InSync()
    {
      if logFile == file + [Record(l)] {
        assert logFile[origin..] == file[origin..] + [Record(l)];
        forall c ensures PendingEdits(logFile[origin..], c) == PendingEdits(file[origin..], c) {
          PendingEditsAppend(file[origin..], l, c);
        }
      }
    }

    lemma StaysInSyncAfterEdit(file: seq<Line>, stacks: map<ClientId, seq<EditRecord>>, e: EditRecord)
      requires Valid() && origin <= |file|
      requires logFile == file + [Record(e)]
      requires txStack == stacks[e.id := (if e.id in stacks then stacks[e.id] else []) + [e]]
      ensures (forall c :: (if c in stacks then stacks[c] else []) == PendingEdits(file[origin..], c)) ==> InSync()
    {
      assert logFile[origin..] == file[origin..] + [Record(e)];
      forall c {
        PendingEditsAppend(file[origin..], e, c);
      }
    }

    lemma StaysInSyncAfterCommit(file: seq<Line>, stacks: map<ClientId, seq<EditRecord>>, id: ClientId)
      requires Valid() && origin <= |file|
      requires logFile == file + [Record(CommitLog(id))]
      requires txStack == stacks - {id}
      ensures (forall c :: (if c in stacks then stacks[c] else []) == PendingEdits(file[origin..], c)) ==> InSync()
    {
      assert logFile[origin..] == file[origin..] + [Record(CommitLog(id))];
      forall c {
        PendingEditsAppend(file[origin..], CommitLog(id), c);
      }
    }
  }

  /************************************************************************************
   * Redo and undo
   ************************************************************************************/

  function Lift(r: Result<Db, StorageError>): Result<Db, RecoveryError>
  {
    match r
    case Ok(db) => Ok(db)
    case Err(e) => Err(StorageFailed(e))
  }

  /**
   * Replays a table or edit record without logging it. An insert that finds the key retries as
   * an update, an update that misses the key retries as an insert: together an upsert.
   */
  function Redo(db: Db, log: Log): (r: Result<Db, RecoveryError>)
    ensures !log.TableLog? && !log.EditLog? ==> r == Err(NotRedoable)
    ensures log.EditLog? && log.action != DeleteAction ==>
      && (r.Ok? <==> log.tablename in db)
      && (r.Ok? ==> r.value == Put(db, log.tablename, log.key, log.newval))
      && (r.Err? ==> r.error == StorageFailed(NoSuchTable))
    ensures log.EditLog? && log.action == DeleteAction ==>
      && (r.Ok? <==> log.tablename in db && log.key in db[log.tablename].entries)
      && (r.Ok? ==> r.value == Drop(db, log.tablename, log.key))
      && (r.Err? ==> r.error == StorageFailed(if log.tablename in db then KeyMissing else NoSuchTable))
    ensures log.TableLog? ==>
      && (r.Ok? <==> log.tblName !in db)
      && (r.Ok? ==> r.value == db[log.tblName := Table(log.tblType, map[])])
      && (r.Err? ==> r.error == StorageFailed(TableExists))
  {
    match log
    case TableLog(tblType, tblName) => Lift(CreateTable(db, tblType, tblName))
    case EditLog(_, name, action, key, _, newval) =>
      (match action
       case InsertAction =>
         (match Insert(db, name, key, newval)
          case Ok(db') => Ok(db')
          case Err(_) => Lift(Update(db, name, key, newval)))
       case UpdateAction =>
         (match Update(db, name, key, newval)
          case Ok(db') => Ok(db')
          case Err(_) => Lift(Insert(db, name, key, newval)))
       case DeleteAction => Lift(Delete(db, name, key)))
    case _ => Err(NotRedoable)
  }

  /** Carries out the inverse of an edit, using the value the edit overwrote. */
  function Undo(db: Db, e: EditRecord): (r: Result<Db, RecoveryError>)
    ensures e.action == InsertAction ==>
      && (r.Ok? <==> e.tablename in db && e.key in db[e.tablename].entries)
      && (r.Ok? ==> r.value == Drop(db, e.tablename, e.key))
      && (r.Err? ==> r.error == StorageFailed(if e.tablename in db then KeyMissing else NoSuchTable))
    ensures e.action == UpdateAction ==>
      && (r.Ok? <==> e.tablename in db && e.key in db[e.tablename].entries)
      && (r.Ok? ==> r.value == Put(db, e.tablename, e.key, e.oldval))
      && (r.Err? ==> r.error == StorageFailed(if e.tablename in db then KeyMissing else NoSuchTable))
    ensures e.action == DeleteAction ==>
      && (r.Ok? <==> e.tablename in db && e.key !in db[e.tablename].entries)
      && (r.Ok? ==> r.value == Put(db, e.tablename, e.key, e.oldval))
      && (r.Err? ==> r.error == StorageFailed(if e.tablename in db then KeyExists else NoSuchTable))
  {
    match e.action
    case InsertAction => Lift(Delete(db, e.tablename, e.key))
    case UpdateAction => Lift(Update(db, e.tablename, e.key, e.oldval))
    case DeleteAction => Lift(Insert(db, e.tablename, e.key, e.oldval))
  }

  /** `db` is a state the edit `e` was made in: the key held `oldval`, or was absent for an insert. */
  predicate Before(db: Db, e: EditRecord)
  {
    && e.tablename in db
    && if e.action == InsertAction then e.key !in db[e.tablename].entries
       else e.key in db[e.tablename].entries && db[e.tablename].entries[e.key] == e.oldval
  }

  /** Undoing a replayed edit restores the state the edit was made in. */
  lemma UndoRevertsRedo(db: Db, e: EditRecord)
    requires Before(db, e)
    ensures Redo(db, e).Ok? && Undo(Redo(db, e).value, e) == Ok(db)
  {
    var name, key := e.tablename, e.key;
    var entries := db[name].entries;
    match e.action {
      case InsertAction =>
        var after := Redo(db, e).value;
        assert after[name].entries - {key} == entries;
        assert Drop(after, name, key) == db;
      case UpdateAction =>
        assert entries[key := e.newval][key := e.oldval] == entries;
        assert Put(Put(db, name, key, e.newval), name, key, e.oldval) == db;
      case DeleteAction =>
        var after := Redo(db, e).value;
        assert after[name].entries[key := e.oldval] == entries;
        assert Put(after, name, key, e.oldval) == db;
    }
  }

  /** Replaying an insert or update twice is the same as replaying it once. */
  lemma RedoUpsertIdempotent(db: Db, e: EditRecord)
    requires e.action != DeleteAction
    requires Redo(db, e).Ok?
    ensures Redo(Redo(db, e).value, e) == Redo(db, e)
  {
    var once := Redo(db, e).value;
    assert once[e.tablename].entries[e.key := e.newval] == once[e.tablename].entries;
    assert Put(once, e.tablename, e.key, e.newval) == once;
  }

  /** Replaying a delete twice fails the second time: the delete's error is propagated. */
  lemma RedoDeleteTwiceFails(db: Db, e: EditRecord)
    requires e.action == DeleteAction
    requires Redo(db, e).Ok?
    ensures Redo(Redo(db, e).value, e) == Err(StorageFailed(KeyMissing))
  {
  }

  /************************************************************************************
   * Backward scan of the log file
   ************************************************************************************/

  /** `pattern` occurs in `s`. */
  predicate Contains(s: string, pattern: string)
    decreases |s|
  {
    |pattern| <= |s| && (s[..|pattern|] == pattern || Contains(s[1..], pattern))
  }

  /** A line the scan takes for a checkpoint: a checkpoint record, or unparsable text naming one. */
  predicate IsCheckpointLine(line: Line)
  {
    match line
    case Record(l) => l.CheckpointLog?
    case Text(s) => Contains(s, "checkpoint")
  }

  /** A line the scan takes for a start record. */
  predicate IsStartLine(line: Line)
  {
    match line
    case Record(l) => l.StartLog?
    case Text(s) => Contains(s, "start")
  }

  function Parse(line: Line): Result<Log, RecoveryError>
  {
    match line
    case Record(l) => Ok(l)
    case Text(s) => Err(Malformed(s))
  }

  /** The index of the newest checkpoint line, or -1 if there is none. */
  function LastCheckpoint(lines: seq<Line>): (k: int)
    ensures -1 <= k < |lines|
    ensures k >= 0 ==> IsCheckpointLine(lines[k])
    ensures forall j | k < j < |lines| :: !IsCheckpointLine(lines[j])
  {
    if lines == [] then -1
    else if IsCheckpointLine(lines[|lines| - 1]) then |lines| - 1
    else LastCheckpoint(lines[..|lines| - 1])
  }

  /** Client `id` has a start record in lines[lo..hi]. */
  ghost predicate Started(lines: seq<Line>, lo: nat, hi: nat, id: ClientId)
  {
    exists j | lo <= j < hi && j < |lines| :: lines[j] == Record(StartLog(id))
  }

  ghost predicate AllStarted(lines: seq<Line>, lo: nat, hi: nat, ids: seq<ClientId>)
  {
    forall id | id in ids :: Started(lines, lo, hi, id)
  }

  /**
   * The largest k <= from such that every id has a start record in lines[k..hi], or -1 if
   * there is none.
   */
  ghost function StartBoundary(lines: seq<Line>, hi: nat, ids: seq<ClientId>, from: nat): (k: int)
    ensures -1 <= k <= from
    ensures k >= 0 ==> AllStarted(lines, k, hi, ids)
    ensures forall k' | k < k' <= from :: !AllStarted(lines, k', hi, ids)
    decreases from
  {
    if AllStarted(lines, from, hi, ids) then from
    else if from == 0 then -1
    else StartBoundary(lines, hi, ids, from - 1)
  }

  lemma StartedStep(lines: seq<Line>, i: nat, hi: nat, id: ClientId)
    requires i < hi <= |lines|
    ensures Started(lines, i, hi, id) <==> lines[i] == Record(StartLog(id)) || Started(lines, i + 1, hi, id)
  {
    if Started(lines, i, hi, id) && lines[i] != Record(StartLog(id)) {
      var j :| i <= j < hi && j < |lines| && lines[j] == Record(StartLog(id));
      assert j != i;
    }
  }

  /** `txs` holds exactly the ids with no start record in lines[lo..hi]. */
  ghost predicate Awaiting(txs: set<ClientId>, lines: seq<Line>, lo: nat, hi: nat, ids: seq<ClientId>)
  {
    forall id :: id in txs <==> id in ids && !Started(lines, lo, hi, id)
  }

  /** The ids still awaiting a start record run out exactly when every id has started. */
  lemma PendingIdsEmpty(txs: set<ClientId>, lines: seq<Line>, lo: nat, hi: nat, ids: seq<ClientId>)
    requires Awaiting(txs, lines, lo, hi, ids)
    ensures txs == {} <==> AllStarted(lines, lo, hi, ids)
  {
    if txs != {} {
      var id :| id in txs;
      assert id in ids && !Started(lines, lo, hi, id);
    }
    forall id | id in ids && !Started(lines, lo, hi, id) ensures id in txs {
    }
  }

  /** The boundary is the first k, counting down from `from`, at which every id has started. */
  lemma {:induction false} StartBoundaryIs(lines: seq<Line>, hi: nat, ids: seq<ClientId>, from: nat, k: nat)
    requires k <= from
    requires AllStarted(lines, k, hi, ids)
    requires forall k' | k < k' <= from :: !AllStarted(lines, k', hi, ids)
    ensures StartBoundary(lines, hi, ids, from) == k
    decreases from
  {
    if from != k {
      StartBoundaryIs(lines, hi, ids, from - 1, k);
    }
  }

  function CheckpointIds(line: Line): seq<ClientId>
  {
    if line.Record? && line.log.CheckpointLog? then line.log.ids else []
  }

  /** Lines the scan reads, newest last, and the index of the checkpoint among them. */
  datatype Scan = Scan(relevant: seq<Line>, checkpointPos: nat)

  /** Where the scan stops: the start boundary of the newest checkpoint, or -1 to read the whole file. */
  ghost function ScanFrom(lines: seq<Line>): int
  {
    var cp := LastCheckpoint(lines);
    if cp < 0 then -1 else StartBoundary(lines, cp, CheckpointIds(lines[cp]), cp)
  }

  /**
   * What the scan returns when no line it parses is malformed: the lines from the boundary on
   * with the checkpoint's index among them, or every line with position 0 when it reaches the
   * start of the file.
   */
  ghost function ExpectedScan(lines: seq<Line>): Scan
  {
    var k := ScanFrom(lines);
    if k < 0 then Scan(lines, 0) else Scan(lines[k..], LastCheckpoint(lines) - k)
  }

  /** The scan meets a line it must parse and cannot: the checkpoint itself, or a start line it reads. */
  ghost predicate ScanFails(lines: seq<Line>)
  {
    var cp := LastCheckpoint(lines);
    var k := ScanFrom(lines);
    && cp >= 0
    && (|| lines[cp].Text?
        || exists j | (if k < 0 then 0 else k) <= j < cp :: lines[j].Text? && IsStartLine(lines[j]))
  }

  /**
   * What a scan that does not fail returns: a suffix of the file in file order. When it stopped
   * early, its position indexes the newest checkpoint line within the suffix, and every client
   * that checkpoint names has a start record before it in the suffix. When it reached the start
   * of the file, the position is 0 whether or not a checkpoint was seen.
   */
  lemma ScanShape(lines: seq<Line>)
    ensures var s := ExpectedScan(lines);
      && |s.relevant| <= |lines|
      && s.relevant == lines[|lines| - |s.relevant|..]
      && (ScanFrom(lines) < 0 ==> s == Scan(lines, 0))
      && (ScanFrom(lines) >= 0 ==>
            && s.checkpointPos < |s.relevant|
            && IsCheckpointLine(s.relevant[s.checkpointPos])
            && (forall j | s.checkpointPos < j < |s.relevant| :: !IsCheckpointLine(s.relevant[j]))
            && forall id | id in CheckpointIds(s.relevant[s.checkpointPos]) ::
                 exists j | 0 <= j < s.checkpointPos :: s.relevant[j] == Record(StartLog(id)))
  {
    var k := ScanFrom(lines);
    if k >= 0 {
      var cp := LastCheckpoint(lines);
      var ids := CheckpointIds(lines[cp]);
      var s := ExpectedScan(lines);
      assert s.relevant == lines[k..] && s.checkpointPos == cp - k;
      assert AllStarted(lines, k, cp, ids);
      forall id | id in ids
        ensures exists j | 0 <= j < cp - k :: lines[k..][j] == Record(StartLog(id))
      {
        var j :| k <= j < cp && j < |lines| && lines[j] == Record(StartLog(id));
        assert lines[k..][j - k] == lines[j];
      }
    }
  }

  /**
   * Reads `lines` from the last towards the first until it has seen the newest checkpoint and a
   * start record for every client that checkpoint names. `lines` are the lines a scanner yields
   * for the file, so the last of them is the empty text after the final newline: for a
   * `RecoveryManager` they are its `logFile + [Text("")]`.
   */
  method GetRelevantStrings(lines: seq<Line>) returns (r: Result<Scan, RecoveryError>)
    ensures r.Err? <==> ScanFails(lines)
    ensures r.Ok? ==> r.value == ExpectedScan(lines)
  {
    ghost var cp := LastCheckpoint(lines);
    ghost var ids := CheckpointIds(if cp >= 0 then lines[cp] else Text(""));
    var relevant: seq<Line> := [];
    var checkpointPos := 0;
    var checkpointHit := false;
    var txs: set<ClientId> := {};
    var i := |lines|;
    while i > 0
      invariant 0 <= i <= |lines|
      invariant relevant == lines[i..]
      invariant checkpointHit <==> 0 <= cp && i <= cp
      invariant !checkpointHit ==> checkpointPos == |lines| - i && txs == {}
      invariant checkpointHit ==>
        && lines[cp].Record?
        && checkpointPos == cp - i
        && Awaiting(txs, lines, i, cp, ids)
        && (forall k' | i <= k' <= cp :: !AllStarted(lines, k', cp, ids))
        && (forall j | i <= j < cp :: !(lines[j].Text? && IsStartLine(lines[j])))
      decreases i
    {
      i := i - 1;
      var line := lines[i];
      relevant := [line] + relevant;
      checkpointPos := checkpointPos + 1;
      ghost var before := txs;
      ghost var wasHit := checkpointHit;
      if checkpointHit && IsStartLine(line) {
        var parsed := Parse(line);
        if parsed.Err? {
          assert ids == CheckpointIds(lines[cp]);
          ghost var k := StartBoundary(lines, cp, ids, cp);
          assert k >= 0 ==> AllStarted(lines, k, cp, ids);
          assert ScanFrom(lines) == k <= i;
          return Err(parsed.error);
        }
        txs := txs - {parsed.value.id};
      }
      if checkpointHit {
        forall id ensures id in txs <==> id in ids && !Started(lines, i, cp, id) {
          StartedStep(lines, i, cp, id);
          if line == Record(StartLog(id)) {
            assert id !in txs;
          } else {
            assert id in txs <==> id in before;
          }
        }
      }
      if !checkpointHit && IsCheckpointLine(line) {
        checkpointHit := true;
        var parsed := Parse(line);
        if parsed.Err? {
          return Err(parsed.error);
        }
        txs := set id | id in parsed.value.ids;
        checkpointPos := 0;
      }
      if checkpointHit {
        PendingIdsEmpty(txs, lines, i, cp, ids);
      }
      if checkpointHit && txs == {} {
        assert !wasHit ==> i == cp;
        StartBoundaryIs(lines, cp, ids, cp, i);
        return Ok(Scan(relevant, checkpointPos));
      }
    }
    return Ok(Scan(relevant, 0));
  }

  /** The parsed records of a scan and the checkpoint's index among them. */
  datatype Logs = Logs(logs: seq<Log>, checkpointIndex: nat)

  /**
   * Parses every scanned line except the last, which for a file ending in a newline is the
   * empty text after it; `lines` are the scanner's lines, as for `GetRelevantStrings`.
   */
  method ReadLogs(lines: seq<Line>) returns (r: Result<Logs, RecoveryError>)
    ensures ScanFails(lines) ==> r.Err?
    ensures !ScanFails(lines) ==>
      var strings := ExpectedScan(lines).relevant;
      var kept := if |strings| > 0 then strings[..|strings| - 1] else [];
      && (r.Err? <==> exists j | 0 <= j < |kept| :: kept[j].Text?)
      && (r.Ok? ==>
            && |r.value.logs| == |kept|
            && (forall j | 0 <= j < |kept| :: kept[j] == Record(r.value.logs[j]))
            && r.value.checkpointIndex == ExpectedScan(lines).checkpointPos)
  {
    var scan := GetRelevantStrings(lines);
    if scan.Err? {
      return Err(scan.error);
    }
    var strings := scan.value.relevant;
    var logs: seq<Log>;
    if |strings| > 0 {
      var a := new Log[|strings| - 1];
      for i := 0 to |strings| - 1
        invariant forall j | 0 <= j < i :: strings[j] == Record(a[j])
      {
        var parsed := Parse(strings[i]);
        if parsed.Err? {
          return Err(parsed.error);
        }
        a[i] := parsed.value;
      }
      logs := a[..];
    } else {
      logs := [];
    }
    return Ok(Logs(logs, scan.value.checkpointPos));
  }
}
