/**
 * The storage engine as the recovery manager sees it: tables by name, each a map from key to
 * value. Its source is not part of this model; these are the semantics assumed of its create,
 * insert, update and delete handlers.
 */
module Storage {
  import opened Common

  datatype Table = Table(kind: string, entries: map<Int64, Int64>)

  type Db = map<string, Table>

  datatype StorageError = TableExists | NoSuchTable | KeyExists | KeyMissing

  /** `db` with `key` of table `name` (which must exist) set to `value`. */
  function Put(db: Db, name: string, key: Int64, value: Int64): Db
    requires name in db
  {
    db[name := db[name].(entries := db[name].entries[key := value])]
  }

  /** `db` without `key` in table `name` (which must exist). */
  function Drop(db: Db, name: string, key: Int64): Db
    requires name in db
  {
    db[name := db[name].(entries := db[name].entries - {key})]
  }

  function CreateTable(db: Db, kind: string, name: string): Result<Db, StorageError>
  {
    if name in db then Err(TableExists) else Ok(db[name := Table(kind, map[])])
  }

  /** Insertion fails when the key is already present. */
  function Insert(db: Db, name: string, key: Int64, value: Int64): Result<Db, StorageError>
  {
    if name !in db then Err(NoSuchTable)
    else if key in db[name].entries then Err(KeyExists)
    else Ok(Put(db, name, key, value))
  }

  /** Update fails when the key is absent. */
  function Update(db: Db, name: string, key: Int64, value: Int64): Result<Db, StorageError>
  {
    if name !in db then Err(NoSuchTable)
    else if key !in db[name].entries then Err(KeyMissing)
    else Ok(Put(db, name, key, value))
  }

  /** Deletion fails when the key is absent. */
  function Delete(db: Db, name: string, key: Int64): Result<Db, StorageError>
  {
    if name !in db then Err(NoSuchTable)
    else if key !in db[name].entries then Err(KeyMissing)
    else Ok(Drop(db, name, key))
  }
}
