/** The relational table behind one entity, abstracted to a map from primary
    key to row, and the read-before-write update and delete that both
    repositories perform on it. */
module Store {
  import opened Wrappers

  /** Errors the mapping layer reports. `NoRows` is what a point read of an
      absent primary key returns; every other driver failure is opaque. */
  datatype Error = NoRows | DriverError(message: string)

  /** The outcome of a write: the table afterwards and the error returned. */
  datatype WriteResult<R> = WriteResult(table: map<int, R>, err: Option<Error>)

  /** Point read by primary key. `readErr` is a driver failure of the read
      statement itself, an input of the model; without one the read answers
      from the table, and an absent key gives `NoRows`. */
  function Read<R>(table: map<int, R>, id: int, readErr: Option<Error>): (r: Result<R, Error>)
    ensures r.Success? <==> readErr.None? && id in table
    ensures r.Success? ==> r.value == table[id]
    ensures readErr.Some? ==> r == Failure(readErr.value)
    ensures readErr.None? && id !in table ==> r == Failure(NoRows)
  {
    if readErr.Some? then Failure(readErr.value)
    else if id in table then Success(table[id]) else Failure(NoRows)
  }

  /** Read the key, then overwrite its row with `m`. `readErr` and
      `updateErr` are the outcomes of the two statements, inputs of the
      model; a failed read skips the update. */
  function UpdateByID<R>(table: map<int, R>, id: int, m: R, readErr: Option<Error>, updateErr: Option<Error>)
    : (r: WriteResult<R>)
    ensures readErr.Some? ==> r == WriteResult(table, readErr)
    ensures readErr.None? && id !in table ==> r == WriteResult(table, Some(NoRows))
    ensures readErr.None? && id in table && updateErr.Some? ==> r == WriteResult(table, updateErr)
    ensures readErr.None? && id in table && updateErr.None? ==>
      && r.err.None?
      && r.table.Keys == table.Keys
      && r.table[id] == m
      && forall k | k in table && k != id :: r.table[k] == table[k]
  {
    match Read(table, id, readErr)
    case Failure(e) => WriteResult(table, Some(e))
    case Success(_) =>
      if updateErr.Some? then WriteResult(table, updateErr)
      else WriteResult(table[id := m], None)
  }

  /** Read the key, then remove its row. `readErr` and `deleteErr` are the
      outcomes of the two statements; a failed read skips the delete. */
  function DeleteByID<R>(table: map<int, R>, id: int, readErr: Option<Error>, deleteErr: Option<Error>)
    : (r: WriteResult<R>)
    ensures readErr.Some? ==> r == WriteResult(table, readErr)
    ensures readErr.None? && id !in table ==> r == WriteResult(table, Some(NoRows))
    ensures readErr.None? && id in table && deleteErr.Some? ==> r == WriteResult(table, deleteErr)
    ensures readErr.None? && id in table && deleteErr.None? ==>
      && r.err.None?
      && r.table.Keys == table.Keys - {id}
      && forall k | k in r.table :: r.table[k] == table[k]
  {
    match Read(table, id, readErr)
    case Failure(e) => WriteResult(table, Some(e))
    case Success(_) =>
      if deleteErr.Some? then WriteResult(table, deleteErr)
      else WriteResult(table - {id}, None)
  }

  /** A delete leaves the table unchanged exactly when it reports an error. */
  lemma DeleteFailsIffUnchanged<R>(table: map<int, R>, id: int, readErr: Option<Error>, deleteErr: Option<Error>)
    ensures DeleteByID(table, id, readErr, deleteErr).err.Some?
        <==> DeleteByID(table, id, readErr, deleteErr).table == table
  {
    if readErr.None? && id in table && deleteErr.None? {
      assert id !in DeleteByID(table, id, readErr, deleteErr).table;
    }
  }

  /** A successful update is observed by the next read of that key, and reads
      of every other key see what they saw before. */
  lemma ReadAfterUpdate<R>(table: map<int, R>, id: int, m: R, k: int)
    requires id in table
    ensures Read(UpdateByID(table, id, m, None, None).table, id, None) == Success(m)
    ensures k != id ==> Read(UpdateByID(table, id, m, None, None).table, k, None) == Read(table, k, None)
  {
  }

  /** After a successful delete the key reads as absent, so a second delete of
      the same key whose read succeeds fails with `NoRows` and changes
      nothing. */
  lemma DeleteTwice<R>(table: map<int, R>, id: int, err: Option<Error>)
    requires id in table
    ensures var t := DeleteByID(table, id, None, None).table;
      && Read(t, id, None) == Failure(NoRows)
      && DeleteByID(t, id, None, err) == WriteResult(t, Some(NoRows))
  {
  }
}
