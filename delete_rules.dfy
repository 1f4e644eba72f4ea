/**
 * The decisions of actions/delete.php that do not touch state: the input
 * checks, the `deleted_tasks` row, and the messages and log line.
 */
module DeleteRules {
  import opened Wrappers
  import opened Tasks

  const DeletedMessage := "Tugas berhasil dihapus!"
  /** The flash of the PDOException branch; the rollback path ends there too. */
  const DeleteDatabaseFailure := "Terjadi kesalahan database saat menghapus tugas"

  /** The checks before the transaction: a positive id, then an existing row. */
  function DeleteError(tasks: map<int, Task>, id: int): Option<string> {
    if id <= 0 then Some(InvalidId)
    else if id !in tasks then Some(NotFound)
    else None
  }

  /** `INSERT INTO deleted_tasks (original_id, ...) SELECT id, ... FROM tasks WHERE id = ?`. */
  function BackupOf(id: int, t: Task): DeletedTask {
    DeletedTask(id, t.name, t.status, t.priority, t.tanggal, t.deadline)
  }

  /** The key and row a backup describes. */
  function Restored(b: DeletedTask): (int, Task) {
    (b.originalId, Task(b.name, b.status, b.priority, b.tanggal, b.deadline))
  }

  /** The log line of a successful delete: the name and the status the task had. */
  function DeleteLog(t: Task): LogEntry {
    LogEntry("DELETE", Quoted(t.name) + " (Status: " + t.status + ") berhasil dihapus")
  }

  /** Delete goes ahead exactly for a positive id that is in the table; a bad id is reported before the lookup. */
  lemma DeleteErrorCases(tasks: map<int, Task>, id: int)
    ensures DeleteError(tasks, id).None? <==> id > 0 && id in tasks
    ensures DeleteError(tasks, id) == Some(InvalidId) <==> id <= 0
    ensures DeleteError(tasks, id) == Some(NotFound) <==> id > 0 && id !in tasks
  {
  }

  /** The backup row loses nothing: the key and every column of the task can be read back from it. */
  lemma BackupRoundTrip(id: int, t: Task)
    ensures Restored(BackupOf(id, t)) == (id, t)
  {
  }

  /** The log line names the task's prior status, so deleting an open and a done task log differently. */
  lemma DeleteLogRecordsStatus(t: Task, t': Task)
    requires DeleteLog(t) == DeleteLog(t')
    requires t.name == t'.name
    ensures t.status == t'.status
  {
    var prefix := Quoted(t.name) + " (Status: ";
    var suffix := ") berhasil dihapus";
    assert DeleteLog(t).description == prefix + t.status + suffix;
    assert DeleteLog(t').description == prefix + t'.status + suffix;
    assert t.status == (prefix + t.status + suffix)[|prefix|..|prefix| + |t.status|];
    assert |t.status| == |t'.status|;
    assert t'.status == (prefix + t'.status + suffix)[|prefix|..|prefix| + |t'.status|];
  }
}
