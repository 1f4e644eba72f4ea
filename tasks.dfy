/**
 * The `tasks` table row, the session flash entry, the activity-log entry,
 * the `deleted_tasks` backup row and the outcome of a request handler, with
 * the messages every handler shares.
 */
module Tasks {
  import opened PhpStrings
  import opened Calendar

  /** The two values of `status`. */
  const Done := "selesai"
  const Pending := "belum selesai"

  /** The three values of `prioritas`. */
  const High := "tinggi"
  const Medium := "sedang"
  const Low := "rendah"

  /**
   * One row of `tasks` without its key. Status and priority stay strings,
   * as in the table, so that readers handle any stored value; `tanggal` and
   * `deadline` are DATE columns.
   */
  datatype Task = Task(name: string, status: string, priority: string, tanggal: CalendarDate, deadline: CalendarDate)

  predicate IsStatus(s: string) {
    s == Done || s == Pending
  }

  predicate IsPriority(p: string) {
    p == High || p == Medium || p == Low
  }

  /** SQL `status != 'selesai'`: the task still counts as open. */
  predicate IsActive(t: Task) {
    t.status != Done
  }

  /** What create and edit can store: a trimmed, non-blank name of at most 255 bytes and enumerated status and priority. */
  predicate WellFormed(t: Task) {
    && !IsEmpty(t.name)
    && ByteLength(t.name) <= 255
    && IsTrimmed(t.name)
    && IsStatus(t.status)
    && IsPriority(t.priority)
  }

  /** The keys `SELECT ... FROM tasks WHERE nama_tugas = ? AND status != 'selesai'` finds. */
  function ActiveWithName(tasks: map<int, Task>, name: string): set<int> {
    set id | id in tasks && tasks[id].name == name && IsActive(tasks[id])
  }

  /** No two open tasks share a name. */
  predicate ActiveNamesUnique(tasks: map<int, Task>) {
    forall i, j :: i in tasks && j in tasks && i != j && IsActive(tasks[i]) && IsActive(tasks[j]) ==> tasks[i].name != tasks[j].name
  }

  /** The `text` of a session flash: create.php stores a whole error list as one entry. */
  datatype FlashText = One(text: string) | Many(texts: seq<string>)

  /** An entry of `$_SESSION['messages']` (its `time` is left out). */
  datatype Flash = Flash(text: FlashText, kind: string)

  /** A line of the activity log (timestamp, address and user agent are left out). */
  datatype LogEntry = LogEntry(action: string, description: string)

  /** A row of `deleted_tasks` (the deletion time and address are left out). */
  datatype DeletedTask = DeletedTask(originalId: int, name: string, status: string, priority: string, tanggal: CalendarDate, deadline: CalendarDate)

  /** How a handler ended: success, the accumulated `$errors`, a thrown message, or a database exception. */
  datatype Outcome =
    | Created(id: int)
    | Updated
    | Toggled(newStatus: string)
    | Deleted
    | Invalid(errors: seq<string>)
    | Failed(error: string)
    | DatabaseError

  const MethodNotAllowed := "Method tidak diizinkan"
  const InvalidId := "ID tugas tidak valid"
  const NotFound := "Tugas tidak ditemukan"
  /** The flash every handler queues when the database throws. */
  const DatabaseFailure := "Terjadi kesalahan database"

  /** The text of a log line that quotes a task name: "Tugas '<name>'". */
  function Quoted(name: string): string {
    "Tugas '" + name + "'"
  }
}
