/**
 * The decisions of actions/toggle_status.php that do not touch state: the
 * input guards, the two-state flip, the stale-status check, the on-time
 * test and the flashes and log line of a successful toggle.
 */
module ToggleRules {
  import opened Wrappers
  import opened Calendar
  import opened Tasks

  const InvalidStatus := "Status tidak valid"
  const StatusChanged := "Status tugas sudah berubah, silakan refresh halaman"
  const CompletedMessage := "Tugas berhasil ditandai selesai! \U{1F389}"
  const ReopenedMessage := "Status tugas berhasil dikembalikan ke belum selesai"

  /** `$new_status`: "selesai" becomes "belum selesai", anything else becomes "selesai". */
  function Flip(status: string): string {
    if status == Done then Pending else Done
  }

  /** The checks before the table is read, stopping at the first failure. */
  function InputError(id: int, currentStatus: string): Option<string> {
    if id <= 0 then Some(InvalidId)
    else if !IsStatus(currentStatus) then Some(InvalidStatus)
    else None
  }

  /** All checks of the handler, in order: input, then missing row, then a stored status other than the one the page showed. */
  function ToggleError(tasks: map<int, Task>, id: int, currentStatus: string): Option<string> {
    if InputError(id, currentStatus).Some? then InputError(id, currentStatus)
    else if id !in tasks then Some(NotFound)
    else if tasks[id].status != currentStatus then Some(StatusChanged)
    else None
  }

  /** The table after `UPDATE tasks SET status = ? WHERE id = ?`. */
  function SetStatus(tasks: map<int, Task>, id: int, status: string): (after: map<int, Task>)
    requires id in tasks
    ensures after.Keys == tasks.Keys
    ensures after[id] == tasks[id].(status := status)
    ensures forall k :: k in tasks && k != id ==> after[k] == tasks[k]
  {
    tasks[id := tasks[id].(status := status)]
  }

  /** `strtotime($deadline) >= strtotime(date('Y-m-d'))`, on day numbers. */
  predicate IsOnTime(deadline: CalendarDate, today: CalendarDate) {
    DayNumber(deadline) >= DayNumber(today)
  }

  function LateWarning(deadline: CalendarDate): string {
    "Tugas selesai namun melewati deadline (" + FormatYmd(deadline) + ")"
  }

  /** The flashes a successful toggle queues. */
  function ToggleFlashes(newStatus: string, deadline: CalendarDate, today: CalendarDate): seq<Flash> {
    if newStatus == Done then
      [Flash(One(CompletedMessage), "success")]
      + (if IsOnTime(deadline, today) then [] else [Flash(One(LateWarning(deadline)), "warning")])
    else
      [Flash(One(ReopenedMessage), "info")]
  }

  /** The log line a successful toggle writes. */
  function ToggleLog(name: string, newStatus: string, deadline: CalendarDate, today: CalendarDate): LogEntry {
    if newStatus == Done then
      LogEntry("COMPLETE", Quoted(name) + " selesai (" + (if IsOnTime(deadline, today) then "tepat waktu" else "terlambat") + ")")
    else
      LogEntry("REOPEN", Quoted(name) + " dibuka kembali")
  }

  /** The flip is a two-state machine: it always moves to the other status, and flipping twice returns. */
  lemma FlipIsInvolution(status: string)
    requires IsStatus(status)
    ensures IsStatus(Flip(status)) && Flip(status) != status
    ensures Flip(Flip(status)) == status
  {
  }

  /** A bad id is reported even when the status is bad too; the status is judged only for a positive id. */
  lemma InputErrorStopsAtFirst(id: int, currentStatus: string)
    ensures InputError(id, currentStatus) == Some(InvalidId) <==> id <= 0
    ensures InputError(id, currentStatus) == Some(InvalidStatus) <==> id > 0 && !IsStatus(currentStatus)
    ensures InputError(id, currentStatus).None? <==> id > 0 && IsStatus(currentStatus)
  {
  }

  /** A toggle succeeds exactly when the input is valid, the row exists and still shows the submitted status. */
  lemma ToggleErrorNoneIff(tasks: map<int, Task>, id: int, currentStatus: string)
    ensures ToggleError(tasks, id, currentStatus).None?
            <==> id > 0 && IsStatus(currentStatus) && id in tasks && tasks[id].status == currentStatus
    ensures ToggleError(tasks, id, currentStatus) == Some(StatusChanged)
            <==> id > 0 && IsStatus(currentStatus) && id in tasks && tasks[id].status != currentStatus
  {
    InputErrorStopsAtFirst(id, currentStatus);
  }

  /**
   * Resubmitting the same form: a toggle that succeeded leaves the row with
   * the other status, so the same request again meets the stale-status
   * conflict.
   */
  lemma SecondToggleConflicts(tasks: map<int, Task>, id: int, currentStatus: string)
    requires ToggleError(tasks, id, currentStatus).None?
    ensures id in tasks
    ensures ToggleError(SetStatus(tasks, id, Flip(currentStatus)), id, currentStatus) == Some(StatusChanged)
  {
    ToggleErrorNoneIff(tasks, id, currentStatus);
    FlipIsInvolution(currentStatus);
    ToggleErrorNoneIff(SetStatus(tasks, id, Flip(currentStatus)), id, currentStatus);
  }

  /** Completion is on time exactly when the deadline is not a day before today. */
  lemma OnTimeIffNotBeforeToday(deadline: CalendarDate, today: CalendarDate)
    ensures IsOnTime(deadline, today) <==> !Before(deadline, today)
    ensures deadline == today ==> IsOnTime(deadline, today)
  {
    DayNumberOrder(deadline, today);
  }

  /**
   * Completing queues the success flash, followed by a warning exactly when
   * it is late; reopening queues one info flash and never a warning.
   */
  lemma ToggleFlashesSpec(newStatus: string, deadline: CalendarDate, today: CalendarDate)
    ensures var flashes := ToggleFlashes(newStatus, deadline, today);
            && 1 <= |flashes| <= 2
            && (newStatus == Done ==> flashes[0] == Flash(One(CompletedMessage), "success")
                                      && (|flashes| == 2 <==> Before(deadline, today))
                                      && (|flashes| == 2 ==> flashes[1].kind == "warning"))
            && (newStatus != Done ==> flashes == [Flash(One(ReopenedMessage), "info")])
            && (forall k :: 0 <= k < |flashes| ==> flashes[k].kind != "warning" || newStatus == Done)
  {
    OnTimeIffNotBeforeToday(deadline, today);
  }

  /** The log line says "tepat waktu" or "terlambat" for a completion, "dibuka kembali" for a reopen. */
  lemma ToggleLogSpec(name: string, newStatus: string, deadline: CalendarDate, today: CalendarDate)
    ensures ToggleLog(name, newStatus, deadline, today).action == (if newStatus == Done then "COMPLETE" else "REOPEN")
    ensures newStatus == Done ==>
      ToggleLog(name, newStatus, deadline, today).description
      == Quoted(name) + (if Before(deadline, today) then " selesai (terlambat)" else " selesai (tepat waktu)")
  {
    OnTimeIffNotBeforeToday(deadline, today);
  }

  /**
   * Reopening does not re-check names: a done task may be reopened while an
   * open task already uses its name, and then two open tasks share it.
   */
  lemma ReopenCanDuplicateOpenNames()
    ensures var d := Date(2024, 1, 1);
            var tasks := map[1 := Task("Laporan", Done, High, d, d), 2 := Task("Laporan", Pending, Low, d, d)];
            && ActiveNamesUnique(tasks)
            && ToggleError(tasks, 1, Done).None?
            && !ActiveNamesUnique(SetStatus(tasks, 1, Flip(Done)))
  {
    var d: CalendarDate := Date(2024, 1, 1);
    var tasks := map[1 := Task("Laporan", Done, High, d, d), 2 := Task("Laporan", Pending, Low, d, d)];
    var after := SetStatus(tasks, 1, Flip(Done));
    assert IsActive(after[1]) && IsActive(after[2]) && after[1].name == after[2].name;
  }
}
