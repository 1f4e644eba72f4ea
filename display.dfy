/**
 * `TaskReader::formatTaskForDisplay` and `formatDate` of actions/read.php:
 * the `d/m/Y` dates, the status badge, the priority icon and the deadline
 * label with its CSS class, computed from one row and today's date.
 */
module TaskDisplay {
  import opened Wrappers
  import opened PhpStrings
  import opened Calendar
  import opened Tasks
  import opened Listing

  /** The row with the keys formatTaskForDisplay adds. */
  datatype DisplayRow = DisplayRow(
    row: TaskRow,
    formattedTanggal: string,
    formattedDeadline: string,
    statusBadge: string,
    priorityIcon: string,
    deadlineStatus: string,
    deadlineClass: string)

  const DoneBadge := "\U{2705} Selesai"
  const OpenBadge := "\U{23F3} Belum Selesai"

  const HighIcon := "\U{1F534}"
  const MediumIcon := "\U{1F7E1}"
  const LowIcon := "\U{1F7E2}"
  const UnknownIcon := "\U{26AA}"

  const OverdueLabel := "TERLAMBAT"
  const TodayLabel := "HARI INI"
  const DaysLeftSuffix := " HARI LAGI"

  /** `formatDate`: `strtotime` of a `Y-m-d` value printed as `d/m/Y`. */
  function FormatDate(d: CalendarDate): (s: string)
    ensures |s| == 10
  {
    FormatDmy(d)
  }

  /** The badge tells done from everything else. */
  function StatusBadge(status: string): string {
    if status == Done then DoneBadge else OpenBadge
  }

  /** `$priority_icons[$task['prioritas']] ?? '⚪'`. */
  function PriorityIcon(priority: string): (icon: string)
    ensures icon == UnknownIcon <==> !IsPriority(priority)
  {
    if priority == High then HighIcon
    else if priority == Medium then MediumIcon
    else if priority == Low then LowIcon
    else UnknownIcon
  }

  /** `(strtotime(deadline) - strtotime(today)) / 86400`: whole days, negative once the deadline has passed. */
  function DaysLeft(deadline: CalendarDate, today: CalendarDate): int {
    DayNumber(deadline) - DayNumber(today)
  }

  /** `deadline_status` and `deadline_class`. */
  datatype DeadlineLabel = DeadlineLabel(status: string, cssClass: string)

  /** The overdue flag first, then a deadline string equal to today's, then the day count. */
  function LabelFor(row: TaskRow, today: CalendarDate): DeadlineLabel {
    if row.isOverdue then DeadlineLabel(OverdueLabel, "overdue")
    else if FormatYmd(row.task.deadline) == FormatYmd(today) then DeadlineLabel(TodayLabel, "today")
    else
      var days := DaysLeft(row.task.deadline, today);
      if days <= 3 then DeadlineLabel(IntToDecimal(days) + DaysLeftSuffix, "soon")
      else DeadlineLabel("", "normal")
  }

  /**
   * formatTaskForDisplay: no row gives no result; otherwise the row with its
   * display fields: the stored dates reordered as `DD/MM/YYYY`, the done
   * badge exactly for a done task, the grey icon exactly for an unknown
   * priority, and the deadline label LabelCases describes.
   */
  function FormatTaskForDisplay(row: Option<TaskRow>, today: CalendarDate): (r: Option<DisplayRow>)
    ensures r.None? <==> row.None?
    ensures r.Some? ==> r.value.row == row.value
    ensures r.Some? ==>
      var t := row.value.task;
      var deadline, tanggal := FormatYmd(t.deadline), FormatYmd(t.tanggal);
      && r.value.formattedDeadline == deadline[8..10] + "/" + deadline[5..7] + "/" + deadline[0..4]
      && r.value.formattedTanggal == tanggal[8..10] + "/" + tanggal[5..7] + "/" + tanggal[0..4]
    ensures r.Some? ==> (r.value.statusBadge == DoneBadge <==> row.value.task.status == Done)
    ensures r.Some? ==> (r.value.statusBadge == OpenBadge <==> row.value.task.status != Done)
    ensures r.Some? ==> (r.value.priorityIcon == UnknownIcon <==> !IsPriority(row.value.task.priority))
    ensures r.Some? ==> DeadlineLabel(r.value.deadlineStatus, r.value.deadlineClass) == LabelFor(row.value, today)
  {
    match row
    case None => None
    case Some(t) =>
      FormatDmyReordersYmd(t.task.deadline);
      FormatDmyReordersYmd(t.task.tanggal);
      var tag := LabelFor(t, today);
      Some(DisplayRow(t, FormatDate(t.task.tanggal), FormatDate(t.task.deadline),
                      StatusBadge(t.task.status), PriorityIcon(t.task.priority), tag.status, tag.cssClass))
  }

  /** Two real dates print alike exactly when they are the same date. */
  lemma FormatYmdInjective(a: CalendarDate, b: CalendarDate)
    ensures FormatYmd(a) == FormatYmd(b) <==> a == b
  {
    ParseFormatRoundTrip(a);
    ParseFormatRoundTrip(b);
  }

  /**
   * The four labels and what selects each: the overdue flag, then a deadline
   * of today, then at most three days left (the count printed before
   * " HARI LAGI"), else no label.
   */
  lemma LabelCases(row: TaskRow, today: CalendarDate)
    ensures var tag := LabelFor(row, today);
      && (tag.cssClass == "overdue" <==> row.isOverdue)
      && (tag.cssClass == "today" <==> !row.isOverdue && row.task.deadline == today)
      && (tag.cssClass == "soon" <==> !row.isOverdue && row.task.deadline != today && DaysLeft(row.task.deadline, today) <= 3)
      && (tag.cssClass == "normal" <==> !row.isOverdue && DaysLeft(row.task.deadline, today) > 3)
      && (tag.cssClass == "overdue" ==> tag.status == OverdueLabel)
      && (tag.cssClass == "today" ==> tag.status == TodayLabel)
      && (tag.cssClass == "soon" ==> tag.status == IntToDecimal(DaysLeft(row.task.deadline, today)) + DaysLeftSuffix)
      && (tag.cssClass == "normal" ==> tag.status == "")
  {
    FormatYmdInjective(row.task.deadline, today);
    DayNumberOrder(row.task.deadline, today);
  }

  /**
   * For an open task read from the table, "N HARI LAGI" always counts one to
   * three days ahead: a passed deadline is caught by the overdue flag first.
   */
  lemma OpenTaskSoonIsAhead(tasks: map<int, Task>, id: int, today: CalendarDate)
    requires id in tasks && IsActive(tasks[id])
    ensures var tag := LabelFor(RowOf(tasks, id, today), today);
      tag.cssClass == "soon" ==> 1 <= DaysLeft(tasks[id].deadline, today) <= 3
    ensures var tag := LabelFor(RowOf(tasks, id, today), today);
      tag.cssClass == "overdue" <==> Before(tasks[id].deadline, today)
  {
    var row := RowOf(tasks, id, today);
    LabelCases(row, today);
    DayNumberOrder(tasks[id].deadline, today);
  }

  /**
   * A done task is never flagged overdue, so once its deadline has passed it
   * is labelled with a negative day count: two days late reads "-2 HARI LAGI".
   */
  lemma DoneLateTaskShowsNegativeDays(tasks: map<int, Task>, id: int, today: CalendarDate)
    requires id in tasks && tasks[id].status == Done
    requires DaysLeft(tasks[id].deadline, today) == -2
    ensures LabelFor(RowOf(tasks, id, today), today) == DeadlineLabel("-2 HARI LAGI", "soon")
  {
    var row := RowOf(tasks, id, today);
    LabelCases(row, today);
    assert IntToDecimal(-2) == "-2";
  }

  /** Every stored task gets one of the three coloured icons; the grey one only marks a value outside the enumeration. */
  lemma StoredTasksHaveColouredIcons(t: Task)
    requires WellFormed(t)
    ensures PriorityIcon(t.priority) in {HighIcon, MediumIcon, LowIcon}
  {
  }
}
