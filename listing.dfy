/**
 * The read side of actions/read.php that returns rows: the `WHERE` clauses
 * `getTasks` assembles from its filters, the `is_overdue` column, the
 * `ORDER BY` keys of the listing and of `searchTasks`, the lookup by id and
 * the search with its row limit. The SQL engine is replaced by functions over
 * the table; sorting is an insertion sort proved against the order it
 * implements.
 */
module Listing {
  import opened Wrappers
  import opened PhpStrings
  import opened Calendar
  import opened Tasks

  /** A row of `SELECT *, CASE ... END AS is_overdue FROM tasks`. */
  datatype TaskRow = TaskRow(id: int, task: Task, isOverdue: bool)

  /** The `is_overdue` column: `deadline < CURDATE() AND status != 'selesai'`. */
  predicate IsOverdue(t: Task, today: CalendarDate) {
    Before(t.deadline, today) && IsActive(t)
  }

  /** The row the table holds under `id`, with its computed column. */
  function RowOf(tasks: map<int, Task>, id: int, today: CalendarDate): TaskRow
    requires id in tasks
  {
    TaskRow(id, tasks[id], IsOverdue(tasks[id], today))
  }

  /** The overdue flag agrees with comparing day numbers, the way the display code subtracts dates. */
  lemma OverdueByDayNumber(t: Task, today: CalendarDate)
    ensures IsOverdue(t, today) <==> DayNumber(t.deadline) < DayNumber(today) && t.status != Done
  {
    DayNumberOrder(t.deadline, today);
  }

  /** The `list` request's filters; an empty string is a filter that was not given. */
  datatype Filters = Filters(status: string, priority: string, search: string, deadlineFilter: string, sortBy: string)

  /** One entry of `$where_conditions`. */
  datatype Condition =
    | StatusIs(status: string)
    | PriorityIs(priority: string)
    | NameLike(keyword: string)
    | DeadlineIsToday
    | DeadlineIsTomorrow
    | DeadlineWithinWeek
    | OverdueOnly

  /** The `switch` on `deadline_filter`: four known values, anything else adds nothing. */
  function DeadlineConditions(filter: string): seq<Condition> {
    if filter == "today" then [DeadlineIsToday]
    else if filter == "tomorrow" then [DeadlineIsTomorrow]
    else if filter == "this_week" then [DeadlineWithinWeek]
    else if filter == "overdue" then [OverdueOnly]
    else []
  }

  /** `$where_conditions` as getTasks builds it, one condition per non-empty filter. */
  function Conditions(f: Filters): seq<Condition> {
    (if f.status != "" then [StatusIs(f.status)] else [])
    + (if f.priority != "" then [PriorityIs(f.priority)] else [])
    + (if f.search != "" then [NameLike(f.search)] else [])
    + DeadlineConditions(f.deadlineFilter)
  }

  /** What each SQL condition asks of a row; `DATE_ADD(CURDATE(), INTERVAL n DAY)` is today's day number plus n. */
  predicate Holds(c: Condition, t: Task, today: CalendarDate) {
    match c
    case StatusIs(s) => t.status == s
    case PriorityIs(p) => t.priority == p
    case NameLike(keyword) => Contains(t.name, keyword)
    case DeadlineIsToday => DayNumber(t.deadline) == DayNumber(today)
    case DeadlineIsTomorrow => DayNumber(t.deadline) == DayNumber(today) + 1
    case DeadlineWithinWeek => DayNumber(today) <= DayNumber(t.deadline) <= DayNumber(today) + 7
    case OverdueOnly => DayNumber(t.deadline) < DayNumber(today) && t.status != Done
  }

  /** `implode(" AND ", $where_conditions)`: every condition holds (none at all selects every row). */
  predicate AllHold(cs: seq<Condition>, t: Task, today: CalendarDate) {
    forall k :: 0 <= k < |cs| ==> Holds(cs[k], t, today)
  }

  /** The row filter stated field by field, independently of how the condition list is built. */
  predicate MatchesFilters(f: Filters, t: Task, today: CalendarDate) {
    && (f.status == "" || t.status == f.status)
    && (f.priority == "" || t.priority == f.priority)
    && Contains(t.name, f.search)
    && (f.deadlineFilter == "today" ==> t.deadline == today)
    && (f.deadlineFilter == "tomorrow" ==> DayNumber(t.deadline) == DayNumber(today) + 1)
    && (f.deadlineFilter == "this_week" ==> !Before(t.deadline, today) && DayNumber(t.deadline) <= DayNumber(today) + 7)
    && (f.deadlineFilter == "overdue" ==> IsOverdue(t, today))
  }

  /**
   * A row passes the assembled `WHERE` exactly when it passes every given
   * filter; an empty search adds no condition, and the empty keyword is
   * contained in every name.
   */
  lemma ConditionsMeaning(f: Filters, t: Task, today: CalendarDate)
    ensures AllHold(Conditions(f), t, today) <==> MatchesFilters(f, t, today)
  {
    assert OccursAt(t.name, [], 0);
    DayNumberOrder(t.deadline, today);
    var a := if f.status != "" then [StatusIs(f.status)] else [];
    var b := if f.priority != "" then [PriorityIs(f.priority)] else [];
    var c := if f.search != "" then [NameLike(f.search)] else [];
    var d := DeadlineConditions(f.deadlineFilter);
    assert Conditions(f) == a + b + c + d;
    AllHoldSplit(a, b, c, d, t, today);
    AllHoldAtMostOne(a, t, today);
    AllHoldAtMostOne(b, t, today);
    AllHoldAtMostOne(c, t, today);
    AllHoldAtMostOne(d, t, today);
  }

  lemma AllHoldAtMostOne(cs: seq<Condition>, t: Task, today: CalendarDate)
    requires |cs| <= 1
    ensures AllHold(cs, t, today) <==> (cs == [] || Holds(cs[0], t, today))
  {
  }

  lemma AllHoldSplit(a: seq<Condition>, b: seq<Condition>, c: seq<Condition>, d: seq<Condition>, t: Task, today: CalendarDate)
    ensures AllHold(a + b + c + d, t, today) <==> AllHold(a, t, today) && AllHold(b, t, today) && AllHold(c, t, today) && AllHold(d, t, today)
  {
    var s := a + b + c + d;
    if AllHold(a, t, today) && AllHold(b, t, today) && AllHold(c, t, today) && AllHold(d, t, today) {
      forall k | 0 <= k < |s| ensures Holds(s[k], t, today) {
        if k < |a| {
          assert s[k] == a[k];
        } else if k < |a| + |b| {
          assert s[k] == b[k - |a|];
        } else if k < |a| + |b| + |c| {
          assert s[k] == c[k - |a| - |b|];
        } else {
          assert s[k] == d[k - |a| - |b| - |c|];
        }
      }
    }
    if AllHold(s, t, today) {
      assert forall k :: 0 <= k < |a| ==> s[k] == a[k];
      assert forall k :: 0 <= k < |b| ==> s[|a| + k] == b[k];
      assert forall k :: 0 <= k < |c| ==> s[|a| + |b| + k] == c[k];
      assert forall k :: 0 <= k < |d| ==> s[|a| + |b| + |c| + k] == d[k];
    }
  }

  /** The keys `getTasks` selects. */
  function SelectedIds(tasks: map<int, Task>, f: Filters, today: CalendarDate): (ids: set<int>)
    ensures ids <= tasks.Keys
  {
    set id | id in tasks && AllHold(Conditions(f), tasks[id], today)
  }

  /** The `sort_by` choices; `priority_deadline` is also the default. */
  datatype SortMode = ByName | ByDeadline | ByStatus | ByPriorityDeadline

  function SortModeOf(sortBy: string): SortMode {
    if sortBy == "name" then ByName
    else if sortBy == "deadline" then ByDeadline
    else if sortBy == "status" then ByStatus
    else ByPriorityDeadline
  }

  /**
   * `CASE prioritas WHEN 'tinggi' THEN 1 WHEN 'sedang' THEN 2 WHEN 'rendah'
   * THEN 3 END`; any other value gives NULL, which an ascending sort puts
   * first, hence 0.
   */
  function PriorityRank(p: string): (rank: int)
    ensures 0 <= rank <= 3
    ensures rank == 0 <==> !IsPriority(p)
  {
    if p == High then 1 else if p == Medium then 2 else if p == Low then 3 else 0
  }

  /** `CASE WHEN nama_tugas LIKE 'kw%' THEN 1 ELSE 2 END`: names starting with the keyword first. */
  function PrefixRank(keyword: string, name: string): int {
    if keyword <= name then 1 else 2
  }

  /** The two orders that produce rows: a listing's `sort_by`, or a search for a keyword. */
  datatype Ordering = ListOrder(mode: SortMode) | SearchOrder(keyword: string)

  predicate StrLt(a: string, b: string) {
    StrLe(a, b) && a != b
  }

  /** Priority rank, then deadline. */
  predicate RankThenDeadline(a: Task, b: Task) {
    PriorityRank(a.priority) < PriorityRank(b.priority)
    || (PriorityRank(a.priority) == PriorityRank(b.priority) && DayNumber(a.deadline) <= DayNumber(b.deadline))
  }

  /** `a` may come before `b` under the `ORDER BY` of the ordering. */
  predicate Le(o: Ordering, a: TaskRow, b: TaskRow) {
    match o
    case ListOrder(ByName) => StrLe(a.task.name, b.task.name)
    case ListOrder(ByDeadline) => DayNumber(a.task.deadline) <= DayNumber(b.task.deadline)
    case ListOrder(ByStatus) =>
      StrLt(a.task.status, b.task.status)
      || (a.task.status == b.task.status && DayNumber(a.task.deadline) <= DayNumber(b.task.deadline))
    case ListOrder(ByPriorityDeadline) => RankThenDeadline(a.task, b.task)
    case SearchOrder(keyword) =>
      PrefixRank(keyword, a.task.name) < PrefixRank(keyword, b.task.name)
      || (PrefixRank(keyword, a.task.name) == PrefixRank(keyword, b.task.name) && RankThenDeadline(a.task, b.task))
  }

  /** Any two rows are comparable. */
  lemma LeTotal(o: Ordering, a: TaskRow, b: TaskRow)
    ensures Le(o, a, b) || Le(o, b, a)
  {
    match o
    case ListOrder(ByName) =>
      StrLeTotal(a.task.name, b.task.name);
    case ListOrder(ByStatus) =>
      StrLeTotal(a.task.status, b.task.status);
    case _ =>
  }

  lemma StrLtTransitive(a: string, b: string, c: string)
    requires StrLt(a, b) && StrLt(b, c)
    ensures StrLt(a, c)
  {
    StrLeTransitive(a, b, c);
    if a == c {
      StrLeAntisymmetric(a, b);
    }
  }

  /** The order is transitive, so a pairwise-sorted sequence is well defined. */
  lemma LeTransitive(o: Ordering, a: TaskRow, b: TaskRow, c: TaskRow)
    requires Le(o, a, b) && Le(o, b, c)
    ensures Le(o, a, c)
  {
    match o
    case ListOrder(ByName) =>
      StrLeTransitive(a.task.name, b.task.name, c.task.name);
    case ListOrder(ByStatus) =>
      if StrLt(a.task.status, b.task.status) && StrLt(b.task.status, c.task.status) {
        StrLtTransitive(a.task.status, b.task.status, c.task.status);
      }
    case _ =>
  }

  /** Every earlier row may precede every later one. */
  predicate Sorted(o: Ordering, rows: seq<TaskRow>) {
    forall i, j :: 0 <= i < j < |rows| ==> Le(o, rows[i], rows[j])
  }

  /** A row that may precede every row of a sorted sequence may go in front of it. */
  lemma SortedCons(o: Ordering, r: TaskRow, rows: seq<TaskRow>)
    requires Sorted(o, rows)
    requires forall k :: 0 <= k < |rows| ==> Le(o, r, rows[k])
    ensures Sorted(o, [r] + rows)
  {
    var s := [r] + rows;
    forall i, j | 0 <= i < j < |s| ensures Le(o, s[i], s[j]) {
      if i > 0 {
        assert s[i] == rows[i - 1] && s[j] == rows[j - 1];
      } else {
        assert s[j] == rows[j - 1];
      }
    }
  }

  /** Puts `r` in front of the first row it may precede. */
  function Insert(o: Ordering, r: TaskRow, rows: seq<TaskRow>): (res: seq<TaskRow>)
    requires Sorted(o, rows)
    ensures multiset(res) == multiset(rows) + multiset{r}
    ensures Sorted(o, res)
  {
    if rows == [] then
      [r]
    else if Le(o, r, rows[0]) then
      assert forall k :: 0 <= k < |rows| ==> Le(o, r, rows[k]) by {
        forall k | 0 <= k < |rows| ensures Le(o, r, rows[k]) {
          if k > 0 {
            LeTransitive(o, r, rows[0], rows[k]);
          }
        }
      }
      SortedCons(o, r, rows);
      [r] + rows
    else
      var first, rest := rows[0], rows[1..];
      assert rows == [first] + rest;
      assert Sorted(o, rest);
      var tail := Insert(o, r, rest);
      assert forall k :: 0 <= k < |tail| ==> Le(o, first, tail[k]) by {
        LeTotal(o, r, first);
        forall k | 0 <= k < |tail| ensures Le(o, first, tail[k]) {
          assert tail[k] in multiset(tail);
          if tail[k] != r {
            assert tail[k] in multiset(rest);
            var m :| 0 <= m < |rest| && rest[m] == tail[k];
            assert rows[m + 1] == tail[k];
          }
        }
      }
      SortedCons(o, first, tail);
      [first] + tail
  }

  /** The rows in `ORDER BY` order: the same rows, each as often as before, sorted. */
  function SortRows(o: Ordering, rows: seq<TaskRow>): (res: seq<TaskRow>)
    ensures multiset(res) == multiset(rows)
    ensures Sorted(o, res)
  {
    if rows == [] then
      []
    else
      assert rows == [rows[0]] + rows[1..];
      Insert(o, rows[0], SortRows(o, rows[1..]))
  }

  lemma NonEmptyHasMember(ids: set<int>)
    requires ids != {}
    ensures exists k :: k in ids
  {
    if forall k :: k !in ids {
      assert false;
    }
  }

  /** Some element of a non-empty set. */
  lemma Member<T>(s: set<T>) returns (x: T)
    requires s != {}
    ensures x in s
  {
    if forall k :: k !in s {
      assert false;
    }
    x :| x in s;
  }

  /** The table's rows under the given keys, in no particular order, each key once. */
  ghost function RowsOf(tasks: map<int, Task>, ids: set<int>, today: CalendarDate): (rows: seq<TaskRow>)
    requires ids <= tasks.Keys
    ensures |rows| == |ids|
    ensures forall r :: multiset(rows)[r] == if r.id in ids && r == RowOf(tasks, r.id, today) then 1 else 0
    decreases ids
  {
    if ids == {} then
      []
    else
      NonEmptyHasMember(ids);
      var id :| id in ids;
      var rest := RowsOf(tasks, ids - {id}, today);
      assert forall r: TaskRow :: r.id == id ==> multiset(rest)[r] == 0;
      [RowOf(tasks, id, today)] + rest
  }

  /**
   * `getTasks`: the rows passing every given filter, each once, in the
   * order `sort_by` names; `total` is the length of this list.
   */
  ghost function GetTasks(tasks: map<int, Task>, f: Filters, today: CalendarDate): (rows: seq<TaskRow>)
    ensures Sorted(ListOrder(SortModeOf(f.sortBy)), rows)
    ensures forall r :: multiset(rows)[r] ==
              if r.id in tasks && r == RowOf(tasks, r.id, today) && AllHold(Conditions(f), r.task, today) then 1 else 0
    ensures |rows| == |SelectedIds(tasks, f, today)|
  {
    SortRows(ListOrder(SortModeOf(f.sortBy)), RowsOf(tasks, SelectedIds(tasks, f, today), today))
  }

  /** A row is listed exactly when its task passes every given filter. */
  lemma GetTasksMeaning(tasks: map<int, Task>, f: Filters, today: CalendarDate, id: int)
    requires id in tasks
    ensures RowOf(tasks, id, today) in GetTasks(tasks, f, today) <==> MatchesFilters(f, tasks[id], today)
  {
    var rows := GetTasks(tasks, f, today);
    var r := RowOf(tasks, id, today);
    assert r in rows <==> multiset(rows)[r] > 0;
    ConditionsMeaning(f, tasks[id], today);
  }

  /** The answer of `getTaskById` and `searchTasks`: the data, or the error message. */
  datatype Reply<T> = Ok(data: T) | Err(error: string)

  /** The message `searchTasks` returns when the statement fails; the engine's own text is not modelled. */
  const QueryFailed := "Database error: "

  /** `getTaskById`: the row under `id`, or "Tugas tidak ditemukan". */
  function GetTaskById(tasks: map<int, Task>, id: int, today: CalendarDate): (r: Reply<TaskRow>)
    ensures r.Ok? <==> id in tasks
    ensures r.Err? ==> r.error == NotFound
    ensures r.Ok? ==> r.data.id == id && r.data.task == tasks[id]
  {
    if id in tasks then Ok(RowOf(tasks, id, today)) else Err(NotFound)
  }

  /** The unfiltered listing shows every task, and it is the row getTaskById returns. */
  lemma GetTaskByIdIsListed(tasks: map<int, Task>, id: int, today: CalendarDate)
    requires id in tasks
    ensures GetTaskById(tasks, id, today).data in GetTasks(tasks, Filters("", "", "", "", "priority_deadline"), today)
  {
    var f := Filters("", "", "", "", "priority_deadline");
    assert Conditions(f) == [];
    GetTasksMeaning(tasks, f, today, id);
    assert OccursAt(tasks[id].name, [], 0);
  }

  /** The keys whose name contains the keyword (`nama_tugas LIKE '%kw%'`). */
  function SearchIds(tasks: map<int, Task>, keyword: string): (ids: set<int>)
    ensures ids <= tasks.Keys
  {
    set id | id in tasks && Contains(tasks[id].name, keyword)
  }

  /** Every row whose name contains the keyword, each once, in the search order. */
  ghost function SearchMatches(tasks: map<int, Task>, keyword: string, today: CalendarDate): (rows: seq<TaskRow>)
    ensures Sorted(SearchOrder(keyword), rows)
    ensures |rows| == |SearchIds(tasks, keyword)|
    ensures forall r :: multiset(rows)[r] ==
              if r.id in tasks && r == RowOf(tasks, r.id, today) && Contains(r.task.name, keyword) then 1 else 0
    ensures forall k :: 0 <= k < |rows| ==>
              rows[k].id in tasks && rows[k] == RowOf(tasks, rows[k].id, today) && Contains(rows[k].task.name, keyword)
  {
    var rows := SortRows(SearchOrder(keyword), RowsOf(tasks, SearchIds(tasks, keyword), today));
    assert forall k :: 0 <= k < |rows| ==> rows[k] in multiset(rows);
    rows
  }

  /**
   * `searchTasks`: the first `limit` matching rows, names that start with
   * the keyword first, then by priority rank and deadline. MySQL refuses a
   * negative `LIMIT`, so that request fails.
   */
  ghost function SearchTasks(tasks: map<int, Task>, keyword: string, limit: int, today: CalendarDate): (r: Reply<seq<TaskRow>>)
    ensures r.Err? <==> limit < 0
    ensures r.Ok? ==> |r.data| <= limit
    ensures r.Ok? ==> r.data == SearchMatches(tasks, keyword, today)[..if limit < |SearchIds(tasks, keyword)| then limit else |SearchIds(tasks, keyword)|]
    ensures r.Ok? && limit >= |SearchIds(tasks, keyword)| ==> |r.data| == |SearchIds(tasks, keyword)|
    ensures r.Ok? ==> forall k :: 0 <= k < |r.data| ==>
              r.data[k].id in tasks && r.data[k] == RowOf(tasks, r.data[k].id, today) && Contains(r.data[k].task.name, keyword)
    ensures r.Ok? ==> Sorted(SearchOrder(keyword), r.data)
    ensures r.Ok? ==> forall i, j :: 0 <= i < j < |r.data| && keyword <= r.data[j].task.name ==> keyword <= r.data[i].task.name
  {
    if limit < 0 then
      Err(QueryFailed)
    else
      var all := SearchMatches(tasks, keyword, today);
      var data := if limit < |all| then all[..limit] else all;
      TakeKeepsOrder(SearchOrder(keyword), all, data);
      PrefixFirst(keyword, data);
      Ok(data)
  }

  /** A leading part of a sorted sequence is sorted, and its rows are rows of the whole. */
  lemma TakeKeepsOrder(o: Ordering, all: seq<TaskRow>, data: seq<TaskRow>)
    requires Sorted(o, all) && data <= all
    ensures Sorted(o, data)
    ensures forall k :: 0 <= k < |data| ==> data[k] == all[k]
  {
  }

  /** Under the search order, rows whose name starts with the keyword all come first. */
  lemma PrefixFirst(keyword: string, rows: seq<TaskRow>)
    requires Sorted(SearchOrder(keyword), rows)
    ensures forall i, j :: 0 <= i < j < |rows| && keyword <= rows[j].task.name ==> keyword <= rows[i].task.name
  {
  }
}
