/**
 * `TaskReader::getTaskStatistics` of actions/read.php: six counting queries
 * and a loop over the `GROUP BY prioritas` rows, with the completion
 * percentage rounded to one decimal.
 */
module Statistics {
  import opened Calendar
  import opened Tasks
  import opened Listing

  /** `$stats`; the percentage is kept in tenths of a percent. */
  datatype TaskStatistics = TaskStatistics(
    total: int,
    completed: int,
    pending: int,
    overdue: int,
    dueToday: int,
    byPriority: map<string, int>,
    completionTenths: int)

  /** `WHERE status = 'selesai'` */
  function CompletedIds(tasks: map<int, Task>): set<int> {
    set id | id in tasks && tasks[id].status == Done
  }

  /** `WHERE status != 'selesai'` */
  function OpenIds(tasks: map<int, Task>): set<int> {
    set id | id in tasks && IsActive(tasks[id])
  }

  /** `WHERE deadline < CURDATE() AND status != 'selesai'` */
  function OverdueIds(tasks: map<int, Task>, today: CalendarDate): set<int> {
    set id | id in tasks && IsOverdue(tasks[id], today)
  }

  /** `WHERE deadline = CURDATE() AND status != 'selesai'` */
  function DueTodayIds(tasks: map<int, Task>, today: CalendarDate): set<int> {
    set id | id in tasks && tasks[id].deadline == today && IsActive(tasks[id])
  }

  /** The open tasks of one priority: one group of `GROUP BY prioritas`. */
  function OpenWithPriority(tasks: map<int, Task>, p: string): set<int> {
    set id | id in tasks && IsActive(tasks[id]) && tasks[id].priority == p
  }

  /** The group keys: every priority some open task has. */
  function OpenPriorities(tasks: map<int, Task>): set<string> {
    set id | id in tasks && IsActive(tasks[id]) :: tasks[id].priority
  }

  /**
   * `round($completed / $total * 100, 1)` in tenths, for a positive total:
   * the nearest tenth, halves rounded up (away from zero, as PHP does).
   */
  function CompletionTenths(completed: int, total: int): (tenths: int)
    requires 0 <= completed <= total && 0 < total
    ensures 0 <= tenths <= 1000
    ensures tenths == 0 <==> 2000 * completed < total
    ensures completed == total ==> tenths == 1000
    ensures 2 * total * tenths <= 2000 * completed + total < 2 * total * (tenths + 1)
  {
    var n, d := 2000 * completed + total, 2 * total;
    DivBounds(n, d);
    DivBelow(n, d, 1001);
    DivAtLeast(n, d, 0);
    if 2000 * completed < total then
      DivBelow(n, d, 1);
      n / d
    else
      DivAtLeast(n, d, 1);
      if completed == total then
        DivAtLeast(n, d, 1000);
        n / d
      else
        n / d
  }

  /**
   * getTaskStatistics. The group rows are consumed in whatever order the
   * engine returns them; the counts are what the queries count, `pending`
   * is exactly the number of open tasks, and the open counts never exceed
   * it.
   */
  method GetTaskStatistics(tasks: map<int, Task>, today: CalendarDate) returns (stats: TaskStatistics)
    ensures stats.total == |tasks| && stats.completed == |CompletedIds(tasks)|
    ensures stats.pending == |OpenIds(tasks)| && stats.pending == stats.total - stats.completed
    ensures stats.overdue == |OverdueIds(tasks, today)| && stats.dueToday == |DueTodayIds(tasks, today)|
    ensures stats.overdue + stats.dueToday <= stats.pending
    ensures forall p :: p in stats.byPriority <==> OpenWithPriority(tasks, p) != {}
    ensures forall p :: p in stats.byPriority ==>
              stats.byPriority[p] == |OpenWithPriority(tasks, p)| && 1 <= stats.byPriority[p] <= stats.pending
    ensures stats.total == 0 ==> stats.completionTenths == 0
    ensures 0 <= stats.completionTenths <= 1000
    ensures stats.total > 0 && stats.pending == 0 ==> stats.completionTenths == 1000
  {
    var total := |tasks|;
    var completed := |CompletedIds(tasks)|;
    var pending := total - completed;
    var overdue := |OverdueIds(tasks, today)|;
    var dueToday := |DueTodayIds(tasks, today)|;
    var byPriority: map<string, int> := map[];
    var groups := OpenPriorities(tasks);
    while groups != {}
      invariant groups <= OpenPriorities(tasks)
      invariant byPriority.Keys == OpenPriorities(tasks) - groups
      invariant forall p :: p in byPriority ==> byPriority[p] == |OpenWithPriority(tasks, p)|
      decreases groups
    {
      ghost var some := Member(groups);
      var p :| p in groups;
      byPriority := byPriority[p := |OpenWithPriority(tasks, p)|];
      groups := groups - {p};
    }
    CountsPartition(tasks, today);
    var tenths := if total > 0 then CompletionTenths(completed, total) else 0;
    stats := TaskStatistics(total, completed, pending, overdue, dueToday, byPriority, tenths);
    forall p | p in byPriority
      ensures 1 <= byPriority[p] <= pending
    {
      PriorityGroupBounds(tasks, p);
    }
    forall p ensures p in byPriority <==> OpenWithPriority(tasks, p) != {} {
      PriorityGroupBounds(tasks, p);
    }
  }

  /** Done and open tasks split the table; overdue and due-today tasks are disjoint kinds of open task. */
  lemma CountsPartition(tasks: map<int, Task>, today: CalendarDate)
    ensures |CompletedIds(tasks)| <= |tasks|
    ensures |OpenIds(tasks)| == |tasks| - |CompletedIds(tasks)|
    ensures |OverdueIds(tasks, today)| + |DueTodayIds(tasks, today)| <= |OpenIds(tasks)|
  {
    var done, open := CompletedIds(tasks), OpenIds(tasks);
    assert tasks.Keys == done + open by {
      assert forall id :: id in tasks.Keys <==> id in done || id in open;
    }
    assert done * open == {} by {
      assert forall id :: id !in done * open;
    }
    assert |tasks.Keys| == |tasks|;
    var late, due := OverdueIds(tasks, today), DueTodayIds(tasks, today);
    assert late * due == {} by {
      assert forall id :: id !in late * due;
    }
    assert late + due <= open by {
      assert forall id :: id in late ==> id in open;
    }
    SubsetCard(late + due, open);
  }

  /** A group key is a priority some open task has, and its count is at most the number of open tasks. */
  lemma PriorityGroupBounds(tasks: map<int, Task>, p: string)
    ensures p in OpenPriorities(tasks) <==> OpenWithPriority(tasks, p) != {}
    ensures OpenWithPriority(tasks, p) <= OpenIds(tasks)
    ensures p in OpenPriorities(tasks) ==> 1 <= |OpenWithPriority(tasks, p)| <= |OpenIds(tasks)|
  {
    var group := OpenWithPriority(tasks, p);
    if p in OpenPriorities(tasks) {
      var id :| id in tasks && IsActive(tasks[id]) && tasks[id].priority == p;
      assert id in group;
    }
    if group != {} {
      var id := Member(group);
      assert tasks[id].priority in OpenPriorities(tasks);
    }
    SubsetCard(group, OpenIds(tasks));
  }

  /** The quotient is the largest multiple of the divisor that fits. */
  lemma DivBounds(n: int, d: int)
    requires 0 < d
    ensures d * (n / d) <= n < d * (n / d + 1)
  {
    var q := n / d;
    assert d * q + n % d == n && 0 <= n % d < d;
    assert d * (q + 1) == d * q + d;
  }

  lemma DivBelow(n: int, d: int, k: int)
    requires 0 < d && 0 <= n < d * k
    ensures n / d < k
  {
  }

  lemma DivAtLeast(n: int, d: int, k: int)
    requires 0 < d && d * k <= n
    ensures k <= n / d
  {
    var q := n / d;
    assert d * q + n % d == n && n % d < d;
    assert d * (q + 1) > n;
  }

  lemma {:induction false} SubsetCard(a: set<int>, b: set<int>)
    requires a <= b
    ensures |a| <= |b|
    decreases b
  {
    if a != {} {
      var x := Member(a);
      SubsetCard(a - {x}, b - {x});
    }
  }
}
