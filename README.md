# To-do list request handlers, modelled in Dafny

This project models the server side of a small PHP to-do application. Tasks
live in one table: a `map<int, Task>` under an auto-increment counter. A task
has a name (`nama_tugas`), a status (`"belum selesai"` or `"selesai"`), a
priority (`"tinggi"`, `"sedang"` or `"rendah"`), a creation date (`tanggal`)
and a deadline. The model has four parts.

- **Field checks** shared by create and edit (`FieldRules`, `CreateRules`,
  `EditRules`). They cover:
  - PHP `empty()`, which treats `"0"` as blank;
  - `trim()`;
  - a name limit that counts UTF-8 bytes, as `strlen` does;
  - the strict `Y-m-d` round-trip date check `validateDate`, with leap years;
  - errors collected field by field in a fixed order;
  - the duplicate-name query over tasks that are not done.
- **The four mutating handlers** (`Store.TaskStore`), as methods on a class.
  It holds the table and counter, the `deleted_tasks` backups, the session
  flash queue and the activity log:
  - create inserts a `belum selesai` row;
  - edit overwrites one row. It has no past-deadline rule, and its duplicate
    check skips the row's own id;
  - toggle has an optimistic stale-status guard, then flips the status. A late
    completion adds a warning;
  - delete makes a best-effort backup, then removes the row or rolls back.
- **The read side** of `TaskReader` (`Listing`, `Statistics`):
  - the `WHERE` conditions of `getTasks`, joined with AND;
  - the `is_overdue` column;
  - the `ORDER BY` keys, with rows sorted by an insertion sort proved against
    them;
  - `getTaskById`;
  - the statistics, computed by a loop over the `GROUP BY` rows;
  - the prefix-first search with its row limit.
- **The display classifier** `formatTaskForDisplay` (`TaskDisplay`): the
  deadline label and CSS class, the priority icon, the status badge and the
  `d/m/Y` dates.

"Today" is a parameter (a `CalendarDate`). Dates are compared and subtracted
through a day count (`Calendar.DayNumber`), which is proved to follow
calendar order.

The two handlers queue flashes differently. After failed checks, create.php
queues a single flash holding the whole error list (`FlashText.Many`).
edit.php queues one flash per message.

When delete.php's DELETE finds no row, it calls `rollBack()` twice. The
second call has no transaction to roll back and throws a PDOException. So the
model ends that path in the database-error flash of the PDOException handler,
not in the message thrown inside the transaction.

The handlers' JSON `$response` is never sent, because `redirectBack()` exits
before the AJAX block is reached. The model returns an `Outcome` value in its
place.

## Model

| member | source | states |
|---|---|---|
| PhpStrings.TrimSpec | actions/create.php:18 | `trim()` returns a contiguous slice of its input, and everything cut away on either side is one of " \t\n\r\0\x0B" |
| PhpStrings.TrimFixesTrimmed | actions/create.php:18 | a string is left alone by `trim()` exactly when neither end is a trim character, and every result of `trim()` is such a string |
| PhpStrings.TrimIdempotent | actions/edit.php:19 | trimming an already trimmed name changes nothing |
| PhpStrings.ByteLength | actions/create.php:27 | `strlen` of the UTF-8 encoding lies between the character count and four times it |
| PhpStrings.AsciiByteLength | actions/create.php:27 | for ASCII text the byte length equals the character count |
| PhpStrings.RepeatedByteLength | actions/create.php:27 | n copies of a character weigh n times its UTF-8 width |
| PhpStrings.PrefixIsContained | actions/read.php:203-208 | a name matching `LIKE 'kw%'` also matches `LIKE '%kw%'` |
| PhpStrings.StrLeReflexive | actions/read.php:62-70 | byte-wise string order is reflexive |
| PhpStrings.StrLeTotal | actions/read.php:62-70 | byte-wise string order is total |
| PhpStrings.StrLeAntisymmetric | actions/read.php:62-70 | byte-wise string order is antisymmetric |
| PhpStrings.StrLeTransitive | actions/read.php:62-70 | byte-wise string order is transitive |
| PhpStrings.NatToDecimal | actions/read.php:264 | the decimal rendering of a natural number is non-empty, all digits, and starts with '0' only for zero |
| PhpStrings.DecimalRoundTrip | actions/read.php:264 | reading back the decimal rendering of a natural number gives the number |
| PhpStrings.IntToDecimal | actions/read.php:264 | an int renders with a leading '-' exactly when it is negative |
| PhpStrings.IntToDecimalInjective | actions/read.php:264 | distinct day counts render as distinct strings |
| Calendar.DaysInMonth | actions/create.php:111-114 | months have 28 to 31 days, and February has 29 exactly in Gregorian leap years |
| Calendar.FormatYmd | actions/create.php:113 | `format('Y-m-d')` is ten characters with dashes at positions 4 and 7 |
| Calendar.FormatDmy | actions/read.php:275-278 | `date('d/m/Y')` is ten characters with slashes at positions 2 and 5 |
| Calendar.ParseYmdSound | actions/create.php:111-114 | whatever the strict parse accepts formats back to the very same string |
| Calendar.ParseFormatRoundTrip | actions/create.php:111-114 | every real date printed as `Y-m-d` parses back to itself |
| Calendar.ValidateDateIsRoundTrip | actions/create.php:111-114 | `validateDate(s)` holds exactly when `s` is the `Y-m-d` rendering of some real date, so "2024-02-30" and "2024-2-5" fail |
| Calendar.FormatDmyReordersYmd | actions/read.php:275-278 | the `d/m/Y` rendering is the `Y-m-d` one with day, month and year reordered |
| Calendar.DayNumberOrder | actions/create.php:47 | comparing `strtotime` values of two dates agrees with calendar order, and equal counts mean equal dates |
| FieldRules.CheckName | actions/create.php:25-29 | the name check appends its message (blank, else over 255 bytes) to the list so far |
| FieldRules.CheckPriority | actions/create.php:31-35 | the priority check appends its message (blank, else not one of the three values) to the list so far |
| FieldRules.CheckTanggal | actions/create.php:37-41 | the creation-date check appends its message (blank, else invalid) to the list so far |
| FieldRules.CheckDeadlineFormat | actions/edit.php:48-52 | edit's deadline check appends its message (blank, else invalid) to the list so far |
| FieldRules.FourFieldsInOrder | actions/create.php:23-49 | four per-field lists, concatenated in checking order, hold field messages in strictly increasing field order |
| FieldRules.FieldErrorsRanked | actions/create.php:25-49 | each field check yields at most one message, and it belongs to that field |
| FieldRules.DuplicateIsNotAField | actions/create.php:51-60 | the duplicate-name message never appears among field messages |
| FieldRules.NameErrorsCases | actions/create.php:25-29 | at most one name message; none exactly for a non-blank name of at most 255 bytes; "too long" only for a non-blank name |
| FieldRules.NameLengthCountsBytes | actions/create.php:27-28 | over 255 characters is always too long; an ASCII name is too long exactly when it has over 255 characters |
| FieldRules.NonAsciiNameTooLong | actions/create.php:27-28 | 128 copies of 'é' (256 bytes) are rejected as too long |
| FieldRules.ZeroIsMissing | actions/edit.php:30-52 | a name, priority, tanggal or deadline equal to "0" gets the "required" message |
| FieldRules.PriorityErrorsCases | actions/create.php:31-35 | a blank priority is "harus dipilih" and never "tidak valid"; exactly the three values pass |
| FieldRules.DateErrorsCases | actions/create.php:37-46 | a date field passes exactly when `validateDate` holds |
| CreateRules.CollectCreateFieldErrors | actions/create.php:23-49 | the step-by-step checks of create build exactly the four per-field lists in order, with the past-deadline rule on the deadline |
| CreateRules.CreateDeadlineErrorsCases | actions/create.php:43-49 | at most one deadline message; "kurang dari hari ini" exactly for a valid deadline before today; none exactly for a valid deadline of today or later |
| CreateRules.CreateFieldErrorsInOrder | actions/create.php:23-49 | create's messages come in the order name, priority, tanggal, deadline, one per field at most |
| CreateRules.CreateFieldErrorsEmpty | actions/create.php:23-49 | create's field checks pass exactly for an acceptable name, one of the three priorities, two valid dates and a deadline not before today |
| CreateRules.PastDeadlineOnlyWhenBeforeToday | actions/create.php:43-49 | the past-deadline message appears exactly for a valid deadline strictly before today; today's date is accepted |
| CreateRules.CreateErrorsSpec | actions/create.php:51-61 | create's list is empty exactly for acceptable input with no open task of that name; the duplicate message appears exactly when the input is otherwise acceptable |
| CreateRules.DoneTasksDoNotBlockNames | actions/create.php:55-60 | when every task with the name is done, create never reports a duplicate |
| CreateRules.NewTaskSpec | actions/create.php:74-79 | the inserted row is well formed and `belum selesai`, its DATE values print back as the submitted strings, and its deadline is not before today |
| EditRules.CollectEditFieldErrors | actions/edit.php:24-52 | the step-by-step checks of edit build the id message followed by the four per-field lists, with no past-deadline rule |
| EditRules.EditDuplicates | actions/edit.php:73-79 | edit's duplicate query finds exactly the other tasks with that name whose status is not `selesai` |
| EditRules.SplitFlashes | actions/edit.php:142-162 | an array becomes one flash per element, in order, all of one type |
| EditRules.EditFieldErrorsInOrder | actions/edit.php:24-52 | edit's messages come in the order id, name, priority, tanggal, deadline, one per check at most |
| EditRules.InvalidIdDoesNotStopChecks | actions/edit.php:26-34 | a bad id adds "ID tugas tidak valid" in front of exactly the messages a valid id would get |
| EditRules.EditFieldErrorsEmpty | actions/edit.php:24-60 | edit's checks pass exactly for a positive id, an acceptable name, one of the three priorities and two valid dates |
| EditRules.EditIsCreateWithoutPastRule | actions/edit.php:30-52 | edit never reports a past deadline; for a valid id, create's list is edit's list plus the past-deadline message exactly when the deadline is a valid day before today |
| EditRules.KeepingOwnNameIsNoDuplicate | actions/edit.php:73-84 | when open names are unique, keeping an open task's own name is never a duplicate |
| EditRules.EditLogDetailIffRenamed | actions/edit.php:100-114 | `UPDATE` is logged first, and `UPDATE_DETAIL` is logged exactly when the name changed |
| EditRules.SplitFlashesAppend | actions/edit.php:147-154 | pushing the elements one at a time appends their flashes in order |
| EditRules.RedirectStaysOnHost | actions/edit.php:164-176 | the redirect target is the referrer when it names no host or the current one, otherwise `../home.php`; it never names another host |
| ToggleRules.SetStatus | actions/toggle_status.php:47-53 | the status update changes that row's status only; the keys and every other row stay |
| ToggleRules.FlipIsInvolution | actions/toggle_status.php:27 | the new status is always the other valid status, and flipping twice returns the original |
| ToggleRules.InputErrorStopsAtFirst | actions/toggle_status.php:19-25 | a bad id is reported before a bad status; the input passes exactly for a positive id and one of the two statuses |
| ToggleRules.ToggleErrorNoneIff | actions/toggle_status.php:19-42 | a toggle goes ahead exactly when the input is valid, the row exists and still has the submitted status; the conflict is raised exactly when the stored status differs |
| ToggleRules.SecondToggleConflicts | actions/toggle_status.php:40-53 | after a successful toggle, the same request again meets the "sudah berubah" conflict |
| ToggleRules.OnTimeIffNotBeforeToday | actions/toggle_status.php:63-64 | completion is on time exactly when the deadline is not before today; a deadline of today is on time |
| ToggleRules.ToggleFlashesSpec | actions/toggle_status.php:59-76 | completing queues the success flash, followed by a warning exactly when late; reopening queues one `info` flash and never a warning |
| ToggleRules.ToggleLogSpec | actions/toggle_status.php:63-76 | the log line is `COMPLETE` with "terlambat" or "tepat waktu" by the deadline, or `REOPEN` |
| ToggleRules.ReopenCanDuplicateOpenNames | actions/toggle_status.php:72-76 | reopening does not check names: two open tasks can end up sharing one |
| DeleteRules.DeleteErrorCases | actions/delete.php:20-37 | delete goes ahead exactly for a positive id that exists; otherwise it fails with the invalid-id or not-found message |
| DeleteRules.BackupRoundTrip | actions/delete.php:47-52 | the backup row keeps the id and every column of the task as it was |
| DeleteRules.DeleteLogRecordsStatus | actions/delete.php:74 | the delete log line determines the task's prior status |
| Store.TaskStore.InsertRow | actions/create.php:74-79 | the insert stores the row under the auto-increment key, which was free and then advances; nothing else changes |
| Store.TaskStore.UpdateRow | actions/edit.php:86-92 | the update replaces one existing row; nothing else changes |
| Store.TaskStore.PushFlash | actions/create.php:116-126 | `setSessionMessage` appends exactly one entry, whatever its text |
| Store.TaskStore.PushFlashes | actions/edit.php:142-162 | the loop over an array appends one flash per element, in order |
| Store.TaskStore.TakeMessages | home.php:10-14 | reading the session messages returns the queue and empties it |
| Store.TaskStore.Create | actions/create.php:14-92 | a non-POST fails and changes nothing; otherwise, on errors one flash holds the whole list and the table is unchanged; on success exactly one `belum selesai` row is added under the counter, with the success flash and the `CREATE` line; unique open names stay unique |
| Store.TaskStore.CreateTrimmed | actions/create.php:23-88 | create from the trimmed name on, with the same effect on the store |
| Store.TaskStore.InsertCreated | actions/create.php:74-88 | the success path adds one row under a fresh key, queues the success flash, logs `CREATE`, and keeps open names unique |
| Store.TaskStore.Edit | actions/edit.php:14-118 | a non-POST fails; collected errors become one flash each; a missing row or a duplicate is reported alone; each failure leaves the table unchanged; success overwrites only name, priority and both dates of that row and keeps open names unique |
| Store.TaskStore.EditTrimmed | actions/edit.php:24-105 | edit from the trimmed name on, with the same effect on the store |
| Store.TaskStore.ApplyEdit | actions/edit.php:86-114 | the success path rewrites four columns of one row, keeps its status, queues the success flash and logs the rename decision |
| Store.TaskStore.Toggle | actions/toggle_status.php:12-81 | a failure (method, id, status, missing row or stale status) queues its message and changes nothing; success changes only that row's status and queues the flashes and log line of the flip |
| Store.TaskStore.ApplyToggle | actions/toggle_status.php:47-77 | the success path sets one row's status and appends the flashes and the log line for the new status |
| Store.TaskStore.DeleteTransaction | actions/delete.php:43-84 | a row is removed exactly when it exists; the backup is appended unless its insert fails; with no row, the table and backups are as before |
| Store.TaskStore.Delete | actions/delete.php:15-101 | a bad method, bad id or missing row changes nothing; success removes exactly that row, backs it up unless the backup fails, and logs its name and status; a row gone meanwhile ends in the database-error flash |
| Store.TableValidWrite | actions/create.php:74-79 | writing a well-formed row under an existing key, or under the counter while it advances, keeps keys below the counter and rows well formed |
| Store.TableValidRemove | actions/delete.php:61-62 | removing a row keeps the table valid |
| Store.InsertKeepsNamesUnique | actions/create.php:55-79 | inserting a row whose name no open task has keeps open names unique |
| Store.ReplaceKeepsNamesUnique | actions/edit.php:73-92 | rewriting a row with a name no other open task has keeps open names unique |
| Listing.OverdueByDayNumber | actions/read.php:49-54 | `is_overdue` holds exactly when the deadline's day number is before today's and the task is not done |
| Listing.ConditionsMeaning | actions/read.php:17-58 | a row passes the assembled `WHERE` exactly when it passes every given filter: status, priority, substring search, and the four deadline filters (unknown ones add nothing) |
| Listing.PriorityRank | actions/read.php:73-79 | the rank is 1 to 3 for the three priorities, and 0 (NULL, sorted first) for any other value |
| Listing.LeTotal | actions/read.php:60-81 | any two rows are comparable under every `ORDER BY` of the listing and the search |
| Listing.LeTransitive | actions/read.php:60-81 | every such order is transitive |
| Listing.Insert | actions/read.php:60-81 | inserting a row into a sorted list keeps it sorted and adds exactly that row |
| Listing.SortRows | actions/read.php:60-81 | sorting returns the same rows, each as often as before, in `ORDER BY` order |
| Listing.GetTasks | actions/read.php:12-90 | the listing holds each row passing every filter exactly once and no other row, sorted by `sort_by` (default priority, then deadline) |
| Listing.GetTasksMeaning | actions/read.php:17-58 | a task is listed exactly when it matches every given filter |
| Listing.GetTaskById | actions/read.php:102-127 | the lookup succeeds exactly for a stored id and returns that row; otherwise "Tugas tidak ditemukan" |
| Listing.GetTaskByIdIsListed | actions/read.php:102-127 | the row the lookup returns is in the unfiltered listing |
| Listing.SearchMatches | actions/read.php:196-216 | every stored row whose name contains the keyword appears exactly once and no other row does, sorted prefix-first, then by priority and deadline |
| Listing.SearchTasks | actions/read.php:194-227 | the reply is the first `limit` rows of the full search order (all of them when fewer match), each a stored row containing the keyword, with names starting with the keyword first; a negative limit fails |
| Listing.TakeKeepsOrder | actions/read.php:215 | `LIMIT` keeps a leading part of the sorted rows, still sorted |
| Listing.PrefixFirst | actions/read.php:204-208 | in the search order, names starting with the keyword all come before the others |
| Statistics.CompletionTenths | actions/read.php:176-177 | the completion percentage, rounded to the nearest tenth with halves up, lies in 0..100.0; it is 0 exactly below half a tenth, and 100.0 when all are done |
| Statistics.GetTaskStatistics | actions/read.php:138-182 | total, completed, overdue and due-today are the counts the queries take; pending is total − completed and equals the number of open tasks; `by_priority` has a key exactly for each priority of an open task, with its count; the percentage is 0 with no tasks |
| Statistics.CountsPartition | actions/read.php:142-162 | done and open tasks split the table, and overdue plus due-today never exceed the open tasks |
| Statistics.PriorityGroupBounds | actions/read.php:164-174 | a group key is the priority of some open task, and each group count is between 1 and the number of open tasks |
| TaskDisplay.FormatDate | actions/read.php:275-278 | the displayed date is ten characters |
| TaskDisplay.PriorityIcon | actions/read.php:248-253 | the grey icon is shown exactly for a value outside the three priorities |
| TaskDisplay.FormatTaskForDisplay | actions/read.php:239-273 | no row gives no result; otherwise the row is kept, both dates are the stored `Y-m-d` strings reordered as `DD/MM/YYYY`, the badge is "✅ Selesai" exactly for a done task, the grey icon appears exactly for an unknown priority, and the deadline label is the one LabelCases characterizes |
| TaskDisplay.FormatYmdInjective | actions/read.php:258 | two dates print alike as `Y-m-d` exactly when they are the same date |
| TaskDisplay.LabelCases | actions/read.php:255-270 | the label is overdue exactly for the flag; else "HARI INI" exactly for a deadline of today; else "N HARI LAGI" exactly for at most 3 days left; else empty and `normal` |
| TaskDisplay.OpenTaskSoonIsAhead | actions/read.php:255-265 | for an open task, "N HARI LAGI" always counts 1 to 3 days ahead, and "TERLAMBAT" appears exactly for a past deadline |
| TaskDisplay.DoneLateTaskShowsNegativeDays | actions/read.php:261-265 | a done task two days past its deadline is labelled "-2 HARI LAGI" with class `soon` |
| TaskDisplay.StoredTasksHaveColouredIcons | actions/read.php:248-253 | every task create or edit could store gets one of the three coloured icons |

## Left out

- PDO failures (`PDOException` from a statement, `execute()` returning false) are not modelled. Only the zero-row delete, which reaches the PDOException handler through the second `rollBack()`, ends in a database error.
- `getTasks`, `getTaskById` and `getTaskStatistics` never fail in the model, because their only failure is a PDOException.
- SQL is replaced by functions over the table:
  - `LIKE` is a plain substring test, with no `%`/`_` wildcards in the keyword;
  - there is no collation case folding; names and statuses sort byte-wise.
- Listing.GetTasks: rows with equal sort keys come in an unspecified order, as SQL leaves it.
- Listing.SearchTasks: the default `$limit = 10` of `searchTasks` is not modelled; the limit is always given.
- Listing.SearchTasks: a negative `LIMIT` is modelled as a failed statement whose driver message is not modelled.
- The clock is a parameter. `strtotime`, time zones and daylight saving are not modelled:
  - `days_left` (a float division by 86400) is a difference of day numbers;
  - `date('Y-m-d')` is the `today` parameter.
- Statistics.CompletionTenths: the float `round(…, 1)` is modelled as exact integer tenths of a percent, so float rounding error is not modelled.
- Strings are sequences of Unicode characters, while PHP strings are byte strings: a name that is not valid UTF-8 cannot be represented.
- `intval` parsing of the posted id is not modelled; the id arrives as an integer. A missing `$_POST` field arrives as "".
- The request method is a boolean `isPost`.
- `redirectBack`: `parse_url` is abstracted as a function giving the URL's host, if any. The `Location` header and `exit` are not modelled.
- The `time` of a flash and the activity log's timestamp, IP address and user agent are left out. `error_log` and the log file's creation are left out.
- The `deleted_at` and `deleted_by_ip` columns of the backup row and the `created_at`/`updated_at` columns are left out.
- The JSON replies (and the action dispatcher at the end of actions/read.php) are not modelled.
- Toggle's `rowCount() > 0` failure branch is not modelled. After the stale-status check the update always changes a row, so it cannot be reached without a concurrent request.
- Concurrency and transaction isolation are not modelled. The one concurrent event delete handles, a row removed between lookup and DELETE, is a parameter.
- The `isset` tests on the filters are not modelled: a missing filter is the empty string.
- register.php (an `md5` password check), config/database.php (the connection singleton) and assets/js/main.js (browser-side rendering and validation) are not part of this model. home.php is not part of this model except for draining the flash queue.
