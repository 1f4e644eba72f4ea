/**
 * The decisions of actions/create.php that do not touch state: the field
 * checks with the create-only past-deadline rule, the duplicate-name gate
 * that runs only when the fields are clean, and the row it inserts.
 */
module CreateRules {
  import opened Wrappers
  import opened PhpStrings
  import opened Calendar
  import opened Tasks
  import opened FieldRules

  const CreatedMessage := "Tugas berhasil ditambahkan!"

  /** The deadline on create: blank, else malformed, else strictly before today. */
  function CreateDeadlineErrors(deadline: string, today: CalendarDate): seq<string> {
    if DeadlineFormatErrors(deadline) != [] then DeadlineFormatErrors(deadline)
    else if DayNumber(ParseYmd(deadline).value) < DayNumber(today) then [DeadlinePast]
    else []
  }

  /** `$errors` after the four field checks of create.php, in checking order. */
  function CreateFieldErrors(name: string, priority: string, tanggal: string, deadline: string, today: CalendarDate): seq<string> {
    NameErrors(name) + PriorityErrors(priority) + TanggalErrors(tanggal) + CreateDeadlineErrors(deadline, today)
  }

  /** `$errors` after the duplicate query, which runs only when the field checks found nothing. */
  function CreateErrors(tasks: map<int, Task>, name: string, priority: string, tanggal: string, deadline: string, today: CalendarDate): seq<string> {
    var fieldErrors := CreateFieldErrors(name, priority, tanggal, deadline, today);
    if fieldErrors == [] && ActiveWithName(tasks, name) != {} then [Duplicate] else fieldErrors
  }

  /** The checks of create.php as written: `$errors` grows one field at a time. */
  method CollectCreateFieldErrors(name: string, priority: string, tanggal: string, deadline: string, today: CalendarDate)
    returns (errors: seq<string>)
    ensures errors == CreateFieldErrors(name, priority, tanggal, deadline, today)
  {
    errors := CheckName([], name);
    errors := CheckPriority(errors, priority);
    errors := CheckTanggal(errors, tanggal);
    ghost var checked := errors;
    if IsEmpty(deadline) {
      errors := errors + [DeadlineMissing];
    } else if !ValidateDate(deadline) {
      errors := errors + [DeadlineInvalid];
    } else if DayNumber(ParseYmd(deadline).value) < DayNumber(today) {
      errors := errors + [DeadlinePast];
    }
    assert errors == checked + CreateDeadlineErrors(deadline, today);
  }

  /** The input create accepts, stated without the error list: today or a later day is a valid deadline. */
  predicate AcceptableForCreate(name: string, priority: string, tanggal: string, deadline: string, today: CalendarDate) {
    && AcceptableName(name)
    && IsPriority(priority)
    && ValidateDate(tanggal)
    && ValidateDate(deadline)
    && !Before(ParseYmd(deadline).value, today)
  }

  /** The row create.php inserts: status `belum selesai`, dates as parsed. */
  function NewTask(name: string, priority: string, tanggal: string, deadline: string): Task
    requires ValidateDate(tanggal) && ValidateDate(deadline)
  {
    Task(name, Pending, priority, ParseYmd(tanggal).value, ParseYmd(deadline).value)
  }

  function CreateLog(name: string): LogEntry {
    LogEntry("CREATE", Quoted(name) + " berhasil dibuat")
  }

  lemma CreateDeadlineErrorsCases(deadline: string, today: CalendarDate)
    ensures |CreateDeadlineErrors(deadline, today)| <= 1
    ensures CreateDeadlineErrors(deadline, today) == [DeadlinePast]
            <==> ValidateDate(deadline) && Before(ParseYmd(deadline).value, today)
    ensures CreateDeadlineErrors(deadline, today) == []
            <==> ValidateDate(deadline) && !Before(ParseYmd(deadline).value, today)
  {
    DateErrorsCases(deadline);
    if ValidateDate(deadline) {
      DayNumberOrder(ParseYmd(deadline).value, today);
    }
  }

  /** The field errors of create come in checking order (name, priority, tanggal, deadline), one per field at most. */
  lemma CreateFieldErrorsInOrder(name: string, priority: string, tanggal: string, deadline: string, today: CalendarDate)
    ensures InFieldOrder(CreateFieldErrors(name, priority, tanggal, deadline, today))
  {
    FieldErrorsRanked(name, priority, tanggal, deadline);
    FieldRanks();
    FourFieldsInOrder(NameErrors(name), PriorityErrors(priority), TanggalErrors(tanggal), CreateDeadlineErrors(deadline, today));
  }

  /** Create's field checks pass exactly when the input is acceptable. */
  lemma CreateFieldErrorsEmpty(name: string, priority: string, tanggal: string, deadline: string, today: CalendarDate)
    ensures CreateFieldErrors(name, priority, tanggal, deadline, today) == []
            <==> AcceptableForCreate(name, priority, tanggal, deadline, today)
  {
    NameErrorsCases(name);
    PriorityErrorsCases(priority);
    DateErrorsCases(tanggal);
    CreateDeadlineErrorsCases(deadline, today);
  }

  /**
   * The past-deadline error appears only for a well-formed deadline strictly
   * before today; a deadline equal to today is accepted.
   */
  lemma PastDeadlineOnlyWhenBeforeToday(name: string, priority: string, tanggal: string, deadline: string, today: CalendarDate)
    ensures DeadlinePast in CreateFieldErrors(name, priority, tanggal, deadline, today)
            <==> ValidateDate(deadline) && Before(ParseYmd(deadline).value, today)
    ensures deadline == FormatYmd(today) ==> DeadlinePast !in CreateFieldErrors(name, priority, tanggal, deadline, today)
  {
    CreateDeadlineErrorsCases(deadline, today);
    NameErrorsCases(name);
    PriorityErrorsCases(priority);
    FieldRanks();
    var abc := NameErrors(name) + PriorityErrors(priority) + TanggalErrors(tanggal);
    assert DeadlinePast !in abc;
    assert DeadlinePast in CreateFieldErrors(name, priority, tanggal, deadline, today)
           <==> DeadlinePast in CreateDeadlineErrors(deadline, today);
    if deadline == FormatYmd(today) {
      ParseFormatRoundTrip(today);
    }
  }

  /**
   * Create's error list is empty exactly when the input is acceptable and no
   * open task has the name; the duplicate message is reported only for
   * otherwise acceptable input, and then alone.
   */
  lemma CreateErrorsSpec(tasks: map<int, Task>, name: string, priority: string, tanggal: string, deadline: string, today: CalendarDate)
    ensures CreateErrors(tasks, name, priority, tanggal, deadline, today) == []
            <==> AcceptableForCreate(name, priority, tanggal, deadline, today) && ActiveWithName(tasks, name) == {}
    ensures Duplicate in CreateErrors(tasks, name, priority, tanggal, deadline, today)
            <==> AcceptableForCreate(name, priority, tanggal, deadline, today) && ActiveWithName(tasks, name) != {}
  {
    CreateFieldErrorsInOrder(name, priority, tanggal, deadline, today);
    CreateFieldErrorsEmpty(name, priority, tanggal, deadline, today);
    DuplicateIsNotAField(CreateFieldErrors(name, priority, tanggal, deadline, today));
  }

  /** A done task never blocks reusing its name. */
  lemma DoneTasksDoNotBlockNames(tasks: map<int, Task>, name: string, priority: string, tanggal: string, deadline: string, today: CalendarDate)
    requires forall id :: id in tasks && tasks[id].name == name ==> tasks[id].status == Done
    ensures Duplicate !in CreateErrors(tasks, name, priority, tanggal, deadline, today)
  {
    CreateErrorsSpec(tasks, name, priority, tanggal, deadline, today);
    var ids := ActiveWithName(tasks, name);
    assert forall id :: id !in ids;
    assert ids == {};
  }

  /** The inserted row is well formed and its DATE values print back as the submitted strings. */
  lemma NewTaskSpec(rawName: string, priority: string, tanggal: string, deadline: string, today: CalendarDate)
    requires CreateFieldErrors(Trim(rawName), priority, tanggal, deadline, today) == []
    ensures ValidateDate(tanggal) && ValidateDate(deadline)
    ensures var t := NewTask(Trim(rawName), priority, tanggal, deadline);
            && WellFormed(t) && t.status == Pending
            && FormatYmd(t.tanggal) == tanggal && FormatYmd(t.deadline) == deadline
            && !Before(t.deadline, today)
  {
    CreateFieldErrorsEmpty(Trim(rawName), priority, tanggal, deadline, today);
    TrimFixesTrimmed(rawName);
    ParseYmdSound(tanggal);
    ParseYmdSound(deadline);
  }
}
