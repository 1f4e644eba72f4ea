/**
 * The state the request handlers change: the `tasks` table with its
 * auto-increment counter, the `deleted_tasks` backups, the session flash
 * queue and the activity log. Each handler is a method that checks its
 * input step by step and then updates the store in place.
 */
module Store {
  import opened Wrappers
  import opened PhpStrings
  import opened Calendar
  import opened Tasks
  import opened FieldRules
  import opened CreateRules
  import opened EditRules
  import opened ToggleRules
  import opened DeleteRules

  class TaskStore {
    var tasks: map<int, Task>
    var nextId: int
    var backups: seq<DeletedTask>
    var messages: seq<Flash>
    var log: seq<LogEntry>

    ghost predicate Valid()
      reads this
    {
      TableValid(tasks, nextId)
    }

    constructor ()
      ensures Valid()
      ensures tasks == map[] && nextId == 1 && backups == [] && messages == [] && log == []
    {
      tasks := map[];
      nextId := 1;
      backups := [];
      messages := [];
      log := [];
    }

    /** `INSERT INTO tasks`: the row goes under the auto-increment key, which then advances. */
    method InsertRow(task: Task) returns (id: int)
      requires Valid() && WellFormed(task)
      modifies this
      ensures Valid()
      ensures id == old(nextId) && id !in old(tasks)
      ensures tasks == old(tasks)[id := task] && nextId == old(nextId) + 1
      ensures backups == old(backups) && messages == old(messages) && log == old(log)
    {
      id := nextId;
      TableValidWrite(tasks, nextId, id, task);
      tasks := tasks[id := task];
      nextId := nextId + 1;
    }

    /** `UPDATE tasks SET ... WHERE id = ?` on an existing row. */
    method UpdateRow(id: int, task: Task)
      requires Valid() && id in tasks && WellFormed(task)
      modifies this
      ensures Valid()
      ensures tasks == old(tasks)[id := task]
      ensures nextId == old(nextId) && backups == old(backups) && messages == old(messages) && log == old(log)
    {
      TableValidWrite(tasks, nextId, id, task);
      tasks := tasks[id := task];
    }

    /** `setSessionMessage` of create.php and toggle_status.php: one entry, whatever the text. */
    method PushFlash(flash: Flash)
      modifies this
      ensures messages == old(messages) + [flash]
      ensures tasks == old(tasks) && nextId == old(nextId) && backups == old(backups) && log == old(log)
    {
      messages := messages + [flash];
    }

    /** `setSessionMessage` of edit.php given an array: the loop appends one entry per element. */
    method PushFlashes(texts: seq<string>, kind: string)
      modifies this
      ensures messages == old(messages) + SplitFlashes(texts, kind)
      ensures tasks == old(tasks) && nextId == old(nextId) && backups == old(backups) && log == old(log)
    {
      var k := 0;
      while k < |texts|
        invariant 0 <= k <= |texts|
        invariant messages == old(messages) + SplitFlashes(texts[..k], kind)
        invariant tasks == old(tasks) && nextId == old(nextId) && backups == old(backups) && log == old(log)
      {
        SplitFlashesAppend(texts[..k], texts[k], kind);
        assert texts[..k + 1] == texts[..k] + [texts[k]];
        messages := messages + [Flash(One(texts[k]), kind)];
        k := k + 1;
      }
      assert texts[..k] == texts;
    }

    /** `getSessionMessages` of home.php: read the queue and clear it. */
    method TakeMessages() returns (taken: seq<Flash>)
      modifies this
      ensures taken == old(messages) && messages == []
      ensures tasks == old(tasks) && nextId == old(nextId) && backups == old(backups) && log == old(log)
    {
      taken := messages;
      messages := [];
    }

    /**
     * actions/create.php. Errors are collected field by field; with none,
     * the open-name query decides; then one row is inserted as "belum
     * selesai" under the next key.
     */
    method Create(isPost: bool, rawName: string, priority: string, tanggal: string, deadline: string, today: CalendarDate)
      returns (outcome: Outcome)
      requires Valid()
      modifies this
      ensures Valid()
      ensures !isPost ==>
        && outcome == Failed(MethodNotAllowed)
        && tasks == old(tasks) && nextId == old(nextId) && log == old(log)
        && messages == old(messages) + [Flash(One(MethodNotAllowed), "error")]
      ensures isPost ==>
        CreateEffect(old(tasks), old(nextId), old(messages), old(log), Trim(rawName), priority, tanggal, deadline, today,
                     tasks, nextId, messages, log, outcome)
      ensures backups == old(backups)
      ensures ActiveNamesUnique(old(tasks)) ==> ActiveNamesUnique(tasks)
    {
      if !isPost {
        PushFlash(Flash(One(MethodNotAllowed), "error"));
        return Failed(MethodNotAllowed);
      }
      TrimFixesTrimmed(rawName);
      outcome := CreateTrimmed(Trim(rawName), priority, tanggal, deadline, today);
    }

    /** create.php from the trimmed name on. */
    method CreateTrimmed(name: string, priority: string, tanggal: string, deadline: string, today: CalendarDate)
      returns (outcome: Outcome)
      requires Valid() && IsTrimmed(name)
      modifies this
      ensures Valid()
      ensures CreateEffect(old(tasks), old(nextId), old(messages), old(log), name, priority, tanggal, deadline, today,
                           tasks, nextId, messages, log, outcome)
      ensures backups == old(backups)
      ensures ActiveNamesUnique(old(tasks)) ==> ActiveNamesUnique(tasks)
    {
      var errors := CollectCreateFieldErrors(name, priority, tanggal, deadline, today);
      if errors == [] && |ActiveWithName(tasks, name)| > 0 {
        errors := errors + [Duplicate];
      }
      assert errors == CreateErrors(tasks, name, priority, tanggal, deadline, today);
      if errors != [] {
        PushFlash(Flash(Many(errors), "error"));
        return Invalid(errors);
      }
      TrimFixesTrimmed(name);
      NewTaskSpec(name, priority, tanggal, deadline, today);
      var id := InsertCreated(NewTask(name, priority, tanggal, deadline));
      outcome := Created(id);
    }

    /** The success path of create.php: insert the row, queue the success flash, log `CREATE`. */
    method InsertCreated(task: Task) returns (id: int)
      requires Valid() && WellFormed(task) && IsActive(task)
      requires ActiveWithName(tasks, task.name) == {}
      modifies this
      ensures Valid()
      ensures id == old(nextId) && id !in old(tasks)
      ensures tasks == old(tasks)[id := task] && nextId == old(nextId) + 1
      ensures messages == old(messages) + [Flash(One(CreatedMessage), "success")]
      ensures log == old(log) + [CreateLog(task.name)]
      ensures backups == old(backups)
      ensures ActiveNamesUnique(old(tasks)) ==> ActiveNamesUnique(tasks)
    {
      id := InsertRow(task);
      PushFlash(Flash(One(CreatedMessage), "success"));
      log := log + [CreateLog(task.name)];
      InsertKeepsNamesUnique(old(tasks), id, task);
    }

    /**
     * actions/edit.php. The id and field errors are collected first; then the
     * row must exist; then no other open task may carry the new name; then
     * name, priority and both dates are overwritten.
     */
    method Edit(isPost: bool, id: int, rawName: string, priority: string, tanggal: string, deadline: string)
      returns (outcome: Outcome)
      requires Valid()
      modifies this
      ensures Valid()
      ensures !isPost ==>
        && outcome == Failed(MethodNotAllowed)
        && tasks == old(tasks) && log == old(log)
        && messages == old(messages) + [Flash(One(MethodNotAllowed), "error")]
      ensures isPost ==>
        EditEffect(old(tasks), old(messages), old(log), id, Trim(rawName), priority, tanggal, deadline, tasks, messages, log, outcome)
      ensures nextId == old(nextId) && backups == old(backups)
      ensures ActiveNamesUnique(old(tasks)) ==> ActiveNamesUnique(tasks)
    {
      if !isPost {
        PushFlash(Flash(One(MethodNotAllowed), "error"));
        return Failed(MethodNotAllowed);
      }
      TrimFixesTrimmed(rawName);
      outcome := EditTrimmed(id, Trim(rawName), priority, tanggal, deadline);
    }

    /** edit.php from the trimmed name on. */
    method EditTrimmed(id: int, name: string, priority: string, tanggal: string, deadline: string)
      returns (outcome: Outcome)
      requires Valid() && IsTrimmed(name)
      modifies this
      ensures Valid()
      ensures EditEffect(old(tasks), old(messages), old(log), id, name, priority, tanggal, deadline, tasks, messages, log, outcome)
      ensures nextId == old(nextId) && backups == old(backups)
      ensures ActiveNamesUnique(old(tasks)) ==> ActiveNamesUnique(tasks)
    {
      var errors := CollectEditFieldErrors(id, name, priority, tanggal, deadline);
      if errors != [] {
        PushFlashes(errors, "error");
        return Invalid(errors);
      }
      if id !in tasks {
        PushFlash(Flash(One(NotFound), "error"));
        return Failed(NotFound);
      }
      if |EditDuplicates(tasks, id, name)| > 0 {
        errors := errors + [Duplicate];
        PushFlashes(errors, "error");
        return Invalid(errors);
      }
      EditFieldErrorsEmpty(id, name, priority, tanggal, deadline);
      ApplyEdit(id, name, priority, tanggal, deadline);
      outcome := Updated;
    }

    /** The success path of edit.php: overwrite the four columns, queue the success flash, log the update. */
    method ApplyEdit(id: int, name: string, priority: string, tanggal: string, deadline: string)
      requires Valid() && id in tasks
      requires AcceptableName(name) && IsTrimmed(name) && IsPriority(priority)
      requires ValidateDate(tanggal) && ValidateDate(deadline)
      requires EditDuplicates(tasks, id, name) == {}
      modifies this
      ensures Valid()
      ensures tasks == old(tasks)[id := old(tasks)[id].(name := name, priority := priority,
                                                       tanggal := ParseYmd(tanggal).value, deadline := ParseYmd(deadline).value)]
      ensures messages == old(messages) + [Flash(One(UpdatedMessage), "success")]
      ensures log == old(log) + EditLog(old(tasks)[id].name, name)
      ensures nextId == old(nextId) && backups == old(backups)
      ensures ActiveNamesUnique(old(tasks)) ==> ActiveNamesUnique(tasks)
    {
      var existing := tasks[id];
      assert WellFormed(existing);
      var updated := existing.(name := name, priority := priority,
                               tanggal := ParseYmd(tanggal).value, deadline := ParseYmd(deadline).value);
      UpdateRow(id, updated);
      PushFlash(Flash(One(UpdatedMessage), "success"));
      log := log + EditLog(existing.name, name);
      ReplaceKeepsNamesUnique(old(tasks), id, updated);
    }

    /**
     * actions/toggle_status.php. The input guards and the row lookup stop at
     * the first failure; a row whose status is no longer the one the page
     * showed is a conflict; otherwise only its status flips.
     */
    method Toggle(isPost: bool, id: int, currentStatus: string, today: CalendarDate)
      returns (outcome: Outcome)
      requires Valid()
      modifies this
      ensures Valid()
      ensures !isPost ==>
        && outcome == Failed(MethodNotAllowed)
        && tasks == old(tasks) && log == old(log)
        && messages == old(messages) + [Flash(One(MethodNotAllowed), "error")]
      ensures isPost ==>
        match ToggleError(old(tasks), id, currentStatus)
        case Some(error) =>
          && outcome == Failed(error)
          && tasks == old(tasks) && log == old(log)
          && messages == old(messages) + [Flash(One(error), "error")]
        case None =>
          var task := old(tasks)[id];
          && outcome == Toggled(Flip(currentStatus))
          && tasks == SetStatus(old(tasks), id, Flip(currentStatus))
          && messages == old(messages) + ToggleFlashes(Flip(currentStatus), task.deadline, today)
          && log == old(log) + [ToggleLog(task.name, Flip(currentStatus), task.deadline, today)]
      ensures nextId == old(nextId) && backups == old(backups)
    {
      if !isPost {
        PushFlash(Flash(One(MethodNotAllowed), "error"));
        return Failed(MethodNotAllowed);
      }
      if id <= 0 {
        PushFlash(Flash(One(InvalidId), "error"));
        return Failed(InvalidId);
      }
      if !IsStatus(currentStatus) {
        PushFlash(Flash(One(InvalidStatus), "error"));
        return Failed(InvalidStatus);
      }
      var newStatus := if currentStatus == Done then Pending else Done;
      if id !in tasks {
        PushFlash(Flash(One(NotFound), "error"));
        return Failed(NotFound);
      }
      if tasks[id].status != currentStatus {
        PushFlash(Flash(One(StatusChanged), "error"));
        return Failed(StatusChanged);
      }
      ApplyToggle(id, newStatus, today);
      outcome := Toggled(newStatus);
    }

    /** The success path of toggle_status.php: flip the status, queue the flashes, log the change. */
    method ApplyToggle(id: int, newStatus: string, today: CalendarDate)
      requires Valid() && id in tasks && IsStatus(newStatus)
      modifies this
      ensures Valid()
      ensures var task := old(tasks)[id];
        && tasks == SetStatus(old(tasks), id, newStatus)
        && messages == old(messages) + ToggleFlashes(newStatus, task.deadline, today)
        && log == old(log) + [ToggleLog(task.name, newStatus, task.deadline, today)]
      ensures nextId == old(nextId) && backups == old(backups)
    {
      var task := tasks[id];
      assert WellFormed(task);
      UpdateRow(id, task.(status := newStatus));
      if newStatus == Done {
        PushFlash(Flash(One(CompletedMessage), "success"));
        log := log + [ToggleLog(task.name, newStatus, task.deadline, today)];
        if !IsOnTime(task.deadline, today) {
          PushFlash(Flash(One(LateWarning(task.deadline)), "warning"));
        }
      } else {
        PushFlash(Flash(One(ReopenedMessage), "info"));
        log := log + [ToggleLog(task.name, newStatus, task.deadline, today)];
      }
    }

    /**
     * The transaction of actions/delete.php: back the row up (a failing
     * backup insert is swallowed), delete it, and commit when a row went, or
     * roll back to the state at the start otherwise.
     */
    method DeleteTransaction(id: int, backupFails: bool) returns (removed: bool)
      requires Valid()
      modifies this
      ensures Valid()
      ensures removed <==> id in old(tasks)
      ensures removed ==>
        && tasks == old(tasks) - {id}
        && backups == old(backups) + (if backupFails then [] else [BackupOf(id, old(tasks)[id])])
      ensures !removed ==> tasks == old(tasks) && backups == old(backups)
      ensures nextId == old(nextId) && messages == old(messages) && log == old(log)
    {
      var savedTasks, savedBackups := tasks, backups;
      if !backupFails && id in tasks {
        backups := backups + [BackupOf(id, tasks[id])];
      }
      var rowCount := if id in tasks then 1 else 0;
      tasks := tasks - {id};
      removed := rowCount > 0;
      if !removed {
        tasks, backups := savedTasks, savedBackups;
      }
    }

    /**
     * actions/delete.php. `removedMeanwhile` stands for another request
     * deleting the row between this one's lookup and its DELETE, the only
     * way the DELETE can find no row; the rollback then leaves everything as
     * the transaction found it and the database-error flash is queued.
     */
    method Delete(isPost: bool, id: int, backupFails: bool, removedMeanwhile: bool)
      returns (outcome: Outcome)
      requires Valid()
      modifies this
      ensures Valid()
      ensures !isPost ==>
        && outcome == Failed(MethodNotAllowed)
        && tasks == old(tasks) && backups == old(backups) && log == old(log)
        && messages == old(messages) + [Flash(One(MethodNotAllowed), "error")]
      ensures isPost ==>
        match DeleteError(old(tasks), id)
        case Some(error) =>
          && outcome == Failed(error)
          && tasks == old(tasks) && backups == old(backups) && log == old(log)
          && messages == old(messages) + [Flash(One(error), "error")]
        case None =>
          if removedMeanwhile then
            && outcome == DatabaseError
            && tasks == old(tasks) - {id} && backups == old(backups) && log == old(log)
            && messages == old(messages) + [Flash(One(DeleteDatabaseFailure), "error")]
          else
            && outcome == Deleted
            && tasks == old(tasks) - {id}
            && backups == old(backups) + (if backupFails then [] else [BackupOf(id, old(tasks)[id])])
            && messages == old(messages) + [Flash(One(DeletedMessage), "success")]
            && log == old(log) + [DeleteLog(old(tasks)[id])]
      ensures nextId == old(nextId)
      ensures ActiveNamesUnique(old(tasks)) ==> ActiveNamesUnique(tasks)
    {
      if !isPost {
        PushFlash(Flash(One(MethodNotAllowed), "error"));
        return Failed(MethodNotAllowed);
      }
      if id <= 0 {
        PushFlash(Flash(One(InvalidId), "error"));
        return Failed(InvalidId);
      }
      if id !in tasks {
        PushFlash(Flash(One(NotFound), "error"));
        return Failed(NotFound);
      }
      var task := tasks[id];
      if removedMeanwhile {
        tasks := tasks - {id};
      }
      var removed := DeleteTransaction(id, backupFails);
      if removed {
        PushFlash(Flash(One(DeletedMessage), "success"));
        log := log + [DeleteLog(task)];
        outcome := Deleted;
      } else {
        PushFlash(Flash(One(DeleteDatabaseFailure), "error"));
        outcome := DatabaseError;
      }
    }
  }

  /**
   * What a POSTed create does to the store: on errors one flash carrying the
   * whole list and nothing else; otherwise the new row under the counter,
   * the success flash and the `CREATE` log line.
   */
  ghost predicate CreateEffect(tasks: map<int, Task>, nextId: int, messages: seq<Flash>, log: seq<LogEntry>,
                               name: string, priority: string, tanggal: string, deadline: string, today: CalendarDate,
                               tasks': map<int, Task>, nextId': int, messages': seq<Flash>, log': seq<LogEntry>, outcome: Outcome)
  {
    var errors := CreateErrors(tasks, name, priority, tanggal, deadline, today);
    if errors != [] then
      && outcome == Invalid(errors)
      && tasks' == tasks && nextId' == nextId && log' == log
      && messages' == messages + [Flash(Many(errors), "error")]
    else
      && ValidateDate(tanggal) && ValidateDate(deadline)
      && outcome == Created(nextId)
      && nextId !in tasks
      && tasks' == tasks[nextId := NewTask(name, priority, tanggal, deadline)]
      && nextId' == nextId + 1
      && messages' == messages + [Flash(One(CreatedMessage), "success")]
      && log' == log + [CreateLog(name)]
  }

  /**
   * What a POSTed edit does to the store: the collected errors become one
   * flash each; a missing row or another open task with the name is
   * reported alone; otherwise the row's name, priority and dates are
   * overwritten, keeping its status.
   */
  ghost predicate EditEffect(tasks: map<int, Task>, messages: seq<Flash>, log: seq<LogEntry>,
                             id: int, name: string, priority: string, tanggal: string, deadline: string,
                             tasks': map<int, Task>, messages': seq<Flash>, log': seq<LogEntry>, outcome: Outcome)
  {
    var errors := EditFieldErrors(id, name, priority, tanggal, deadline);
    if errors != [] then
      && outcome == Invalid(errors)
      && tasks' == tasks && log' == log
      && messages' == messages + SplitFlashes(errors, "error")
    else if id !in tasks then
      && outcome == Failed(NotFound)
      && tasks' == tasks && log' == log
      && messages' == messages + [Flash(One(NotFound), "error")]
    else if EditDuplicates(tasks, id, name) != {} then
      && outcome == Invalid([Duplicate])
      && tasks' == tasks && log' == log
      && messages' == messages + [Flash(One(Duplicate), "error")]
    else
      && ValidateDate(tanggal) && ValidateDate(deadline)
      && outcome == Updated
      && tasks' == tasks[id := tasks[id].(name := name, priority := priority,
                                          tanggal := ParseYmd(tanggal).value, deadline := ParseYmd(deadline).value)]
      && messages' == messages + [Flash(One(UpdatedMessage), "success")]
      && log' == log + EditLog(tasks[id].name, name)
  }

  /** Keys come from the counter, and every stored row is one create or edit could have written. */
  ghost predicate TableValid(tasks: map<int, Task>, nextId: int) {
    && nextId >= 1
    && (forall id :: id in tasks ==> 1 <= id < nextId)
    && (forall id {:trigger WellFormed(tasks[id])} :: id in tasks ==> WellFormed(tasks[id]))
  }

  /** Writing a well-formed row under an existing key, or under the counter while advancing it, keeps the table valid. */
  lemma TableValidWrite(tasks: map<int, Task>, nextId: int, id: int, task: Task)
    requires TableValid(tasks, nextId) && WellFormed(task)
    ensures id in tasks ==> TableValid(tasks[id := task], nextId)
    ensures id == nextId ==> id !in tasks && TableValid(tasks[id := task], nextId + 1)
  {
  }

  /** Removing a row keeps the table valid. */
  lemma TableValidRemove(tasks: map<int, Task>, nextId: int, id: int)
    requires TableValid(tasks, nextId)
    ensures TableValid(tasks - {id}, nextId)
  {
  }

  /** Inserting an open row under a fresh key keeps open names unique when no open row has its name. */
  lemma InsertKeepsNamesUnique(tasks: map<int, Task>, id: int, task: Task)
    requires id !in tasks
    requires ActiveWithName(tasks, task.name) == {}
    ensures ActiveNamesUnique(tasks) ==> ActiveNamesUnique(tasks[id := task])
  {
    if ActiveNamesUnique(tasks) {
      var after := tasks[id := task];
      forall i, j | i in after && j in after && i != j && IsActive(after[i]) && IsActive(after[j])
        ensures after[i].name != after[j].name
      {
        if i == id {
          assert j !in ActiveWithName(tasks, task.name);
        } else if j == id {
          assert i !in ActiveWithName(tasks, task.name);
        }
      }
    }
  }

  /** Rewriting a row keeps open names unique when no other open row has its new name. */
  lemma ReplaceKeepsNamesUnique(tasks: map<int, Task>, id: int, task: Task)
    requires id in tasks
    requires EditDuplicates(tasks, id, task.name) == {}
    ensures ActiveNamesUnique(tasks) ==> ActiveNamesUnique(tasks[id := task])
  {
    if ActiveNamesUnique(tasks) {
      var after := tasks[id := task];
      forall i, j | i in after && j in after && i != j && IsActive(after[i]) && IsActive(after[j])
        ensures after[i].name != after[j].name
      {
        if i == id {
          assert j !in EditDuplicates(tasks, id, task.name);
        } else if j == id {
          assert i !in EditDuplicates(tasks, id, task.name);
        }
      }
    }
  }
}
