/**
 * The decisions of actions/edit.php that do not touch state: the id and
 * field checks (the deadline may lie in the past), the duplicate query that
 * skips the edited row, the activity-log lines, the per-element flash list
 * and the same-host guard of `redirectBack`.
 */
module EditRules {
  import opened Wrappers
  import opened PhpStrings
  import opened Calendar
  import opened Tasks
  import opened FieldRules
  import opened CreateRules

  const UpdatedMessage := "Tugas berhasil diupdate!"
  const HomeUrl := "../home.php"

  /** `$errors` after the checks of edit.php: the id first, then the four fields without the past-deadline rule. */
  function EditFieldErrors(id: int, name: string, priority: string, tanggal: string, deadline: string): seq<string> {
    (if id <= 0 then [InvalidId] else []) + (NameErrors(name) + PriorityErrors(priority) + TanggalErrors(tanggal) + DeadlineFormatErrors(deadline))
  }

  /** The checks of edit.php as written: `$errors` grows one check at a time. */
  method CollectEditFieldErrors(id: int, name: string, priority: string, tanggal: string, deadline: string)
    returns (errors: seq<string>)
    ensures errors == EditFieldErrors(id, name, priority, tanggal, deadline)
  {
    errors := [];
    if id <= 0 {
      errors := errors + [InvalidId];
    }
    ghost var idErrors := errors;
    errors := CheckName(errors, name);
    errors := CheckPriority(errors, priority);
    errors := CheckTanggal(errors, tanggal);
    errors := CheckDeadlineFormat(errors, deadline);
    ghost var n, p, t, d := NameErrors(name), PriorityErrors(priority), TanggalErrors(tanggal), DeadlineFormatErrors(deadline);
    assert errors == idErrors + n + p + t + d;
    assert idErrors + n + p + t + d == idErrors + (n + p + t + d) by {
      ConcatAssociates(idErrors, n, p, t);
      AppendAssociates(idErrors, n + p + t, d);
    }
  }

  /** The keys `SELECT COUNT(*) ... WHERE nama_tugas = ? AND id != ? AND status != 'selesai'` counts. */
  function EditDuplicates(tasks: map<int, Task>, id: int, name: string): (ids: set<int>)
    ensures forall k :: k in ids <==> k in tasks && k != id && tasks[k].name == name && IsActive(tasks[k])
  {
    ActiveWithName(tasks, name) - {id}
  }

  /** The lines edit.php logs after a successful update: `UPDATE`, then `UPDATE_DETAIL` when the name changed. */
  function EditLog(oldName: string, newName: string): seq<LogEntry> {
    if oldName != newName then
      [LogEntry("UPDATE", Quoted(oldName) + " diupdate menjadi '" + newName + "'"),
       LogEntry("UPDATE_DETAIL", "Perubahan: Nama: '" + oldName + "' \U{2192} '" + newName + "'")]
    else
      [LogEntry("UPDATE", Quoted(newName) + " diupdate")]
  }

  /** `setSessionMessage` of edit.php given an array: one flash per element, in order, all of one type. */
  function SplitFlashes(texts: seq<string>, kind: string): (flashes: seq<Flash>)
    ensures |flashes| == |texts|
    ensures forall k :: 0 <= k < |texts| ==> flashes[k].text == One(texts[k]) && flashes[k].kind == kind
  {
    if texts == [] then [] else [Flash(One(texts[0]), kind)] + SplitFlashes(texts[1..], kind)
  }

  /**
   * `redirectBack`: the referrer (or the home page when there is none),
   * replaced by the home page when `hostOf` (the `host` part of `parse_url`)
   * names a host other than the current one.
   */
  function RedirectTarget(referer: Option<string>, currentHost: string, hostOf: string -> Option<string>): string {
    var url := if referer.Some? then referer.value else HomeUrl;
    if hostOf(url).Some? && hostOf(url).value != currentHost then HomeUrl else url
  }

  /** The edit checks come in order: the id, then name, priority, tanggal, deadline; one per field at most. */
  lemma EditFieldErrorsInOrder(id: int, name: string, priority: string, tanggal: string, deadline: string)
    ensures InFieldOrder(EditFieldErrors(id, name, priority, tanggal, deadline))
  {
    FieldErrorsRanked(name, priority, tanggal, deadline);
    FieldRanks();
    FourFieldsInOrder(NameErrors(name), PriorityErrors(priority), TanggalErrors(tanggal), DeadlineFormatErrors(deadline));
    PrependField(if id <= 0 then [InvalidId] else [], 0,
                 NameErrors(name) + PriorityErrors(priority) + TanggalErrors(tanggal) + DeadlineFormatErrors(deadline));
  }

  /**
   * A bad id is reported first and does not stop the field checks: the list
   * is "ID tugas tidak valid" followed by exactly what a valid id would get.
   */
  lemma InvalidIdDoesNotStopChecks(id: int, name: string, priority: string, tanggal: string, deadline: string)
    requires id <= 0
    ensures EditFieldErrors(id, name, priority, tanggal, deadline) == [InvalidId] + EditFieldErrors(1, name, priority, tanggal, deadline)
  {
  }

  /** Edit's checks pass exactly for a positive id and fields that create would accept apart from the deadline's day. */
  lemma EditFieldErrorsEmpty(id: int, name: string, priority: string, tanggal: string, deadline: string)
    ensures EditFieldErrors(id, name, priority, tanggal, deadline) == []
            <==> id > 0 && AcceptableName(name) && IsPriority(priority) && ValidateDate(tanggal) && ValidateDate(deadline)
  {
    NameErrorsCases(name);
    PriorityErrorsCases(priority);
    DateErrorsCases(tanggal);
    DateErrorsCases(deadline);
  }

  /**
   * Edit runs create's checks minus the past-deadline rule: for a valid id,
   * create's list is edit's list with "Deadline tidak boleh kurang dari hari
   * ini" appended exactly when the deadline is a valid day before today, and
   * edit itself never reports it.
   */
  lemma EditIsCreateWithoutPastRule(id: int, name: string, priority: string, tanggal: string, deadline: string, today: CalendarDate)
    ensures DeadlinePast !in EditFieldErrors(id, name, priority, tanggal, deadline)
    ensures id > 0 ==>
      CreateFieldErrors(name, priority, tanggal, deadline, today)
      == EditFieldErrors(id, name, priority, tanggal, deadline)
         + (if ValidateDate(deadline) && Before(ParseYmd(deadline).value, today) then [DeadlinePast] else [])
  {
    var n, p, t := NameErrors(name), PriorityErrors(priority), TanggalErrors(tanggal);
    var d := DeadlineFormatErrors(deadline);
    var past := if ValidateDate(deadline) && Before(ParseYmd(deadline).value, today) then [DeadlinePast] else [];
    assert CreateDeadlineErrors(deadline, today) == d + past by {
      CreateDeadlineErrorsCases(deadline, today);
      DateErrorsCases(deadline);
    }
    assert DeadlinePast !in EditFieldErrors(id, name, priority, tanggal, deadline) by {
      EditFieldErrorsInOrder(id, name, priority, tanggal, deadline);
      FieldRanks();
    }
    if id > 0 {
      assert EditFieldErrors(id, name, priority, tanggal, deadline) == n + p + t + d by {
        ConcatAssociates(n, p, t, d);
      }
      AppendAssociates(n + p + t, d, past);
    }
  }

  /**
   * The duplicate query skips the edited row and every done task; in a table
   * whose open names are unique, keeping an open task's current name never
   * counts as a duplicate.
   */
  lemma KeepingOwnNameIsNoDuplicate(tasks: map<int, Task>, id: int)
    requires ActiveNamesUnique(tasks)
    requires id in tasks && IsActive(tasks[id])
    ensures EditDuplicates(tasks, id, tasks[id].name) == {}
  {
    var dups := EditDuplicates(tasks, id, tasks[id].name);
    assert forall k :: k !in dups;
  }

  /** An `UPDATE_DETAIL` line is logged if and only if the name changed; the `UPDATE` line always comes first. */
  lemma EditLogDetailIffRenamed(oldName: string, newName: string)
    ensures |EditLog(oldName, newName)| >= 1 && EditLog(oldName, newName)[0].action == "UPDATE"
    ensures (exists k :: 0 <= k < |EditLog(oldName, newName)| && EditLog(oldName, newName)[k].action == "UPDATE_DETAIL")
            <==> oldName != newName
  {
    var log := EditLog(oldName, newName);
    if oldName != newName {
      assert log[1].action == "UPDATE_DETAIL";
    } else {
      assert "UPDATE" != "UPDATE_DETAIL";
    }
  }

  /** Splitting distributes over concatenation: pushing a list element by element appends their flashes one at a time. */
  lemma {:induction false} SplitFlashesAppend(texts: seq<string>, text: string, kind: string)
    ensures SplitFlashes(texts + [text], kind) == SplitFlashes(texts, kind) + [Flash(One(text), kind)]
  {
    if texts != [] {
      assert (texts + [text])[1..] == texts[1..] + [text];
      SplitFlashesAppend(texts[1..], text, kind);
    }
  }

  /**
   * The redirect never leaves the current host: the target is the referrer
   * when it names no host or the current one, and the home page otherwise.
   */
  lemma RedirectStaysOnHost(referer: Option<string>, currentHost: string, hostOf: string -> Option<string>)
    requires hostOf(HomeUrl).None?
    ensures var target := RedirectTarget(referer, currentHost, hostOf);
            && (hostOf(target).None? || hostOf(target) == Some(currentHost))
            && (target == HomeUrl || (referer.Some? && target == referer.value))
    ensures referer.Some? && (hostOf(referer.value).None? || hostOf(referer.value) == Some(currentHost))
            ==> RedirectTarget(referer, currentHost, hostOf) == referer.value
  {
  }
}
