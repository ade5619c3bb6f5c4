/** Importing an exported history into the stored one, and flattening the history into the
    rows of a CSV export. The imported data is untrusted: a record may lack a date, may not
    carry a task array, or may be `null`. */
module ExportImport {
  import opened Types

  // ---------------------------------------------------------------------------
  // Merging an imported history

  /** What `importedHistory[date]` is. `NullRecord` is `null` or `undefined`: reading its
      `date` throws a TypeError. Any other value is described by whether its `date` is truthy
      and, when its `tasks` is an array, by that array. */
  datatype ImportedRecord =
    | NullRecord
    | ImportedRecord(dateIsTruthy: bool, tasks: Option<seq<Task>>)

  /** One own property of the imported object, in `for...in` order. */
  datatype ImportedEntry = ImportedEntry(date: string, record: ImportedRecord)

  /** The record passes the basic validation: a truthy `date` and an array of tasks. */
  predicate IsValid(r: ImportedRecord) {
    r.ImportedRecord? && r.dateIsTruthy && r.tasks.Some?
  }

  /** `new Set(tasks.map(t => t.id))`. */
  function IdSet(tasks: seq<Task>): set<string> {
    set t | t in tasks :: t.id
  }

  /** `imported.filter(task => !ids.has(task.id))`. */
  function NewTasks(ids: set<string>, imported: seq<Task>): seq<Task> {
    if imported == [] then []
    else
      var init, last := imported[..|imported| - 1], imported[|imported| - 1];
      NewTasks(ids, init) + if last.id in ids then [] else [last]
  }

  /** The properties every plain object inherits from `Object.prototype`. Reading one of them
      from the merged history, when it has no own record under that name, gives a function (or
      the prototype itself), whose `tasks` is `undefined`. */
  const INHERITED_NAMES: set<string> := {
    "constructor", "hasOwnProperty", "isPrototypeOf", "propertyIsEnumerable", "toLocaleString",
    "toString", "valueOf", "__proto__", "__defineGetter__", "__defineSetter__",
    "__lookupGetter__", "__lookupSetter__"}

  /** The entry makes the merge throw: its value is null, or it passes validation under a date
      naming an inherited property the history has no record for, so `existingRecord.tasks.map`
      is called on `undefined`. */
  predicate Throws(h: History, e: ImportedEntry) {
    e.record.NullRecord? || (IsValid(e.record) && e.date in INHERITED_NAMES && e.date !in h)
  }

  /** The record `mergeImportedHistory` starts from for a date: the stored one, or an empty
      record dated by the key. */
  function ExistingRecord(h: History, date: string): DailyRecord {
    if date in h then h[date] else DailyRecord(date, [], 0)
  }

  /** One iteration of the loop: a null record throws; an invalid one is skipped; a valid one
      under an inherited name the history lacks throws; otherwise the tasks with new ids are
      appended to the date's record, whose total is recomputed from all its tasks, and the
      record is written only when something was added. */
  function MergeStep(h: History, e: ImportedEntry): (r: Result<History>)
    ensures r.Failure? <==> Throws(h, e)
  {
    if e.record.NullRecord? then Failure("TypeError: cannot read 'date' of null")
    else if !IsValid(e.record) then Success(h)
    else if e.date in INHERITED_NAMES && e.date !in h then Failure("TypeError: cannot read 'map' of undefined")
    else
      var existing := ExistingRecord(h, e.date);
      var added := NewTasks(IdSet(existing.tasks), e.record.tasks.value);
      if |added| > 0 then
        Success(h[e.date := existing.(tasks := existing.tasks + added, totalTime := SumElapsed(existing.tasks + added))])
      else Success(h)
  }

  /** The result of merging the entries in order; the first failure ends the merge. */
  function Merged(h: History, entries: seq<ImportedEntry>): Result<History> {
    if entries == [] then Success(h)
    else
      var prev := Merged(h, entries[..|entries| - 1]);
      if prev.Failure? then prev else MergeStep(prev.value, entries[|entries| - 1])
  }

  /** `mergeImportedHistory`: the loop over the imported dates. */
  method MergeImportedHistory(existingHistory: History, imported: seq<ImportedEntry>) returns (r: Result<History>)
    ensures r == Merged(existingHistory, imported)
  {
    var newHistory := existingHistory;
    for i := 0 to |imported|
      invariant Merged(existingHistory, imported[..i]) == Success(newHistory)
    {
      var e := imported[i];
      assert imported[..i + 1][..i] == imported[..i];
      if e.record.NullRecord? {
        MergedFailureSticks(existingHistory, imported[..i + 1], imported[i + 1..]);
        assert imported[..i + 1] + imported[i + 1..] == imported;
        return Failure("TypeError: cannot read 'date' of null");
      }
      if !e.record.dateIsTruthy || e.record.tasks.None? {
        continue;
      }
      if e.date !in newHistory && e.date in INHERITED_NAMES {
        MergedFailureSticks(existingHistory, imported[..i + 1], imported[i + 1..]);
        assert imported[..i + 1] + imported[i + 1..] == imported;
        return Failure("TypeError: cannot read 'map' of undefined");
      }
      var existingRecord := if e.date in newHistory then newHistory[e.date] else DailyRecord(e.date, [], 0);
      var existingTaskIds := set t | t in existingRecord.tasks :: t.id;
      var newTasks := NewTasks(existingTaskIds, e.record.tasks.value);
      if |newTasks| > 0 {
        var tasks := existingRecord.tasks + newTasks;
        newHistory := newHistory[e.date := DailyRecord(existingRecord.date, tasks, SumElapsed(tasks))];
      }
    }
    assert imported[..|imported|] == imported;
    r := Success(newHistory);
  }

  /** Once the merge has failed, later entries do not change the failure. */
  lemma {:induction false} MergedFailureSticks(h: History, a: seq<ImportedEntry>, b: seq<ImportedEntry>)
    requires Merged(h, a).Failure?
    ensures Merged(h, a + b) == Merged(h, a)
    decreases |b|
  {
    if b == [] {
      assert a + b == a;
    } else {
      assert (a + b)[..|a + b| - 1] == a + b[..|b| - 1];
      MergedFailureSticks(h, a, b[..|b| - 1]);
    }
  }

  /** A successful merge never adds a record under an inherited name: such a step throws. */
  lemma {:induction false} MergedInheritedAbsent(h: History, entries: seq<ImportedEntry>, d: string)
    requires Merged(h, entries).Success? && d in INHERITED_NAMES
    ensures d in Merged(h, entries).value <==> d in h
    decreases |entries|
  {
    if entries != [] {
      var init := entries[..|entries| - 1];
      MergedInheritedAbsent(h, init, d);
      MergeStepProperties(Merged(h, init).value, entries[|entries| - 1]);
    }
  }

  /** The merge throws exactly when some imported value is null, or some valid record sits under
      an inherited name the stored history has no record for. */
  lemma {:induction false} MergedFailsIff(h: History, entries: seq<ImportedEntry>)
    ensures Merged(h, entries).Failure? <==> exists k :: 0 <= k < |entries| && Throws(h, entries[k])
    decreases |entries|
  {
    if entries != [] {
      var init, last := entries[..|entries| - 1], entries[|entries| - 1];
      MergedFailsIff(h, init);
      assert forall k :: 0 <= k < |init| ==> init[k] == entries[k];
      var prev := Merged(h, init);
      if prev.Success? && last.date in INHERITED_NAMES {
        MergedInheritedAbsent(h, init, last.date);
      }
    }
  }

  /** The filter keeps, in order, exactly the imported tasks whose id is not in the set; tasks
      sharing a new id are all kept. */
  lemma {:induction false} NewTasksAppend(ids: set<string>, a: seq<Task>, b: seq<Task>)
    ensures NewTasks(ids, a + b) == NewTasks(ids, a) + NewTasks(ids, b)
    decreases |b|
  {
    if b == [] {
      assert a + b == a;
    } else {
      var init, last := b[..|b| - 1], b[|b| - 1];
      assert (a + b)[..|a + b| - 1] == a + init;
      NewTasksAppend(ids, a, init);
    }
  }

  /** Every kept task has a new id, and every imported id is afterwards either an old one or the
      id of a kept task. */
  lemma {:induction false} NewTasksIds(ids: set<string>, imported: seq<Task>)
    ensures forall i :: 0 <= i < |NewTasks(ids, imported)| ==> NewTasks(ids, imported)[i].id !in ids
    ensures IdSet(imported) <= ids + IdSet(NewTasks(ids, imported))
    decreases |imported|
  {
    if imported != [] {
      var init, last := imported[..|imported| - 1], imported[|imported| - 1];
      NewTasksIds(ids, init);
      assert imported == init + [last];
      var r := NewTasks(ids, init);
      assert NewTasks(ids, imported) == r + if last.id in ids then [] else [last];
    }
  }

  /** Nothing is added when every imported id is already there. */
  lemma {:induction false} NewTasksNone(ids: set<string>, imported: seq<Task>)
    requires IdSet(imported) <= ids
    ensures NewTasks(ids, imported) == []
    decreases |imported|
  {
    if imported != [] {
      var init, last := imported[..|imported| - 1], imported[|imported| - 1];
      assert last in imported;
      assert IdSet(init) <= IdSet(imported);
      NewTasksNone(ids, init);
    }
  }

  /** One step changes at most the entry's date; the record it writes holds the old tasks
      followed by the new ones, with the total of all of them, and keeps the old record's date
      or takes the key for a new record. */
  lemma MergeStepProperties(h: History, e: ImportedEntry)
    requires MergeStep(h, e).Success?
    ensures var r := MergeStep(h, e).value;
      && (forall d :: d != e.date ==> (d in r <==> d in h) && (d in h ==> r[d] == h[d]))
      && (r != h ==>
            (&& IsValid(e.record)
             && e.date in r
             && r[e.date].tasks == ExistingRecord(h, e.date).tasks + NewTasks(IdSet(ExistingRecord(h, e.date).tasks), e.record.tasks.value)
             && r[e.date].totalTime == SumElapsed(r[e.date].tasks)
             && r[e.date].date == ExistingRecord(h, e.date).date))
      && (e.date !in r ==> e.date !in h)
  {
  }

  /** Dates the import does not mention keep their records, and no record appears for them. */
  lemma {:induction false} MergedUntouched(h: History, entries: seq<ImportedEntry>, d: string)
    requires Merged(h, entries).Success?
    requires forall k :: 0 <= k < |entries| ==> entries[k].date != d
    ensures d in Merged(h, entries).value <==> d in h
    ensures d in h ==> Merged(h, entries).value[d] == h[d]
    decreases |entries|
  {
    if entries != [] {
      var init := entries[..|entries| - 1];
      assert forall k :: 0 <= k < |init| ==> init[k] == entries[k];
      MergedUntouched(h, init, d);
      MergeStepProperties(Merged(h, init).value, entries[|entries| - 1]);
    }
  }

  /** A merge keeps a consistent history consistent: every record it writes is filed under its
      date and totals its tasks. */
  lemma {:induction false} MergedWellFormed(h: History, entries: seq<ImportedEntry>)
    requires WellFormedHistory(h) && Merged(h, entries).Success?
    ensures WellFormedHistory(Merged(h, entries).value)
    decreases |entries|
  {
    if entries != [] {
      var init := entries[..|entries| - 1];
      MergedWellFormed(h, init);
      var prev := Merged(h, init).value;
      MergeStepProperties(prev, entries[|entries| - 1]);
    }
  }

  /** Every valid imported record's ids are, afterwards, ids of its date's record. */
  predicate Covers(h: History, entries: seq<ImportedEntry>) {
    forall k :: 0 <= k < |entries| && IsValid(entries[k].record) ==>
      IdSet(entries[k].record.tasks.value) <= IdSet(TasksOn(h, entries[k].date))
  }

  /** A step never loses an id of any date. */
  lemma MergeStepGrows(h: History, e: ImportedEntry, d: string)
    requires MergeStep(h, e).Success?
    ensures IdSet(TasksOn(h, d)) <= IdSet(TasksOn(MergeStep(h, e).value, d))
    ensures IsValid(e.record) ==> IdSet(e.record.tasks.value) <= IdSet(TasksOn(MergeStep(h, e).value, e.date))
  {
    MergeStepProperties(h, e);
    if IsValid(e.record) {
      var existing := ExistingRecord(h, e.date);
      NewTasksIds(IdSet(existing.tasks), e.record.tasks.value);
      NewTasksNoneWhenEmpty(IdSet(existing.tasks), e.record.tasks.value);
    }
  }

  /** When nothing is added, every imported id was already there. */
  lemma NewTasksNoneWhenEmpty(ids: set<string>, imported: seq<Task>)
    ensures NewTasks(ids, imported) == [] ==> IdSet(imported) <= ids
  {
    NewTasksIds(ids, imported);
  }

  /** After a merge, every valid imported record's tasks are present by id. */
  lemma {:induction false} MergedCovers(h: History, entries: seq<ImportedEntry>)
    requires Merged(h, entries).Success?
    ensures Covers(Merged(h, entries).value, entries)
    decreases |entries|
  {
    if entries != [] {
      var init, last := entries[..|entries| - 1], entries[|entries| - 1];
      MergedCovers(h, init);
      var prev := Merged(h, init).value;
      var r := Merged(h, entries).value;
      forall k | 0 <= k < |entries| && IsValid(entries[k].record)
        ensures IdSet(entries[k].record.tasks.value) <= IdSet(TasksOn(r, entries[k].date))
      {
        MergeStepGrows(prev, last, entries[k].date);
        if k < |init| {
          assert entries[k] == init[k];
        }
      }
    }
  }

  /** Merging entries that are all present already changes nothing. */
  lemma {:induction false} MergeCovered(h: History, entries: seq<ImportedEntry>)
    requires forall k :: 0 <= k < |entries| ==> !Throws(h, entries[k])
    requires Covers(h, entries)
    ensures Merged(h, entries) == Success(h)
    decreases |entries|
  {
    if entries != [] {
      var init, last := entries[..|entries| - 1], entries[|entries| - 1];
      assert forall k :: 0 <= k < |init| ==> init[k] == entries[k];
      MergeCovered(h, init);
      if IsValid(last.record) {
        var existing := ExistingRecord(h, last.date);
        assert TasksOn(h, last.date) == existing.tasks;
        NewTasksNone(IdSet(existing.tasks), last.record.tasks.value);
      }
    }
  }

  /** Importing the same data a second time adds nothing. */
  lemma MergedIdempotent(h: History, entries: seq<ImportedEntry>)
    requires Merged(h, entries).Success?
    ensures Merged(Merged(h, entries).value, entries) == Merged(h, entries)
  {
    MergedFailsIff(h, entries);
    MergedCovers(h, entries);
    var r := Merged(h, entries).value;
    forall k | 0 <= k < |entries| ensures !Throws(r, entries[k]) {
      assert !Throws(h, entries[k]);
      if entries[k].date in INHERITED_NAMES {
        MergedInheritedAbsent(h, entries, entries[k].date);
      }
    }
    MergeCovered(r, entries);
  }

  /** The filter keeps an imported list whole when none of its ids is already there, even when
      the list itself repeats an id. */
  lemma {:induction false} NewTasksAllNew(ids: set<string>, imported: seq<Task>)
    requires forall i :: 0 <= i < |imported| ==> imported[i].id !in ids
    ensures NewTasks(ids, imported) == imported
    decreases |imported|
  {
    if imported != [] {
      var init := imported[..|imported| - 1];
      NewTasksAllNew(ids, init);
      assert imported == init + [imported[|imported| - 1]];
    }
  }

  /** Two imported tasks with the same new id are both kept: the filter only compares with the
      ids stored before the import, not with one another. */
  lemma DuplicateIdsKept(ids: set<string>, t: Task)
    requires t.id !in ids
    ensures NewTasks(ids, [t, t]) == [t, t]
  {
    NewTasksAllNew(ids, [t, t]);
  }

  /** The merge is a union: every stored record survives, its tasks first and in order, and only
      new tasks follow them. */
  lemma {:induction false} MergedKeepsExisting(h: History, entries: seq<ImportedEntry>, d: string)
    requires Merged(h, entries).Success? && d in h
    ensures d in Merged(h, entries).value
    ensures h[d].tasks <= Merged(h, entries).value[d].tasks
    ensures h[d].date == Merged(h, entries).value[d].date
    decreases |entries|
  {
    if entries != [] {
      var init, last := entries[..|entries| - 1], entries[|entries| - 1];
      MergedKeepsExisting(h, init, d);
      var prev := Merged(h, init).value;
      MergeStepProperties(prev, last);
      var r := MergeStep(prev, last).value;
      if d == last.date && r != prev {
        assert ExistingRecord(prev, d) == prev[d];
        assert prev[d].tasks <= r[d].tasks;
      }
    }
  }

  /** The key order of a history's own properties: each date once, every date present. */
  predicate IsKeyOrder(h: History, dates: seq<string>) {
    && (forall i :: 0 <= i < |dates| ==> dates[i] in h)
    && (forall d :: d in h ==> d in dates)
    && (forall i, j :: 0 <= i < j < |dates| ==> dates[i] != dates[j])
  }

  /** What `JSON.parse` gives back for one record of an exported history. */
  function ExportedEntry(h: History, d: string): ImportedEntry
    requires d in h
  {
    ImportedEntry(d, ImportedRecord(h[d].date != [], Some(h[d].tasks)))
  }

  /** The entries of an exported history, in the given key order. */
  function ExportedEntries(h: History, dates: seq<string>): seq<ImportedEntry>
    requires forall i :: 0 <= i < |dates| ==> dates[i] in h
  {
    if dates == [] then []
    else ExportedEntries(h, dates[..|dates| - 1]) + [ExportedEntry(h, dates[|dates| - 1])]
  }

  /** The records an import into an empty store restores: those with a non-empty date and at
      least one task. */
  function Restored(h: History, dates: seq<string>): History {
    map d | d in dates && d in h && d != [] && |h[d].tasks| > 0 :: h[d]
  }

  /** One exported record merged into a store that lacks its date: written unchanged when it
      has a date and a task, skipped otherwise. */
  lemma RestoreStep(prev: History, h: History, d: string)
    requires WellFormedHistory(h) && d in h && d !in prev && d !in INHERITED_NAMES
    ensures MergeStep(prev, ExportedEntry(h, d)) ==
      Success(if d != [] && |h[d].tasks| > 0 then prev[d := h[d]] else prev)
  {
    var tasks := h[d].tasks;
    var existing := ExistingRecord(prev, d);
    assert existing == DailyRecord(d, [], 0);
    assert IdSet(existing.tasks) == {};
    NewTasksAllNew({}, tasks);
    if d != [] && |tasks| > 0 {
      assert existing.tasks + NewTasks({}, tasks) == tasks;
      assert h[d] == DailyRecord(d, tasks, SumElapsed(tasks));
    }
  }

  /** The exported entries, one per date, in order. */
  lemma {:induction false} ExportedEntriesAre(h: History, dates: seq<string>)
    requires forall i :: 0 <= i < |dates| ==> dates[i] in h
    ensures |ExportedEntries(h, dates)| == |dates|
    ensures forall k :: 0 <= k < |dates| ==> ExportedEntries(h, dates)[k] == ExportedEntry(h, dates[k])
    decreases |dates|
  {
    if dates != [] {
      ExportedEntriesAre(h, dates[..|dates| - 1]);
    }
  }

  /** Restoring one more date adds at most that date's record. */
  lemma RestoredSnoc(h: History, dates: seq<string>)
    requires dates != []
    requires forall i, j :: 0 <= i < j < |dates| ==> dates[i] != dates[j]
    ensures var init, last := dates[..|dates| - 1], dates[|dates| - 1];
      && last !in Restored(h, init)
      && Restored(h, dates) ==
           if last in h && last != [] && |h[last].tasks| > 0 then Restored(h, init)[last := h[last]] else Restored(h, init)
  {
    var init, last := dates[..|dates| - 1], dates[|dates| - 1];
    assert forall i :: 0 <= i < |init| ==> init[i] == dates[i];
    assert last !in init;
    assert forall d :: d in dates <==> d in init || d == last;
  }

  /** Importing the export of a consistent history into an empty store restores every record
      with a non-empty date and at least one task, unchanged, and no other. */
  lemma {:induction false} MergedFromEmpty(h: History, dates: seq<string>)
    requires WellFormedHistory(h)
    requires forall i :: 0 <= i < |dates| ==> dates[i] in h
    requires forall i, j :: 0 <= i < j < |dates| ==> dates[i] != dates[j]
    requires forall i :: 0 <= i < |dates| ==> dates[i] !in INHERITED_NAMES
    ensures Merged(map[], ExportedEntries(h, dates)) == Success(Restored(h, dates))
    decreases |dates|
  {
    if dates == [] {
      assert Restored(h, dates) == map[];
    } else {
      var init, last := dates[..|dates| - 1], dates[|dates| - 1];
      assert forall i :: 0 <= i < |init| ==> init[i] == dates[i];
      MergedFromEmpty(h, init);
      var entries := ExportedEntries(h, dates);
      assert entries[..|entries| - 1] == ExportedEntries(h, init);
      RestoredSnoc(h, dates);
      RestoreStep(Restored(h, init), h, last);
    }
  }

  /** Export followed by import into an empty store gives the history back, as long as every
      record has a date and a task, which holds of every record archiving writes. */
  lemma ExportImportRoundTrip(h: History, dates: seq<string>)
    requires WellFormedHistory(h) && IsKeyOrder(h, dates) && h.Keys !! INHERITED_NAMES
    requires forall d :: d in h ==> d != [] && |h[d].tasks| > 0
    ensures Merged(map[], ExportedEntries(h, dates)) == Success(h)
  {
    MergedFromEmpty(h, dates);
    assert Restored(h, dates) == h;
  }

  /** A record filed under an inherited name is not restored either: importing it into an empty
      store throws. */
  lemma InheritedDateThrows(h: History, dates: seq<string>, d: string)
    requires IsKeyOrder(h, dates)
    requires d in h && d in INHERITED_NAMES && h[d].date != []
    ensures Merged(map[], ExportedEntries(h, dates)).Failure?
  {
    ExportedEntriesAre(h, dates);
    var k :| 0 <= k < |dates| && dates[k] == d;
    assert Throws(map[], ExportedEntries(h, dates)[k]);
    MergedFailsIff(map[], ExportedEntries(h, dates));
  }

  /** A record without tasks is not restored: the import only writes a date when it adds a task. */
  lemma EmptyRecordDropped(h: History, dates: seq<string>, d: string)
    requires WellFormedHistory(h) && IsKeyOrder(h, dates) && h.Keys !! INHERITED_NAMES
    requires d in h && h[d].tasks == []
    ensures Merged(map[], ExportedEntries(h, dates)).Success?
    ensures d !in Merged(map[], ExportedEntries(h, dates)).value
  {
    MergedFromEmpty(h, dates);
  }

  // ---------------------------------------------------------------------------
  // CSV rows

  /** One row of the CSV export. */
  datatype CsvRow = CsvRow(
    date: string,
    taskName: string,
    taskDescription: string,
    elapsedSeconds: nat,
    completionDate: string,
    status: string)

  /** `x || ''` for an optional string: a missing or empty value becomes the empty string. */
  function OrEmpty(x: Option<string>): string {
    if x.Some? then x.value else ""
  }

  /** The row of one archived task. */
  function RowOf(date: string, t: Task): (row: CsvRow)
    ensures row.status == "Synced" <==> t.syncedToCalendar == Some(true)
    ensures row.status == "Synced" || row.status == "Not Synced"
    ensures t.description.None? ==> row.taskDescription == ""
    ensures t.completionDate.None? ==> row.completionDate == ""
  {
    CsvRow(date, t.name, OrEmpty(t.description), t.elapsedSeconds, OrEmpty(t.completionDate),
           if t.syncedToCalendar == Some(true) then "Synced" else "Not Synced")
  }

  /** `dailyRecord.tasks.map(...)`. */
  function TaskRows(date: string, tasks: seq<Task>): seq<CsvRow> {
    if tasks == [] then []
    else TaskRows(date, tasks[..|tasks| - 1]) + [RowOf(date, tasks[|tasks| - 1])]
  }

  /** `Object.values(history).flatMap(...)`, the records taken in the object's key order. */
  function Flattened(records: seq<DailyRecord>): seq<CsvRow> {
    if records == [] then [] else Flattened(records[..|records| - 1]) + TaskRows(records[|records| - 1].date, records[|records| - 1].tasks)
  }

  /** The number of archived tasks. */
  function TaskCount(records: seq<DailyRecord>): nat {
    if records == [] then 0 else TaskCount(records[..|records| - 1]) + |records[|records| - 1].tasks|
  }

  /** A record yields one row per task, in order, each carrying the record's date. */
  lemma {:induction false} TaskRowsAre(date: string, tasks: seq<Task>)
    ensures |TaskRows(date, tasks)| == |tasks|
    ensures forall j :: 0 <= j < |tasks| ==> TaskRows(date, tasks)[j] == RowOf(date, tasks[j])
    decreases |tasks|
  {
    if tasks != [] {
      TaskRowsAre(date, tasks[..|tasks| - 1]);
    }
  }

  /** There is one row per archived task. */
  lemma {:induction false} FlattenedCount(records: seq<DailyRecord>)
    ensures |Flattened(records)| == TaskCount(records)
    decreases |records|
  {
    if records != [] {
      FlattenedCount(records[..|records| - 1]);
      TaskRowsAre(records[|records| - 1].date, records[|records| - 1].tasks);
    }
  }

  /** `Object.values(history)`: the records in the given key order. */
  function RecordsOf(h: History, dates: seq<string>): (records: seq<DailyRecord>)
    requires forall i :: 0 <= i < |dates| ==> dates[i] in h
    ensures |records| == |dates|
    ensures forall k :: 0 <= k < |dates| ==> records[k] == h[dates[k]]
  {
    if dates == [] then []
    else RecordsOf(h, dates[..|dates| - 1]) + [h[dates[|dates| - 1]]]
  }

  /** There are no rows exactly when every record is empty. */
  lemma {:induction false} NoRowsIffEmpty(records: seq<DailyRecord>)
    ensures TaskCount(records) == 0 <==> forall k :: 0 <= k < |records| ==> records[k].tasks == []
    decreases |records|
  {
    if records != [] {
      var init := records[..|records| - 1];
      NoRowsIffEmpty(init);
      assert forall k :: 0 <= k < |init| ==> init[k] == records[k];
    }
  }

  /** `exportToCsv` without the download: one row per archived task of the history, each
      record taken once; no rows means no file ("No history to export."). */
  function ExportToCsv(h: History, dates: seq<string>): (r: Option<seq<CsvRow>>)
    requires IsKeyOrder(h, dates)
    ensures r.None? <==> forall d :: d in h ==> h[d].tasks == []
    ensures r.Some? ==> r.value == Flattened(RecordsOf(h, dates)) && |r.value| == TaskCount(RecordsOf(h, dates))
  {
    var records := RecordsOf(h, dates);
    FlattenedCount(records);
    NoRowsIffEmpty(records);
    assert (forall k :: 0 <= k < |records| ==> records[k].tasks == []) <==> forall d :: d in h ==> h[d].tasks == [] by {
      forall d | d in h ensures exists k :: 0 <= k < |dates| && dates[k] == d {
        assert d in dates;
      }
    }
    var rows := Flattened(records);
    if |rows| == 0 then None else Some(rows)
  }
}
