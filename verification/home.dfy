/** The home page: the live task list with its timer, and the archive of finished work into
    today's daily record with the points it earns. Every handler replaces the page's state,
    so the page is a class whose methods update its fields; the clock, the new task's id,
    today's date key and the outcome of the work-log call are parameters. */
module Home {
  import opened Types
  import opened Text
  import opened Jira
  import opened Gamification
  import opened TaskInput

  // ---------------------------------------------------------------------------
  // Updates of one task in the list

  /** The three ways a handler rewrites the task with a given id. */
  datatype TaskUpdate =
    | AddSecond                                                                  // the timer tick
    | SetDetails(name: string, description: Option<string>, jiraIssueKey: Option<string>)  // an edit
    | MarkLogged                                                                 // after a work-log call

  function Apply(u: TaskUpdate, t: Task): Task {
    match u
    case AddSecond => t.(elapsedSeconds := t.elapsedSeconds + 1)
    case SetDetails(name, description, key) => t.(name := name, description := description, jiraIssueKey := key)
    case MarkLogged => t.(timeLoggedToJiraSeconds := Some(t.elapsedSeconds))
  }

  /** `tasks.map(t => t.id === id ? update(t) : t)`. */
  function UpdateTask(tasks: seq<Task>, id: string, u: TaskUpdate): (r: seq<Task>)
    ensures |r| == |tasks|
    ensures forall i :: 0 <= i < |tasks| ==> r[i] == if tasks[i].id == id then Apply(u, tasks[i]) else tasks[i]
  {
    if tasks == [] then []
    else
      var last := tasks[|tasks| - 1];
      UpdateTask(tasks[..|tasks| - 1], id, u) + [if last.id == id then Apply(u, last) else last]
  }

  /** How many tasks carry `id`. */
  function Occurrences(tasks: seq<Task>, id: string): nat {
    if tasks == [] then 0
    else Occurrences(tasks[..|tasks| - 1], id) + (if tasks[|tasks| - 1].id == id then 1 else 0)
  }

  predicate UniqueIds(tasks: seq<Task>) {
    forall i, j :: 0 <= i < j < |tasks| ==> tasks[i].id != tasks[j].id
  }

  /** The index of the first task with `id`, `|tasks|` when there is none. */
  function FirstIndex(tasks: seq<Task>, id: string): (k: nat)
    ensures k <= |tasks|
    ensures k < |tasks| ==> tasks[k].id == id
    ensures forall i :: 0 <= i < k ==> tasks[i].id != id
  {
    if tasks == [] || tasks[0].id == id then 0 else 1 + FirstIndex(tasks[1..], id)
  }

  /** `tasks.find(t => t.id === id)`. */
  function FindTask(tasks: seq<Task>, id: string): Option<Task> {
    var k := FirstIndex(tasks, id);
    if k < |tasks| then Some(tasks[k]) else None
  }

  /** An id occurs in the list exactly when `find` finds it. */
  lemma {:induction false} OccurrencesFound(tasks: seq<Task>, id: string)
    ensures Occurrences(tasks, id) == 0 <==> FindTask(tasks, id).None?
    decreases |tasks|
  {
    if tasks != [] {
      var init := tasks[..|tasks| - 1];
      OccurrencesFound(init, id);
      var k := FirstIndex(init, id);
      if k < |init| {
        assert tasks[k] == init[k];
      }
      assert forall i :: 0 <= i < |init| ==> init[i] == tasks[i];
    }
  }

  /** In a list with unique ids, an id occurs once or not at all. */
  lemma {:induction false} OccurrencesOfUnique(tasks: seq<Task>, id: string)
    requires UniqueIds(tasks)
    ensures Occurrences(tasks, id) <= 1
    decreases |tasks|
  {
    if tasks != [] {
      var init := tasks[..|tasks| - 1];
      assert UniqueIds(init);
      OccurrencesOfUnique(init, id);
      if tasks[|tasks| - 1].id == id {
        OccurrencesFound(init, id);
        assert forall i :: 0 <= i < |init| ==> init[i].id != id by {
          assert forall i :: 0 <= i < |init| ==> init[i] == tasks[i];
        }
      }
    }
  }

  /** The tracked time changes only through the tick, by one second per task carrying the id. */
  lemma {:induction false} UpdateTaskTime(tasks: seq<Task>, id: string, u: TaskUpdate)
    ensures SumElapsed(UpdateTask(tasks, id, u)) == SumElapsed(tasks) + if u.AddSecond? then Occurrences(tasks, id) else 0
    decreases |tasks|
  {
    if tasks != [] {
      UpdateTaskTime(tasks[..|tasks| - 1], id, u);
      var r := UpdateTask(tasks, id, u);
      assert r[..|r| - 1] == UpdateTask(tasks[..|tasks| - 1], id, u);
    }
  }

  /** With unique ids a tick adds exactly one second to the total when the active task is in
      the list, and nothing when it is not. */
  lemma TickAddsOneSecond(tasks: seq<Task>, id: string)
    requires UniqueIds(tasks)
    ensures SumElapsed(UpdateTask(tasks, id, AddSecond)) == SumElapsed(tasks) + if FindTask(tasks, id).Some? then 1 else 0
  {
    UpdateTaskTime(tasks, id, AddSecond);
    OccurrencesOfUnique(tasks, id);
    OccurrencesFound(tasks, id);
  }

  /** `tasks.filter(t => t.id !== id)`. */
  function RemoveTask(tasks: seq<Task>, id: string): seq<Task> {
    if tasks == [] then []
    else
      var init, last := tasks[..|tasks| - 1], tasks[|tasks| - 1];
      RemoveTask(init, id) + if last.id == id then [] else [last]
  }

  /** Removing a task drops every task with its id, keeps the others, and loses exactly the
      time of the tasks it drops. */
  lemma {:induction false} RemoveTaskProperties(tasks: seq<Task>, id: string)
    ensures Occurrences(RemoveTask(tasks, id), id) == 0
    ensures |RemoveTask(tasks, id)| + Occurrences(tasks, id) == |tasks|
    ensures SumElapsed(RemoveTask(tasks, id)) + SumElapsed(WithId(tasks, id)) == SumElapsed(tasks)
    decreases |tasks|
  {
    if tasks != [] {
      var init, last := tasks[..|tasks| - 1], tasks[|tasks| - 1];
      var r := RemoveTask(init, id);
      RemoveTaskProperties(init, id);
      if last.id == id {
        SumElapsedAppend(WithId(init, id), [last]);
        assert RemoveTask(tasks, id) == r by {
          assert RemoveTask(tasks, id) == r + [];
        }
        assert WithId(tasks, id) == WithId(init, id) + [last];
      } else {
        SumElapsedAppend(r, [last]);
        assert RemoveTask(tasks, id) == r + [last];
        assert (r + [last])[..|r|] == r;
        assert WithId(tasks, id) == WithId(init, id) by {
          assert WithId(tasks, id) == WithId(init, id) + [];
        }
      }
    }
  }

  /** The tasks that carry `id`. */
  function WithId(tasks: seq<Task>, id: string): seq<Task> {
    if tasks == [] then []
    else
      var init, last := tasks[..|tasks| - 1], tasks[|tasks| - 1];
      WithId(init, id) + if last.id == id then [last] else []
  }

  /** In a list with unique ids, the tasks carrying an id are the one `find` returns. */
  lemma {:induction false} WithIdOfUnique(tasks: seq<Task>, id: string)
    requires UniqueIds(tasks)
    ensures WithId(tasks, id) == if FindTask(tasks, id).Some? then [FindTask(tasks, id).value] else []
    decreases |tasks|
  {
    if tasks != [] {
      var init, last := tasks[..|tasks| - 1], tasks[|tasks| - 1];
      assert UniqueIds(init);
      WithIdOfUnique(init, id);
      var k := FirstIndex(init, id);
      assert forall i :: 0 <= i < |init| ==> init[i] == tasks[i];
      if last.id == id {
        assert forall i :: 0 <= i < |init| ==> init[i].id != id;
        assert WithId(tasks, id) == [] + [last];
      } else {
        assert WithId(tasks, id) == WithId(init, id) + [];
      }
    }
  }

  /** `tasks.filter(t => t.elapsedSeconds > 0)`: the tasks with tracked time. */
  function TrackedTasks(tasks: seq<Task>): seq<Task> {
    if tasks == [] then []
    else
      var init, last := tasks[..|tasks| - 1], tasks[|tasks| - 1];
      TrackedTasks(init) + if last.elapsedSeconds > 0 then [last] else []
  }

  /** The filter keeps exactly the tasks with time: every kept task has time, and every task
      with time is kept. */
  lemma {:induction false} TrackedTasksHaveTime(tasks: seq<Task>)
    ensures forall i :: 0 <= i < |TrackedTasks(tasks)| ==> TrackedTasks(tasks)[i].elapsedSeconds > 0
    ensures forall t :: t in TrackedTasks(tasks) <==> t in tasks && t.elapsedSeconds > 0
    decreases |tasks|
  {
    if tasks != [] {
      var init, last := tasks[..|tasks| - 1], tasks[|tasks| - 1];
      TrackedTasksHaveTime(init);
      var r := TrackedTasks(init);
      assert TrackedTasks(tasks) == r + if last.elapsedSeconds > 0 then [last] else [];
      assert tasks == init + [last];
    }
  }

  /** The filter keeps the order: it works on each part of the list separately. */
  lemma {:induction false} TrackedTasksAppend(a: seq<Task>, b: seq<Task>)
    ensures TrackedTasks(a + b) == TrackedTasks(a) + TrackedTasks(b)
    decreases |b|
  {
    if b == [] {
      assert a + b == a;
    } else {
      var init, last := b[..|b| - 1], b[|b| - 1];
      assert (a + b)[..|a + b| - 1] == a + init;
      TrackedTasksAppend(a, init);
    }
  }

  /** Leaving out the tasks without time loses no time and no points. */
  lemma {:induction false} TrackedTasksKeepTime(tasks: seq<Task>)
    ensures SumElapsed(TrackedTasks(tasks)) == SumElapsed(tasks)
    ensures PointsFor(TrackedTasks(tasks)) == PointsFor(tasks)
    decreases |tasks|
  {
    if tasks != [] {
      var init, last := tasks[..|tasks| - 1], tasks[|tasks| - 1];
      var r := TrackedTasks(init);
      TrackedTasksKeepTime(init);
      if last.elapsedSeconds > 0 {
        SumElapsedAppend(r, [last]);
        PointsForAppend(r, [last]);
      } else {
        assert TrackedTasks(tasks) == r by {
          assert TrackedTasks(tasks) == r + [];
        }
        assert SumElapsed(tasks) == SumElapsed(init);
        assert PointsFor(tasks) == PointsFor(init) + CalculatePoints(0);
      }
    }
  }

  // ---------------------------------------------------------------------------
  // Archiving into the history

  /** The points for a list of tasks: the sum of `calculatePoints` over their times. */
  function PointsFor(tasks: seq<Task>): nat {
    if tasks == [] then 0
    else PointsFor(tasks[..|tasks| - 1]) + CalculatePoints(tasks[|tasks| - 1].elapsedSeconds)
  }

  /** The points never exceed the whole minutes of the total time. */
  lemma {:induction false} PointsForBound(tasks: seq<Task>)
    ensures PointsFor(tasks) * 60 <= SumElapsed(tasks)
    decreases |tasks|
  {
    if tasks != [] {
      PointsForBound(tasks[..|tasks| - 1]);
    }
  }

  lemma {:induction false} PointsForAppend(a: seq<Task>, b: seq<Task>)
    ensures PointsFor(a + b) == PointsFor(a) + PointsFor(b)
    decreases |b|
  {
    if b == [] {
      assert a + b == a;
    } else {
      assert (a + b)[..|a + b| - 1] == a + b[..|b| - 1];
      PointsForAppend(a, b[..|b| - 1]);
    }
  }

  /** Every task with at least a minute earns a point, so the points are zero exactly when
      no task reached a minute. */
  lemma {:induction false} PointsForZero(tasks: seq<Task>)
    ensures PointsFor(tasks) == 0 <==> forall i :: 0 <= i < |tasks| ==> tasks[i].elapsedSeconds < 60
    decreases |tasks|
  {
    if tasks != [] {
      var init := tasks[..|tasks| - 1];
      PointsForZero(init);
      assert forall i :: 0 <= i < |init| ==> init[i] == tasks[i];
    }
  }

  /** `tasksToSave.map(task => ({...task, completionDate}))`. */
  function Stamped(tasks: seq<Task>, completionDate: string): (r: seq<Task>)
    ensures |r| == |tasks|
    ensures forall i :: 0 <= i < |tasks| ==> r[i] == tasks[i].(completionDate := Some(completionDate))
  {
    if tasks == [] then []
    else Stamped(tasks[..|tasks| - 1], completionDate) + [tasks[|tasks| - 1].(completionDate := Some(completionDate))]
  }

  /** Stamping the completion date changes no time and no points. */
  lemma {:induction false} StampedKeepsTime(tasks: seq<Task>, completionDate: string)
    ensures SumElapsed(Stamped(tasks, completionDate)) == SumElapsed(tasks)
    ensures PointsFor(Stamped(tasks, completionDate)) == PointsFor(tasks)
    decreases |tasks|
  {
    if tasks != [] {
      var r := Stamped(tasks, completionDate);
      assert r[..|r| - 1] == Stamped(tasks[..|tasks| - 1], completionDate);
      StampedKeepsTime(tasks[..|tasks| - 1], completionDate);
    }
  }

  /** Today's record before archiving: the stored one, or an empty record for today. */
  function TodayRecord(h: History, today: string): DailyRecord {
    if today in h then h[today] else DailyRecord(today, [], 0)
  }

  /** The history after `saveTasksToHistory` archived a non-empty list: today's record gets the
      stamped tasks after its own and their time added to its total. */
  function Archived(h: History, today: string, tasks: seq<Task>, completionDate: string): History {
    var existing := TodayRecord(h, today);
    var stamped := Stamped(tasks, completionDate);
    h[today := DailyRecord(today, existing.tasks + stamped, existing.totalTime + SumElapsed(stamped))]
  }

  /** Archiving touches only today's record, appends the tasks there with their completion
      date and adds their time to its total. */
  lemma ArchivedProperties(h: History, today: string, tasks: seq<Task>, completionDate: string)
    ensures var a := Archived(h, today, tasks, completionDate);
      && a.Keys == h.Keys + {today}
      && (forall d :: d in h && d != today ==> a[d] == h[d])
      && TasksOn(a, today) == TasksOn(h, today) + Stamped(tasks, completionDate)
      && a[today].totalTime == TodayRecord(h, today).totalTime + SumElapsed(tasks)
  {
    StampedKeepsTime(tasks, completionDate);
  }

  /** Archiving keeps a consistent history consistent. */
  lemma ArchivedWellFormed(h: History, today: string, tasks: seq<Task>, completionDate: string)
    requires WellFormedHistory(h)
    ensures WellFormedHistory(Archived(h, today, tasks, completionDate))
  {
    var existing := TodayRecord(h, today);
    var stamped := Stamped(tasks, completionDate);
    SumElapsedAppend(existing.tasks, stamped);
    var a := Archived(h, today, tasks, completionDate);
    assert WellFormedRecord(today, a[today]);
  }

  /** The history after `saveTasksToHistory(tasks)`: unchanged for an empty list. */
  function SavedHistory(h: History, tasks: seq<Task>, today: string, completionDate: string): History {
    if tasks == [] then h else Archived(h, today, tasks, completionDate)
  }

  /** The progress after `saveTasksToHistory(tasks)`: only written when the tasks earn points. */
  function SavedProgress(p: UserProgress, tasks: seq<Task>): UserProgress {
    if PointsFor(tasks) > 0 then p.(points := p.points + PointsFor(tasks)) else p
  }

  /** Saving never takes points away, and adds one point per whole minute of each task. */
  lemma SavedProgressGrows(p: UserProgress, tasks: seq<Task>)
    ensures SavedProgress(p, tasks).level == p.level
    ensures SavedProgress(p, tasks).points == p.points + PointsFor(tasks)
    ensures p.points <= SavedProgress(p, tasks).points <= p.points + SumElapsed(tasks) / 60
  {
    PointsForBound(tasks);
  }

  /** What `deleteTask` archives: the task found, when it has time. */
  function ToArchiveOnDelete(tasks: seq<Task>, id: string): seq<Task> {
    var found := FindTask(tasks, id);
    if found.Some? && found.value.elapsedSeconds > 0 then [found.value] else []
  }

  /** Deleting moves exactly the deleted task's time from the list to the archive: with
      unique ids, the time left in the list plus the archived time is the time before, and
      the id is gone from the list, so the task cannot be archived a second time. */
  lemma DeleteKeepsTime(tasks: seq<Task>, id: string)
    requires UniqueIds(tasks)
    ensures SumElapsed(RemoveTask(tasks, id)) + SumElapsed(ToArchiveOnDelete(tasks, id)) == SumElapsed(tasks)
    ensures FindTask(RemoveTask(tasks, id), id).None?
  {
    RemoveTaskProperties(tasks, id);
    WithIdOfUnique(tasks, id);
    OccurrencesFound(RemoveTask(tasks, id), id);
    var found := FindTask(tasks, id);
    if found.Some? {
      SumElapsedAppend([], [found.value]);
      assert [] + [found.value] == [found.value];
    }
  }

  // ---------------------------------------------------------------------------
  // Logging time to the issue tracker

  /** The outcome of `handleLogTimeToJira`, as the toast it shows tells it. */
  datatype LogOutcome =
    | MissingData            // no such task, no issue key or no configuration: an error toast
    | NothingToLog           // "No new time to log."
    | LogFailed              // the work-log call threw: an error toast, nothing changes
    | Logged(request: WorklogRequest)

  /** The time not yet logged: `elapsedSeconds - (timeLoggedToJiraSeconds || 0)`. */
  function UnloggedSeconds(t: Task): int {
    t.elapsedSeconds - (if t.timeLoggedToJiraSeconds.Some? then t.timeLoggedToJiraSeconds.value else 0)
  }

  /** What `handleLogTimeToJira` does before the network answers: the conditions it checks, in order,
      and the request it sends (`Logged`), which succeeds or throws (`LogFailed` for a key the
      work-log function rejects). */
  function PlanLog(tasks: seq<Task>, taskId: string, config: Option<JiraConfig>, localTime: string): LogOutcome {
    var found := FindTask(tasks, taskId);
    if found.None? || found.value.jiraIssueKey.None? || found.value.jiraIssueKey.value == [] || config.None? then MissingData
    else if UnloggedSeconds(found.value) <= 0 then NothingToLog
    else
      var request := LogWorkRequest(found.value.jiraIssueKey.value, UnloggedSeconds(found.value), localTime);
      if request.Failure? then LogFailed else Logged(request.value)
  }

  /** A request goes out exactly for a found task with a valid key, a configuration and
      unlogged time, and it asks for that time rounded down to whole minutes (at least one). */
  lemma PlanLogProperties(tasks: seq<Task>, taskId: string, config: Option<JiraConfig>, localTime: string)
    ensures var plan, found := PlanLog(tasks, taskId, config, localTime), FindTask(tasks, taskId);
      && (plan.Logged? <==> found.Some? && found.value.jiraIssueKey.Some? && IsValidIssueKey(found.value.jiraIssueKey.value)
                            && config.Some? && UnloggedSeconds(found.value) > 0)
      && (plan.Logged? ==>
            var s := UnloggedSeconds(found.value);
            ParseJiraDuration(plan.request.timeSpent) == Some(if s < 60 then 60 else s - s % 60))
  {
    var found := FindTask(tasks, taskId);
    if found.Some? && found.value.jiraIssueKey.Some? && found.value.jiraIssueKey.value == [] {
      assert !IsValidIssueKey(found.value.jiraIssueKey.value);
    }
  }

  /** After a successful log the task has no unlogged time, so logging it again right away
      sends nothing. */
  lemma LogAgainSendsNothing(tasks: seq<Task>, taskId: string, config: Option<JiraConfig>, localTime: string)
    requires PlanLog(tasks, taskId, config, localTime).Logged?
    ensures PlanLog(UpdateTask(tasks, taskId, MarkLogged), taskId, config, localTime) == NothingToLog
  {
    var r := UpdateTask(tasks, taskId, MarkLogged);
    var k := FirstIndex(tasks, taskId);
    FirstIndexOfUpdate(tasks, taskId, MarkLogged);
    assert r[k] == Apply(MarkLogged, tasks[k]);
  }

  /** Updating tasks does not move the first task with an id. */
  lemma FirstIndexOfUpdate(tasks: seq<Task>, id: string, u: TaskUpdate)
    ensures FirstIndex(UpdateTask(tasks, id, u), id) == FirstIndex(tasks, id)
  {
    var r := UpdateTask(tasks, id, u);
    var k := FirstIndex(tasks, id);
    FirstIndexAt(r, id, k);
  }

  /** The first index is determined by where the id first occurs. */
  lemma FirstIndexAt(tasks: seq<Task>, id: string, k: nat)
    requires k <= |tasks| && (k < |tasks| ==> tasks[k].id == id)
    requires forall i :: 0 <= i < k ==> tasks[i].id != id
    ensures FirstIndex(tasks, id) == k
  {
  }

  // ---------------------------------------------------------------------------
  // The page

  /** The task `handleAddTask` appends. */
  function NewTask(id: string, parsed: NewTaskName): Task {
    Task(id, parsed.name, Some(""), 0, None, Some(false), parsed.jiraIssueKey, Some(0))
  }

  /** The points loop of `saveTasksToHistory`: `calculatePoints` summed over the tasks. */
  method TotalPoints(tasks: seq<Task>) returns (gained: int)
    ensures gained == PointsFor(tasks)
  {
    gained := 0;
    for i := 0 to |tasks|
      invariant gained == PointsFor(tasks[..i])
    {
      assert tasks[..i + 1][..i] == tasks[..i];
      gained := gained + CalculatePoints(tasks[i].elapsedSeconds);
    }
    assert tasks[..|tasks|] == tasks;
  }

  /** The body of `saveTasksToHistory` on the values it reads and writes: an empty list changes
      nothing; otherwise the points are summed in a loop over the stamped tasks, the tasks are
      appended to today's record (created when missing) with their time added to its total, and
      the progress is only written when the points are positive. */
  method SaveToHistory(history: History, progress: UserProgress, tasksToSave: seq<Task>, today: string, completionDate: string)
    returns (newHistory: History, newProgress: UserProgress)
    ensures newHistory == SavedHistory(history, tasksToSave, today, completionDate)
    ensures newProgress == SavedProgress(progress, tasksToSave)
  {
    newHistory, newProgress := history, progress;
    if |tasksToSave| == 0 {
      return;
    }
    var stamped := Stamped(tasksToSave, completionDate);
    StampedKeepsTime(tasksToSave, completionDate);
    var gained := TotalPoints(stamped);
    newHistory := Archived(history, today, tasksToSave, completionDate);
    if gained > 0 {
      newProgress := progress.(points := progress.points + gained);
    }
  }

  class HomePage {
    var tasks: seq<Task>
    var activeTaskId: Option<string>
    var history: History
    var progress: UserProgress

    /** The page as it opens: the stored tasks, history and progress, and no active task. */
    constructor(tasks: seq<Task>, history: History, progress: UserProgress)
      ensures this.tasks == tasks && this.history == history && this.progress == progress
      ensures activeTaskId == None
    {
      this.tasks := tasks;
      this.history := history;
      this.progress := progress;
      activeTaskId := None;
    }

    /** `handleTaskClick`: clicking the active task stops it; clicking any other one starts it. */
    method TaskClick(taskId: string)
      modifies this
      ensures activeTaskId == if old(activeTaskId) == Some(taskId) then None else Some(taskId)
      ensures tasks == old(tasks) && history == old(history) && progress == old(progress)
    {
      activeTaskId := if activeTaskId == Some(taskId) then None else Some(taskId);
    }

    /** One run of the interval callback. The interval only exists while the active id is
        truthy, so nothing happens without an active task (or with an empty id). */
    method Tick()
      modifies this
      ensures old(activeTaskId).None? || old(activeTaskId).value == [] ==> tasks == old(tasks)
      ensures old(activeTaskId).Some? && old(activeTaskId).value != [] ==>
        tasks == UpdateTask(old(tasks), old(activeTaskId).value, AddSecond)
      ensures activeTaskId == old(activeTaskId) && history == old(history) && progress == old(progress)
    {
      if activeTaskId.Some? && activeTaskId.value != [] {
        tasks := UpdateTask(tasks, activeTaskId.value, AddSecond);
      }
    }

    /** `handleAddTask`: blank input adds nothing; otherwise one new task at the end, with no
        time, not synced and nothing logged, under the parsed name and key. */
    method AddTask(taskName: string, newId: string)
      modifies this
      ensures ParseTaskName(taskName).None? ==> tasks == old(tasks)
      ensures ParseTaskName(taskName).Some? ==> tasks == old(tasks) + [NewTask(newId, ParseTaskName(taskName).value)]
      ensures activeTaskId == old(activeTaskId) && history == old(history) && progress == old(progress)
    {
      var parsed := ParseTaskName(taskName);
      if parsed.Some? {
        tasks := tasks + [NewTask(newId, parsed.value)];
      }
    }

    /** `saveTasksToHistory`: archives the tasks into today's record and adds their points. */
    method SaveTasksToHistory(tasksToSave: seq<Task>, today: string, completionDate: string)
      modifies this
      ensures history == SavedHistory(old(history), tasksToSave, today, completionDate)
      ensures progress == SavedProgress(old(progress), tasksToSave)
      ensures tasks == old(tasks) && activeTaskId == old(activeTaskId)
    {
      history, progress := SaveToHistory(history, progress, tasksToSave, today, completionDate);
    }

    /** `handleResetDay`: archives the tasks with time, then empties the list and stops the timer. */
    method ResetDay(today: string, completionDate: string)
      modifies this
      ensures history == SavedHistory(old(history), TrackedTasks(old(tasks)), today, completionDate)
      ensures progress == SavedProgress(old(progress), TrackedTasks(old(tasks)))
      ensures tasks == [] && activeTaskId == None
    {
      SaveTasksToHistory(TrackedTasks(tasks), today, completionDate);
      activeTaskId := None;
      tasks := [];
    }

    /** `handleEditTask`: replaces the name, description and key of the task with that id. */
    method EditTask(taskId: string, newName: string, newDescription: Option<string>, newJiraIssueKey: Option<string>)
      modifies this
      ensures tasks == UpdateTask(old(tasks), taskId, SetDetails(newName, newDescription, newJiraIssueKey))
      ensures activeTaskId == old(activeTaskId) && history == old(history) && progress == old(progress)
    {
      tasks := UpdateTask(tasks, taskId, SetDetails(newName, newDescription, newJiraIssueKey));
    }

    /** The task item's save: a blank name changes nothing; otherwise the trimmed name and
        description are stored, and since the item passes no key, the key is dropped. */
    method SaveEdit(taskId: string, editedName: string, editedDescription: string)
      modifies this
      ensures Trim(editedName) == [] ==> tasks == old(tasks)
      ensures Trim(editedName) != [] ==>
        tasks == UpdateTask(old(tasks), taskId, SetDetails(Trim(editedName), Some(Trim(editedDescription)), None))
      ensures activeTaskId == old(activeTaskId) && history == old(history) && progress == old(progress)
    {
      if Trim(editedName) != [] {
        EditTask(taskId, Trim(editedName), Some(Trim(editedDescription)), None);
      }
    }

    /** `handleDeleteTask`: archives the task first when it has time, stops the timer when it
        was running, and removes every task with that id. */
    method DeleteTask(taskId: string, today: string, completionDate: string)
      modifies this
      ensures history == SavedHistory(old(history), ToArchiveOnDelete(old(tasks), taskId), today, completionDate)
      ensures progress == SavedProgress(old(progress), ToArchiveOnDelete(old(tasks), taskId))
      ensures activeTaskId == if old(activeTaskId) == Some(taskId) then None else old(activeTaskId)
      ensures tasks == RemoveTask(old(tasks), taskId)
    {
      var found := FindTask(tasks, taskId);
      if found.Some? && found.value.elapsedSeconds > 0 {
        SaveTasksToHistory([found.value], today, completionDate);
      }
      if activeTaskId == Some(taskId) {
        activeTaskId := None;
      }
      tasks := RemoveTask(tasks, taskId);
    }

    /** `handleLogTimeToJira` without the toasts; `callSucceeds` stands for the outcome of the
        network request. Only a request that succeeds marks the task's time as logged. */
    method LogTimeToJira(taskId: string, config: Option<JiraConfig>, localTime: string, callSucceeds: bool)
      returns (outcome: LogOutcome)
      modifies this
      ensures var plan := PlanLog(old(tasks), taskId, config, localTime);
        outcome == if plan.Logged? && !callSucceeds then LogFailed else plan
      ensures tasks == if outcome.Logged? then UpdateTask(old(tasks), taskId, MarkLogged) else old(tasks)
      ensures activeTaskId == old(activeTaskId) && history == old(history) && progress == old(progress)
    {
      var found := FindTask(tasks, taskId);
      if found.None? || found.value.jiraIssueKey.None? || found.value.jiraIssueKey.value == [] || config.None? {
        return MissingData;
      }
      var task := found.value;
      var timeToLog := UnloggedSeconds(task);
      if timeToLog <= 0 {
        return NothingToLog;
      }
      var request := LogWorkRequest(task.jiraIssueKey.value, timeToLog, localTime);
      if request.Failure? || !callSucceeds {
        return LogFailed;
      }
      tasks := UpdateTask(tasks, taskId, MarkLogged);
      outcome := Logged(request.value);
    }
  }

  // ---------------------------------------------------------------------------
  // Aggregating today's tasks for the analysis

  /** Tasks are merged when name, description and issue key are all equal (`===`; two missing
      values are equal). */
  datatype GroupKey = GroupKey(name: string, description: Option<string>, jiraIssueKey: Option<string>)

  function KeyOf(t: Task): GroupKey {
    GroupKey(t.name, t.description, t.jiraIssueKey)
  }

  /** `acc.find(...)` on the key: the first index with that key, `|s|` when there is none. */
  function GroupIndex(s: seq<Task>, key: GroupKey): (k: nat)
    ensures k <= |s|
    ensures k < |s| ==> KeyOf(s[k]) == key
    ensures forall i :: 0 <= i < k ==> KeyOf(s[i]) != key
  {
    if s == [] || KeyOf(s[0]) == key then 0 else 1 + GroupIndex(s[1..], key)
  }

  /** The first index is determined by where the key first occurs. */
  lemma GroupIndexAt(s: seq<Task>, key: GroupKey, k: nat)
    requires k <= |s| && (k < |s| ==> KeyOf(s[k]) == key)
    requires forall i :: 0 <= i < k ==> KeyOf(s[i]) != key
    ensures GroupIndex(s, key) == k
  {
  }

  /** The first index of a key in a list extended by one task. */
  lemma GroupIndexSnoc(s: seq<Task>, t: Task, key: GroupKey)
    ensures GroupIndex(s + [t], key) ==
      if GroupIndex(s, key) < |s| then GroupIndex(s, key) else if KeyOf(t) == key then |s| else |s| + 1
  {
    var k := GroupIndex(s, key);
    var s' := s + [t];
    assert forall i :: 0 <= i < |s| ==> s'[i] == s[i];
    if k < |s| {
      GroupIndexAt(s', key, k);
    } else if KeyOf(t) == key {
      GroupIndexAt(s', key, |s|);
    } else {
      GroupIndexAt(s', key, |s| + 1);
    }
  }

  /** The total time of the tasks with a key. */
  function GroupTime(tasks: seq<Task>, key: GroupKey): nat {
    if tasks == [] then 0
    else
      var last := tasks[|tasks| - 1];
      GroupTime(tasks[..|tasks| - 1], key) + if KeyOf(last) == key then last.elapsedSeconds else 0
  }

  /** `aggregateTasksByName` as its reduce computes it: each task is added to the entry with its
      key when there is one (the entry's time grows), and appended as a copy otherwise. */
  function Aggregated(tasks: seq<Task>): seq<Task> {
    if tasks == [] then [] else AddToGroup(Aggregated(tasks[..|tasks| - 1]), tasks[|tasks| - 1])
  }

  /** One step of the reduce. */
  function AddToGroup(acc: seq<Task>, task: Task): seq<Task> {
    var k := GroupIndex(acc, KeyOf(task));
    if k < |acc| then acc[k := acc[k].(elapsedSeconds := acc[k].elapsedSeconds + task.elapsedSeconds)]
    else acc + [task]
  }

  /** The reduce of `aggregateTasksByName`, one task per iteration. */
  method AggregateTasksByName(tasks: seq<Task>) returns (acc: seq<Task>)
    ensures acc == Aggregated(tasks)
  {
    acc := [];
    for i := 0 to |tasks|
      invariant acc == Aggregated(tasks[..i])
    {
      var task := tasks[i];
      assert tasks[..i + 1][..i] == tasks[..i];
      var k := GroupIndex(acc, KeyOf(task));
      if k < |acc| {
        acc := acc[k := acc[k].(elapsedSeconds := acc[k].elapsedSeconds + task.elapsedSeconds)];
      } else {
        acc := acc + [task];
      }
    }
    assert tasks[..|tasks|] == tasks;
  }

  /** The aggregate has one entry per key of the input and no other keys, so it is never longer. */
  lemma {:induction false} AggregatedKeys(tasks: seq<Task>)
    ensures |Aggregated(tasks)| <= |tasks|
    ensures forall key :: GroupIndex(Aggregated(tasks), key) < |Aggregated(tasks)| <==> GroupIndex(tasks, key) < |tasks|
    decreases |tasks|
  {
    if tasks != [] {
      var init, task := tasks[..|tasks| - 1], tasks[|tasks| - 1];
      AggregatedKeys(init);
      AddToGroupKeys(Aggregated(init), task);
      assert tasks == init + [task];
      forall key
        ensures GroupIndex(tasks, key) < |tasks| <==> GroupIndex(init, key) < |init| || KeyOf(task) == key
      {
        GroupIndexSnoc(init, task, key);
      }
    }
  }

  /** One step adds the task's key and no other. */
  lemma AddToGroupKeys(acc: seq<Task>, task: Task)
    ensures |AddToGroup(acc, task)| <= |acc| + 1
    ensures forall key :: GroupIndex(AddToGroup(acc, task), key) < |AddToGroup(acc, task)| <==>
      GroupIndex(acc, key) < |acc| || KeyOf(task) == key
  {
    var r := AddToGroup(acc, task);
    var k := GroupIndex(acc, KeyOf(task));
    forall key
      ensures GroupIndex(r, key) < |r| <==> GroupIndex(acc, key) < |acc| || KeyOf(task) == key
    {
      if k < |acc| {
        assert forall i :: 0 <= i < |acc| ==> KeyOf(r[i]) == KeyOf(acc[i]);
        GroupIndexAt(r, key, GroupIndex(acc, key));
      } else {
        GroupIndexSnoc(acc, task, key);
      }
    }
  }

  /** No two entries of the aggregate share a key. */
  lemma {:induction false} AggregatedDistinct(tasks: seq<Task>)
    ensures forall i, j :: 0 <= i < j < |Aggregated(tasks)| ==> KeyOf(Aggregated(tasks)[i]) != KeyOf(Aggregated(tasks)[j])
    decreases |tasks|
  {
    if tasks != [] {
      var init, task := tasks[..|tasks| - 1], tasks[|tasks| - 1];
      AggregatedDistinct(init);
      var acc := Aggregated(init);
      var k := GroupIndex(acc, KeyOf(task));
      if k < |acc| {
        assert forall i :: 0 <= i < |acc| ==> KeyOf(Aggregated(tasks)[i]) == KeyOf(acc[i]);
      }
    }
  }

  /** `e` is the first task of its key in `tasks`, carrying the total time of that key. */
  predicate IsGroupEntry(tasks: seq<Task>, e: Task) {
    var k := GroupIndex(tasks, KeyOf(e));
    k < |tasks| && e == tasks[k].(elapsedSeconds := GroupTime(tasks, KeyOf(e)))
  }

  /** Every entry of the aggregate is the first task of its key, carrying the total time of all
      the tasks with that key. */
  lemma {:induction false} AggregatedEntries(tasks: seq<Task>)
    ensures forall j :: 0 <= j < |Aggregated(tasks)| ==> IsGroupEntry(tasks, Aggregated(tasks)[j])
    decreases |tasks|
  {
    if tasks != [] {
      var init, task := tasks[..|tasks| - 1], tasks[|tasks| - 1];
      AggregatedEntries(init);
      AggregatedDistinct(init);
      AggregatedKeys(init);
      assert tasks == init + [task];
      AddToGroupEntries(init, Aggregated(init), task);
    }
  }

  /** One step keeps every entry an entry of the longer list. */
  lemma AddToGroupEntries(init: seq<Task>, acc: seq<Task>, task: Task)
    requires forall j :: 0 <= j < |acc| ==> IsGroupEntry(init, acc[j])
    requires forall i, j :: 0 <= i < j < |acc| ==> KeyOf(acc[i]) != KeyOf(acc[j])
    requires forall key :: GroupIndex(acc, key) < |acc| <==> GroupIndex(init, key) < |init|
    ensures forall j :: 0 <= j < |AddToGroup(acc, task)| ==> IsGroupEntry(init + [task], AddToGroup(acc, task)[j])
  {
    var k := GroupIndex(acc, KeyOf(task));
    var r := AddToGroup(acc, task);
    if k < |acc| {
      forall j | 0 <= j < |r|
        ensures IsGroupEntry(init + [task], r[j])
      {
        if j == k {
          EntryGrows(init, task, acc[k]);
        } else {
          EntryKept(init, task, acc[j]);
        }
      }
    } else {
      forall j | 0 <= j < |acc|
        ensures IsGroupEntry(init + [task], r[j])
      {
        EntryKept(init, task, acc[j]);
      }
      EntryNew(init, task);
    }
  }

  /** The entries keep the order in which their keys first occur in the input. */
  lemma {:induction false} AggregatedOrder(tasks: seq<Task>)
    ensures forall i, j :: 0 <= i < j < |Aggregated(tasks)| ==>
      GroupIndex(tasks, KeyOf(Aggregated(tasks)[i])) < GroupIndex(tasks, KeyOf(Aggregated(tasks)[j]))
    decreases |tasks|
  {
    if tasks != [] {
      var init, task := tasks[..|tasks| - 1], tasks[|tasks| - 1];
      AggregatedOrder(init);
      AggregatedKeys(init);
      assert tasks == init + [task];
      AddToGroupOrder(init, Aggregated(init), task);
    }
  }

  /** One step keeps the entries in first-occurrence order of the longer list. */
  lemma AddToGroupOrder(init: seq<Task>, acc: seq<Task>, task: Task)
    requires forall i, j :: 0 <= i < j < |acc| ==> GroupIndex(init, KeyOf(acc[i])) < GroupIndex(init, KeyOf(acc[j]))
    requires forall key :: GroupIndex(acc, key) < |acc| <==> GroupIndex(init, key) < |init|
    ensures forall i, j :: 0 <= i < j < |AddToGroup(acc, task)| ==>
      GroupIndex(init + [task], KeyOf(AddToGroup(acc, task)[i])) < GroupIndex(init + [task], KeyOf(AddToGroup(acc, task)[j]))
  {
    var r := AddToGroup(acc, task);
    var s := init + [task];
    forall i, j | 0 <= i < j < |r|
      ensures GroupIndex(s, KeyOf(r[i])) < GroupIndex(s, KeyOf(r[j]))
    {
      KeptEntryIndex(init, acc, task, i);
      if j < |acc| {
        KeptEntryIndex(init, acc, task, j);
      } else {
        GroupIndexSnoc(init, task, KeyOf(task));
      }
    }
  }

  /** An entry already in the accumulator keeps its key and its first index. */
  lemma KeptEntryIndex(init: seq<Task>, acc: seq<Task>, task: Task, i: nat)
    requires forall key :: GroupIndex(acc, key) < |acc| <==> GroupIndex(init, key) < |init|
    requires i < |acc|
    ensures i < |AddToGroup(acc, task)| && KeyOf(AddToGroup(acc, task)[i]) == KeyOf(acc[i])
    ensures GroupIndex(init + [task], KeyOf(acc[i])) == GroupIndex(init, KeyOf(acc[i])) < |init|
  {
    GroupIndexAt(acc, KeyOf(acc[i]), GroupIndex(acc, KeyOf(acc[i])));
    GroupIndexSnoc(init, task, KeyOf(acc[i]));
  }

  /** An entry of another key is not affected by a new task. */
  lemma EntryKept(init: seq<Task>, task: Task, e: Task)
    requires IsGroupEntry(init, e) && KeyOf(e) != KeyOf(task)
    ensures IsGroupEntry(init + [task], e)
  {
    var s := init + [task];
    GroupIndexSnoc(init, task, KeyOf(e));
    assert s[..|s| - 1] == init;
    assert s[GroupIndex(init, KeyOf(e))] == init[GroupIndex(init, KeyOf(e))];
  }

  /** The entry of the new task's key takes the new task's time. */
  lemma EntryGrows(init: seq<Task>, task: Task, e: Task)
    requires IsGroupEntry(init, e) && KeyOf(e) == KeyOf(task)
    ensures IsGroupEntry(init + [task], e.(elapsedSeconds := e.elapsedSeconds + task.elapsedSeconds))
  {
    var s := init + [task];
    GroupIndexSnoc(init, task, KeyOf(e));
    assert s[..|s| - 1] == init;
    assert s[GroupIndex(init, KeyOf(e))] == init[GroupIndex(init, KeyOf(e))];
  }

  /** A task of a new key becomes its own entry. */
  lemma EntryNew(init: seq<Task>, task: Task)
    requires GroupIndex(init, KeyOf(task)) == |init|
    ensures IsGroupEntry(init + [task], task)
  {
    var s := init + [task];
    GroupIndexSnoc(init, task, KeyOf(task));
    assert s[..|s| - 1] == init;
    GroupTimeAbsent(init, KeyOf(task));
  }

  /** A key that does not occur has no time. */
  lemma {:induction false} GroupTimeAbsent(tasks: seq<Task>, key: GroupKey)
    requires GroupIndex(tasks, key) == |tasks|
    ensures GroupTime(tasks, key) == 0
    decreases |tasks|
  {
    if tasks != [] {
      var init := tasks[..|tasks| - 1];
      assert forall i :: 0 <= i < |init| ==> init[i] == tasks[i];
      GroupIndexAt(init, key, |init|);
      GroupTimeAbsent(init, key);
    }
  }

  /** Aggregating loses and invents no time. */
  lemma {:induction false} AggregatedKeepsTime(tasks: seq<Task>)
    ensures SumElapsed(Aggregated(tasks)) == SumElapsed(tasks)
    decreases |tasks|
  {
    if tasks != [] {
      AggregatedKeepsTime(tasks[..|tasks| - 1]);
      AddToGroupTime(Aggregated(tasks[..|tasks| - 1]), tasks[|tasks| - 1]);
    }
  }

  /** One step adds the task's time. */
  lemma AddToGroupTime(acc: seq<Task>, task: Task)
    ensures SumElapsed(AddToGroup(acc, task)) == SumElapsed(acc) + task.elapsedSeconds
  {
    var k := GroupIndex(acc, KeyOf(task));
    if k < |acc| {
      SumElapsedUpdate(acc, k, acc[k].(elapsedSeconds := acc[k].elapsedSeconds + task.elapsedSeconds));
    } else {
      SumElapsedAppend(acc, [task]);
    }
  }

  /** Replacing one task changes the total by the difference of their times. */
  lemma {:induction false} SumElapsedUpdate(s: seq<Task>, k: nat, t: Task)
    requires k < |s|
    ensures SumElapsed(s[k := t]) + s[k].elapsedSeconds == SumElapsed(s) + t.elapsedSeconds
    decreases |s|
  {
    var s' := s[k := t];
    if k < |s| - 1 {
      assert s'[..|s'| - 1] == s[..|s| - 1][k := t];
      SumElapsedUpdate(s[..|s| - 1], k, t);
    } else {
      assert s'[..|s'| - 1] == s[..|s| - 1];
    }
  }
}
