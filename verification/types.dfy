/** The records the time tracker keeps: live and archived tasks, the per-day archive,
    the history keyed by date, and the user's progress, goal and issue-tracker settings. */
module Types {

  datatype Option<T> = None | Some(value: T)

  /** An operation that either produces a value or fails with a message (a thrown error). */
  datatype Result<T> = Success(value: T) | Failure(error: string)

  /** A unit of tracked work. Optional fields of the stored object are `Option`s:
      `None` is a missing (undefined) property. */
  datatype Task = Task(
    id: string,
    name: string,
    description: Option<string>,
    elapsedSeconds: nat,
    completionDate: Option<string>,
    syncedToCalendar: Option<bool>,
    jiraIssueKey: Option<string>,
    timeLoggedToJiraSeconds: Option<nat>)

  /** The archive of one calendar day. */
  datatype DailyRecord = DailyRecord(date: string, tasks: seq<Task>, totalTime: int)

  /** The whole archive, keyed by date (`YYYY-MM-DD`). */
  type History = map<string, DailyRecord>

  /** Stored progress. `level` is only ever written as 1; the displayed level is derived from `points`. */
  datatype UserProgress = UserProgress(points: int, level: int)

  datatype Goal = Goal(weeklyHours: int, realtimeInsightsEnabled: bool)

  datatype JiraConfig = JiraConfig(domain: string, email: string, apiToken: string, projectKey: Option<string>)

  /** `tasks.reduce((sum, t) => sum + t.elapsedSeconds, 0)`: folded from the left, so the last task is added last. */
  function SumElapsed(tasks: seq<Task>): nat {
    if tasks == [] then 0 else SumElapsed(tasks[..|tasks| - 1]) + tasks[|tasks| - 1].elapsedSeconds
  }

  lemma {:induction false} SumElapsedAppend(a: seq<Task>, b: seq<Task>)
    ensures SumElapsed(a + b) == SumElapsed(a) + SumElapsed(b)
    decreases |b|
  {
    if b == [] {
      assert a + b == a;
    } else {
      assert (a + b)[..|a + b| - 1] == a + b[..|b| - 1];
      SumElapsedAppend(a, b[..|b| - 1]);
    }
  }

  /** The ids occurring in a list of tasks. */
  function Ids(tasks: seq<Task>): (r: set<string>)
    ensures forall i :: 0 <= i < |tasks| ==> tasks[i].id in r
    ensures forall x :: x in r ==> exists i :: 0 <= i < |tasks| && tasks[i].id == x
  {
    set t | t in tasks :: t.id
  }

  /** A record is consistent when it is filed under its own date and its total is the sum of its tasks. */
  predicate WellFormedRecord(date: string, r: DailyRecord) {
    r.date == date && r.totalTime == SumElapsed(r.tasks)
  }

  predicate WellFormedHistory(h: History) {
    forall d :: d in h ==> WellFormedRecord(d, h[d])
  }

  /** The tasks archived under `date`, empty when there is no record. */
  function TasksOn(h: History, date: string): seq<Task> {
    if date in h then h[date].tasks else []
  }
}
