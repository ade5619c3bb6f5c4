# taime, modelled in Dafny

taime is a browser time tracker. The user starts and stops a timer on tasks. At the end of the
day the tracked tasks are archived into a history of daily records, and each whole minute
earns a point toward levels. Time can be logged to Jira issues, and the history can be
exported and imported. This project models the tracker's local bookkeeping and proves what it
promises. Most modules follow one source file; `TaskInput` follows the task-name handling of the
home page, and `Text` holds the string operations of the JavaScript runtime:

- `Types` (`types.dfy`): the records of `src/types.ts`. A task, a daily record, the history as
  a map from date to record, progress, the goal and the Jira settings. A missing optional
  property is `None`.
- `Home` (`home.dfy`): the home page as a class `HomePage`. Its fields are `tasks`,
  `activeTaskId`, `history` and `progress`, and there is one method per handler: tick, click,
  add, edit, delete, reset day, archive and Jira logging. Also here is the pure
  aggregation of tasks by name, description and issue key.
- `TaskInput` (`task_input.dfy`): how the typed task name is read. A leading issue key
  `^([A-Z][A-Z0-9]+-\d+):?\s*` is split off. The text built when an issue is picked in the
  search results reads back.
- `Jira` (`jira.dfy`): the duration text sent when logging work, the anchored issue-key
  validator, and the search query with its sanitised term.
- `Gamification` (`gamification.dfy`): points per minute, and the level loop.
- `ExportImport` (`export_import.dfy`): the merge of an untrusted imported history into the
  stored one, and the row flattening of the CSV export.
- `I18n` (`i18n.dfy`): three-level translation lookup, substitution of `{{name}}`
  placeholders, and the initial language.
- `Insights` (`insights.dfy`): the real-time insight hook as a class `RealtimeInsights`. It
  holds the two refs and has one `Step` per run of the effect.
- `WeekDays` (`week.dfy`): the seven days of the current week, Monday first. Days are
  numbered from 1970-01-01.
- `Toasts` (`toast.dfy`): the toast list as a class `ToastQueue`, with append and remove by id.
- `Settings` (`settings.dfy`): the settings page as a class `SettingsPage`. It covers the
  clamped hours input, the Jira credentials with their connection test, and clear data.
- `Text` (`text.dfy`): string helpers shared by the above. They cover JavaScript's `trim`
  (ECMAScript white space and line terminators), `toUpperCase` on ASCII letters, decimal
  numerals and first-index search.

Clocks, random ids, today's date key, network outcomes and the user's confirmation are not
computed by the model. They are method parameters. JavaScript's `||` fallback, `replace` with a string pattern
(only the first occurrence, with `$$`, `$&`, `` $` `` and `$'` expanded), `parseInt` and
`Math.floor` are written out explicitly.

The key regexes are matched by a hand-written scanner that takes maximal runs. The character
classes `[A-Z0-9]` and `\d` never match `-`, `:` or white space, and what follows a maximal
run always matches the empty string. So the backtracking engine finds the same match as the
scanner. `Jira.IssueKeyMatcherCorrect` and `TaskInput.KeyMatchEndIff` state this as
equivalences with declarative descriptions of the key format.

## Model

| member | source | states |
|---|---|---|
| Gamification.CalculatePoints | src/utils/gamification.ts:2-4 | the points are the whole minutes of the time, rounded down: `p*60 <= seconds < (p+1)*60` |
| Gamification.CalculatePointsMonotone | src/utils/gamification.ts:2-4 | more time never gives fewer points |
| Gamification.ThresholdGrows | src/utils/gamification.ts:14-18 | each level threshold is at least 100 points above the previous one; level L needs at least 100·(L−1) points |
| Gamification.ThresholdMonotone | src/utils/gamification.ts:14-18 | thresholds strictly increase with the level |
| Gamification.CalculateLevel | src/utils/gamification.ts:7-29 | negative points give level 1 with 100 to go; otherwise the loop stops at the unique level whose band holds the points, reports the next threshold and the in-level pair behind `progress`, and the level is at most 1 + points/100 |
| Gamification.LevelIsUnique | src/utils/gamification.ts:14-18 | at most one level's band holds a given number of points |
| Gamification.LevelMonotone | src/utils/gamification.ts:14-18 | more points never give a lower level |
| Gamification.FirstLevels | src/utils/gamification.ts:8-18 | 0..99 points is level 1 and 100 points is level 2 |
| Gamification.SecondLevelBand | src/utils/gamification.ts:17 | with the level-2 increment JavaScript computes (114), level 2 is exactly 100..213 points |
| Jira.FormatSecondsForJira | src/services/jiraService.ts:9-26 | from one minute up, the text is the hours and the remaining minutes of the floor divisions |
| Jira.TrimDurationParts | src/services/jiraService.ts:17-25 | trimming the joined parts only drops the space left after the hours when there are no minutes |
| Jira.FormatParsesBack | src/services/jiraService.ts:9-26 | the text reads back as the time rounded down to whole minutes, and as one minute below 60 seconds |
| Jira.IsValidIssueKey | src/services/jiraService.ts:133 | renders the anchored test `/^[A-Z][A-Z0-9]+-\d+$/` by a scan of maximal runs; `IssueKeyMatcherCorrect` proves it accepts exactly the key language |
| Jira.IssueKeyMatcherCorrect | src/services/jiraService.ts:133 | the validator accepts exactly: a capital, one or more capitals or digits, `-`, one or more digits, nothing else |
| Jira.MatchedKeyIsValid | src/pages/Home.tsx:82-89 | every key the add-task regex extracts passes the work-log validator |
| Jira.LogWorkRequest | src/services/jiraService.ts:127-138 | a request is built exactly for a valid key, and its `timeSpent` reads back as the whole minutes logged |
| Jira.RemoveJqlSpecials | src/services/jiraService.ts:84 | the result keeps every character except `'`, `"` and `;`, and only those |
| Jira.SanitizeSearchTerm | src/services/jiraService.ts:84 | renders `replace(/['";]/g, '').trim()`; `SanitizeProperties` states what the result is |
| Jira.SanitizeProperties | src/services/jiraService.ts:84 | the sanitised term has no quote or semicolon and no surrounding white space, and sanitising again changes nothing |
| Jira.SearchClause | src/services/jiraService.ts:87 | renders the summary/description/key clause for a sanitised term, the key compared upper-cased; `SearchClauseQuotes` states its quoting |
| Jira.SearchClauseQuotes | src/services/jiraService.ts:87 | for a sanitised term the clause has exactly six double quotes and no semicolon, so the term cannot close a JQL string |
| Jira.ProjectFilterPrefix | src/services/jiraService.ts:88-90 | the `project = '…' AND` prefix is present exactly when the project key is set and non-empty |
| Jira.SearchRequest | src/services/jiraService.ts:82-97 | renders the body posted by `searchJiraIssues`: no call for an empty sanitised term, else the JQL, 10 results and four fields; `SearchRequestShape` states its shape |
| Jira.SearchRequestShape | src/services/jiraService.ts:82-97 | no request for an empty sanitised term; otherwise the query ends in ` ORDER BY updated DESC`, starts with the project filter exactly when a key is set, and carries six quotes and no semicolon |
| TaskInput.ParseTaskName | src/pages/Home.tsx:78-94 | renders the name handling of `handleAddTask`: trim, the blank guard, the key split and the key-as-name fallback; `ParseTaskNameProperties` states its result |
| TaskInput.SelectedIssueText | src/pages/Home.tsx:138 | renders the text `${key}: ${summary}` put in the input when an issue is picked; `SelectIssueRoundTrip` states how it reads back |
| TaskInput.KeyPrefixEnd | src/pages/Home.tsx:82 | the whole match, key plus optional `:` and white space, reaches at least the end of the key |
| TaskInput.KeyMatchEndIff | src/pages/Home.tsx:82-83 | the add-task regex matches exactly when the text opens with a valid key not followed by a digit, and then matches that key |
| TaskInput.ParseTaskNameProperties | src/pages/Home.tsx:77-94 | blank input adds nothing; otherwise the name is non-empty, a key is extracted exactly when the trimmed text opens with one, the name is the trimmed text when there is none, and the key is a valid prefix of it |
| TaskInput.TrimSelectedIssueText | src/pages/Home.tsx:137-140 | trimming `KEY: summary` only trims the summary's end, or leaves `KEY:` for a blank summary |
| TaskInput.SelectIssueRoundTrip | src/pages/Home.tsx:137-140 | adding the text of a picked issue with a valid key gives that key and the trimmed summary, or the key as name when the summary is blank |
| Home.UpdateTask | src/pages/Home.tsx:61-65 | every task with the id is rewritten, every other one kept, the length unchanged |
| Home.FirstIndex | src/pages/Home.tsx:201 | `find` returns the first task with the id, or none when no task has it |
| Home.OccurrencesFound | src/pages/Home.tsx:201 | `find` finds the id exactly when some task carries it |
| Home.UpdateTaskTime | src/pages/Home.tsx:60-67 | a tick adds one second per task with the id and other updates keep the total time |
| Home.TickAddsOneSecond | src/pages/Home.tsx:57-75 | with unique ids a tick adds exactly one second in total when the active task exists, none otherwise |
| Home.RemoveTaskProperties | src/pages/Home.tsx:208 | deleting drops every task with the id and only those, and removes exactly their time |
| Home.WithIdOfUnique | src/pages/Home.tsx:201-208 | with unique ids the tasks the filter drops are just the one `find` returns |
| Home.TrackedTasksHaveTime | src/pages/Home.tsx:184 | reset day archives exactly the tasks with time: every kept task has time and every task with time is kept |
| Home.TrackedTasksAppend | src/pages/Home.tsx:184 | the filter keeps the order of the tasks: it splits over concatenation |
| Home.TrackedTasksKeepTime | src/pages/Home.tsx:184 | leaving out the tasks without time loses no time and no points |
| Home.PointsForBound | src/pages/Home.tsx:159-161 | the points gained are at most the whole minutes of the total time |
| Home.PointsForAppend | src/pages/Home.tsx:159-161 | the points of two lists add up |
| Home.PointsForZero | src/pages/Home.tsx:174 | no points are gained, and so no progress is written, exactly when every task has under a minute |
| Home.Archived | src/pages/Home.tsx:156-171 | renders the history updater: today's record, or an empty one, gets the stamped tasks appended and its total raised by their time; `ArchivedProperties` and `ArchivedWellFormed` state the result |
| Home.Stamped | src/pages/Home.tsx:154 | every task gets the one shared completion date and nothing else changes |
| Home.StampedKeepsTime | src/pages/Home.tsx:154 | stamping keeps the time and the points |
| Home.ArchivedProperties | src/pages/Home.tsx:156-171 | only today's record changes: the stamped tasks follow its own, and its total grows by their time |
| Home.ArchivedWellFormed | src/pages/Home.tsx:163-169 | if every record's total was the sum of its tasks, it still is after archiving |
| Home.SavedProgressGrows | src/pages/Home.tsx:174-179 | progress grows by the points of the tasks and never by more than their whole minutes; the stored level is untouched |
| Home.DeleteKeepsTime | src/pages/Home.tsx:200-209 | the time left in the list plus the time archived equals the time before, and the id is gone |
| Home.PlanLog | src/pages/Home.tsx:245-258 | renders the guards of `handleLogTimeToJira` (no task, no key, no configuration, nothing unlogged) and the request it then sends; `PlanLogProperties` states when a request goes out |
| Home.NewTask | src/pages/Home.tsx:96-104 | renders the task literal of `handleAddTask`: empty description, no time, not synced, nothing logged; `HomePage.AddTask` appends it |
| Home.PlanLogProperties | src/pages/Home.tsx:244-258 | a work-log request is sent exactly for a found task with a valid key, a configuration and unlogged time, and asks for that time in whole minutes |
| Home.LogAgainSendsNothing | src/pages/Home.tsx:251-262 | after a successful log, logging the same task again finds nothing new to log |
| Home.TotalPoints | src/pages/Home.tsx:152-161 | the `forEach` sums `calculatePoints` over the tasks |
| Home.SaveToHistory | src/pages/Home.tsx:147-181 | an empty list changes nothing; otherwise the history and progress are the archived ones |
| Home.HomePage.constructor | src/pages/Home.tsx:27-39 | the page opens on the stored tasks, history and progress with no active task |
| Home.HomePage.TaskClick | src/pages/Home.tsx:143-145 | clicking the active task stops it, clicking another starts that one |
| Home.HomePage.Tick | src/pages/Home.tsx:57-75 | with a non-empty active id one second is added to that task; without one nothing happens |
| Home.HomePage.AddTask | src/pages/Home.tsx:77-108 | blank input changes nothing; otherwise one task is appended with no time, not synced, nothing logged, under the parsed name and key |
| Home.HomePage.SaveTasksToHistory | src/pages/Home.tsx:147-181 | history and progress become the archived ones, tasks and active id unchanged |
| Home.HomePage.ResetDay | src/pages/Home.tsx:183-190 | the tasks with time are archived, then the list is emptied and the timer stopped |
| Home.HomePage.EditTask | src/pages/Home.tsx:192-198 | the tasks with the id get the new name, description and key |
| Home.HomePage.SaveEdit | src/components/TaskItem.tsx:51-58 | a blank name changes nothing; otherwise the trimmed name and description are saved and the issue key is dropped, since the edit form passes none |
| Home.HomePage.DeleteTask | src/pages/Home.tsx:200-209 | the task is archived only when it has time, the active id is cleared only when it was that task, and only that id is removed |
| Home.HomePage.LogTimeToJira | src/pages/Home.tsx:244-268 | the outcome is the planned one, or a failure when the call throws; only a successful log marks the task's time as logged |
| Home.GroupIndex | src/pages/Home.tsx:272 | the accumulator's `find` returns the first entry with the same name, description and key |
| Home.AggregateTasksByName | src/pages/Home.tsx:270-280 | the reduce computes the aggregate one task at a time |
| Home.Aggregated | src/pages/Home.tsx:270-280 | renders the reduce of `aggregateTasksByName` as a fold; the Aggregated* lemmas state its keys, entries, order and time |
| Home.AggregatedKeys | src/pages/Home.tsx:270-280 | the aggregate has no more entries than tasks, and an entry for a key exactly when a task has that key |
| Home.AggregatedDistinct | src/pages/Home.tsx:272-277 | no two entries share a key |
| Home.AggregatedEntries | src/pages/Home.tsx:270-280 | each entry is the first task of its key carrying the summed time of all tasks with that key |
| Home.AggregatedOrder | src/pages/Home.tsx:276 | entries appear in the order their keys first occur |
| Home.AggregatedKeepsTime | src/pages/Home.tsx:274 | the aggregate's total time is the tasks' total time |
| ExportImport.MergeStep | src/utils/exportImportService.ts:46-63 | one iteration of the loop; it fails exactly when the value is null or a valid record sits under an inherited `Object.prototype` name the history lacks |
| ExportImport.Merged | src/utils/exportImportService.ts:41-68 | renders the loop as a fold over the entries, the first failure ending it; the Merged* lemmas state its properties |
| ExportImport.MergeImportedHistory | src/utils/exportImportService.ts:41-68 | the loop computes the merge of the imported dates in order |
| ExportImport.MergedFailsIff | src/utils/exportImportService.ts:44-55 | the merge throws exactly when some imported value is null, or some valid record sits under an inherited name such as `constructor` or `__proto__` that the stored history has no record for (`existingRecord.tasks` is then undefined) |
| ExportImport.MergedInheritedAbsent | src/utils/exportImportService.ts:54-62 | a successful merge adds no record under an inherited name |
| ExportImport.NewTasksAppend | src/utils/exportImportService.ts:57 | the filter keeps the order of the imported tasks |
| ExportImport.NewTasksIds | src/utils/exportImportService.ts:55-57 | the kept tasks have ids the record lacks, and every imported id is either already there or kept |
| ExportImport.MergeStepProperties | src/utils/exportImportService.ts:49-63 | one date changes only when a valid record adds tasks, which follow the existing ones with the total recomputed; other dates are untouched |
| ExportImport.MergedUntouched | src/utils/exportImportService.ts:42-65 | dates not imported keep their records |
| ExportImport.MergedWellFormed | src/utils/exportImportService.ts:59-62 | every total still equals the sum of its record's tasks after the merge |
| ExportImport.MergedCovers | src/utils/exportImportService.ts:55-62 | after the merge every valid imported task id is present on its date |
| ExportImport.MergeCovered | src/utils/exportImportService.ts:57-59 | importing entries that cannot throw and whose ids are all present changes nothing |
| ExportImport.MergedIdempotent | src/utils/exportImportService.ts:41-68 | importing the same file twice gives the same history as once |
| ExportImport.NewTasksAllNew | src/utils/exportImportService.ts:57 | an imported list none of whose ids is stored is kept whole, in order |
| ExportImport.DuplicateIdsKept | src/utils/exportImportService.ts:55-57 | two imported tasks sharing a new id are both kept, since the filter only compares with the stored ids |
| ExportImport.MergedKeepsExisting | src/utils/exportImportService.ts:54-62 | the merge is a union: every stored record survives with its date, its tasks first and in order |
| ExportImport.MergedFromEmpty | src/utils/exportImportService.ts:41-68 | importing an exported consistent history into an empty store restores exactly the records with a non-empty date and at least one task, unchanged, when no date is an inherited property name |
| ExportImport.ExportImportRoundTrip | src/utils/exportImportService.ts:41-68 | export then import into an empty store gives the history back when every record has a date and a task and no date is an inherited property name, as holds of every record the app writes |
| ExportImport.InheritedDateThrows | src/utils/exportImportService.ts:54-55 | a record filed under an inherited name makes the import of the export throw |
| ExportImport.EmptyRecordDropped | src/utils/exportImportService.ts:59-63 | a record with no tasks does not survive the round trip, since a date is written only when a task is added |
| ExportImport.RowOf | src/utils/exportImportService.ts:21-28 | status is `Synced` exactly when the task is synced; missing description and completion date become empty |
| ExportImport.TaskRowsAre | src/utils/exportImportService.ts:20-29 | a record gives one row per task, in order, each with the record's date |
| ExportImport.FlattenedCount | src/utils/exportImportService.ts:20-29 | the flattened records give one row per task |
| ExportImport.RecordsOf | src/utils/exportImportService.ts:20 | `Object.values` lists each date's record once, in key order |
| ExportImport.ExportToCsv | src/utils/exportImportService.ts:19-34 | nothing is exported exactly when no record of the history has a task; otherwise the rows are the flattened records, one per archived task |
| ExportImport.NoRowsIffEmpty | src/utils/exportImportService.ts:31-34 | there are no rows exactly when every record has no tasks |
| I18n.GetInitialLanguage | src/i18n/index.tsx:17-21 | renders `split('-')[0] === 'pt'`; `InitialLanguageIff` states which tags give Portuguese |
| I18n.InitialLanguageIff | src/i18n/index.tsx:17-21 | Brazilian Portuguese exactly for `pt` and `pt-…` tags, English for every other one |
| I18n.Lookup | src/i18n/index.tsx:28 | renders the `||` chain of current language, English and key; `LookupFallback` states it |
| I18n.LookupFallback | src/i18n/index.tsx:28 | current language, then English, then the key; an empty translation counts as missing at both levels; a non-empty key never yields empty text |
| I18n.Find | src/i18n/index.tsx:32 | a found index is an occurrence at or after the start |
| I18n.FindIsFirst | src/i18n/index.tsx:32 | the occurrence found is the first, and none is reported only when there is none |
| I18n.Expand | src/i18n/index.tsx:32 | renders the `$$`, `$&`, `` $` `` and `$'` patterns of a `replace` replacement string; `ExpandLiteral` states the `$`-free case |
| I18n.ExpandLiteral | src/i18n/index.tsx:32 | a value without `$` is inserted as it is |
| I18n.ReplaceFirst | src/i18n/index.tsx:32 | renders `String.prototype.replace` with a string pattern: the first occurrence only; the ReplaceFirst* lemmas state it |
| I18n.ReplaceFirstAbsent | src/i18n/index.tsx:32 | without a placeholder occurrence the text is unchanged |
| I18n.ReplaceFirstKeepsLater | src/i18n/index.tsx:32 | only the first occurrence is replaced: each later one survives, shifted |
| I18n.ReplaceFirstLiteral | src/i18n/index.tsx:32 | with a `$`-free value the first occurrence is replaced by the value |
| I18n.Translated | src/i18n/index.tsx:30-34 | renders the `forEach` over the replacements as a fold; `TranslatedAppend` and `TranslatedOne` state it |
| I18n.T | src/i18n/index.tsx:26-37 | without replacements the looked-up text; with them each replacement applied in order to the previous result |
| I18n.TranslatedAppend | src/i18n/index.tsx:30-34 | a later replacement works on the text earlier ones produced |
| I18n.TranslatedOne | src/i18n/index.tsx:31-33 | a placeholder occurring once with a `$`-free value is replaced by that value |
| Insights.Next | src/hooks/useRealtimeInsights.ts:20-39 | renders one run of the effect: the reset, the permission ask and the interval test; `InactiveResets`, `FiresIff`, `ActiveKeepsMark` and `AskIff` state it |
| Insights.InactiveResets | src/hooks/useRealtimeInsights.ts:22-25 | with no active task or the feature off the mark returns to 0 and nothing is asked or requested |
| Insights.FiresIff | src/hooks/useRealtimeInsights.ts:38-39 | a request goes out exactly when the time is positive and at least 1500 s past the mark, and carries the task's name and time, the new mark |
| Insights.ActiveKeepsMark | src/hooks/useRealtimeInsights.ts:22-39 | while a task runs the mark never goes back, even when the active task changes |
| Insights.AskIff | src/hooks/useRealtimeInsights.ts:28-33 | permission is asked exactly on an active run before any earlier ask, when it is still needed |
| Insights.PermissionAskedAtMostOnce | src/hooks/useRealtimeInsights.ts:28-33 | over any sequence of runs permission is asked at most once |
| Insights.RequestsSpaced | src/hooks/useRealtimeInsights.ts:38-39 | within a stretch of active runs consecutive requests are at least 1500 elapsed seconds apart |
| Insights.RealtimeInsights.constructor | src/hooks/useRealtimeInsights.ts:17-18 | the refs start at 0 and false |
| Insights.RealtimeInsights.Step | src/hooks/useRealtimeInsights.ts:20-58 | one run of the effect updates the refs and returns the ask and the request of the transition |
| Insights.ShowInsight | src/hooks/useRealtimeInsights.ts:41-44 | an empty insight shows nothing; any other one is appended as an `info` toast |
| WeekDays.Weekday | src/utils/date.ts:11 | `getDay()` is in 0..6 |
| WeekDays.WeekStart | src/utils/date.ts:11-15 | renders the Monday adjustment `date - dayOfWeek + (dayOfWeek === 0 ? -6 : 1)`; `WeekStartProperties` states that it is a Monday holding today |
| WeekDays.WeekStartProperties | src/utils/date.ts:14-15 | the week starts on a Monday and today is within its seven days |
| WeekDays.SameWeek | src/utils/date.ts:14 | every day of the listed week has the same start, so it is today's week |
| WeekDays.GetWeekDays | src/utils/date.ts:8-28 | seven entries on consecutive days from the start, keys in order |
| WeekDays.WeekEntries | src/utils/date.ts:17-25 | each entry's key names its date's actual weekday |
| Toasts.WithoutId | src/components/Toast.tsx:50 | renders `filter(t => t.id !== id)`; the WithoutId* lemmas state membership, order and idempotence |
| Toasts.WithoutIdMembers | src/components/Toast.tsx:49-51 | removal leaves exactly the toasts with another id |
| Toasts.WithoutIdAppend | src/components/Toast.tsx:50 | removal keeps the order of the toasts |
| Toasts.WithoutAbsentId | src/components/Toast.tsx:50 | removing an absent id leaves the list unchanged |
| Toasts.WithoutIdIdempotent | src/components/Toast.tsx:49-51 | removing twice is removing once |
| Toasts.ToastQueue.constructor | src/components/Toast.tsx:47 | the list starts empty |
| Toasts.ToastQueue.AddToast | src/components/Toast.tsx:53-57 | exactly one toast is appended, with the clock as id and `info` unless another type is given; its timer removes that id |
| Toasts.ToastQueue.RemoveToast | src/components/Toast.tsx:49-51 | the list becomes the filtered one |
| Toasts.SameMillisecondRemovedTogether | src/components/Toast.tsx:54 | two toasts added in the same millisecond are removed together |
| Toasts.DismissThenTimer | src/components/Toast.tsx:49-56 | a dismissal followed, after newer toasts, by the timer equals the timer alone |
| Settings.ClampHours | src/pages/Settings.tsx:112-121 | the hours are in 0..60, and a parsed value in that range is kept |
| Settings.ParseInt | src/pages/Settings.tsx:113 | renders `parseInt(value, 10)`: leading white space, a sign, the leading digits, NaN as none; `ParseIntNumeral` and `ParseIntNoDigits` state it |
| Settings.ParseIntNumeral | src/pages/Settings.tsx:113 | `parseInt` skips leading white space, reads a sign and digits, and stops at the first non-digit |
| Settings.ParseIntNoDigits | src/pages/Settings.tsx:113-116 | text without digits is NaN and clears the hours to 0 |
| Settings.ClampHoursOfDigits | src/pages/Settings.tsx:112-121 | typed digits are kept up to 60 and cut to 60 above; negative numbers give 0 |
| Settings.ClampHoursOfNumber | src/pages/Settings.tsx:112-121 | the numeral of n gives min(n, 60), and its negation 0 |
| Settings.EnteredConfig | src/pages/Settings.tsx:74-79 | a configuration exists exactly when no input is blank, and it has no project key |
| Settings.EnteredConfigNormalised | src/pages/Settings.tsx:74-80 | a saved configuration has non-empty trimmed fields and is read again unchanged |
| Settings.SettingsPage.constructor | src/pages/Settings.tsx:32-58 | the form shows the stored weekly hours (0 without a goal), insights flag and credentials, with no test status |
| Settings.SettingsPage.HoursChange | src/pages/Settings.tsx:112-121 | the hours become the clamped input, in 0..60 |
| Settings.SettingsPage.SaveGeneralSettings | src/pages/Settings.tsx:66-70 | the goal stored is the hours and insights flag shown |
| Settings.SettingsPage.EditJiraForm | src/pages/Settings.tsx:60-63 | changing a credential input clears the test status |
| Settings.SettingsPage.SaveJiraConfig | src/pages/Settings.tsx:72-85 | the trimmed credentials are stored only when none is blank, the form is refilled with them, and otherwise an error is shown and nothing stored |
| Settings.SettingsPage.TestJiraConnection | src/pages/Settings.tsx:87-110 | a blank input gives an error and no call; otherwise the trimmed credentials are sent and the status is success only when the call answers true |
| Settings.SettingsPage.ClearData | src/pages/Settings.tsx:123-130 | only after confirmation history, tasks and progress are reset to empty, empty and 0 points at level 1 |

## Left out

- Gamification.CalculateLevel: the per-level increment `Math.floor(100 * Math.pow(1.15, level - 1))` is computed in floating point. It is a parameter `inc` with `inc(L) >= 100`, so the contract holds for every such increment rather than the exact JavaScript values. Only the level-2 value, 114, is used (`SecondLevelBand`). The `progress` percentage is kept as the integer pair it is computed from.
- Settings.ParseInt: JavaScript's `parseInt` returns a double. Digit strings beyond 2^53 lose precision there and are exact here. The clamp to 60 makes the hours the same either way.
- ExportImport.MergeImportedHistory: the merge is computed on values. The source copies the history shallowly and `push`es into the existing record's task array. That also mutates the record held by the previous history, and this aliasing is not modelled. The imported object is a sequence of date entries in `for…in` order. An import that is not an object, and per-task shapes other than the `Task` record, are not modelled.
- Home.HomePage.LogTimeToJira: the call is awaited. Ticks that run during the wait, and the toast texts, are not modelled. The state is updated sequentially after the outcome, which is a parameter.
- Home.HomePage.SaveTasksToHistory: the points are summed inside the history updater and read afterwards. This is modelled as sequential code.
- WeekDays.GetWeekDays: dates are day numbers, not `toISOString()` strings. The source takes the local weekday and then prints the UTC date, which can shift by a day near midnight. That mismatch, and `getTodayISOString`, are not modelled.
- Insights.RealtimeInsights.Step: the insight service, the Notification API and its permission prompt, and the notification text are not modelled. When the effect runs is decided by its dependency list. Each run is one `Step`.
- The debounced Jira search of the task input (`src/pages/Home.tsx:110-135`), the response mapping of `searchJiraIssues`, `callJiraApi`, `testJiraConnection` and the HTTP relay: network.
- Calendar sync (`src/pages/Home.tsx:211-242`), the Google sign-in hook and the analysis calls to the AI service: network and external APIs.
- `useLocalStorage`: stored values are plain fields, with no serialisation and no quota errors.
- `JSON.stringify`, `Papa.unparse` (CSV quoting), file download, `alert` and `window.confirm`: the confirmation is a parameter.
- Toast and notification texts, rendering, routing and the percentage bars of the reports: presentation and floating point.
- The timers: `setInterval` is an explicit `Tick` call. The six-second `setTimeout` of a toast is its `RemoveToast` call, and `DismissThenTimer` states its interleaving with a dismissal.
- `UserProgress.level`: it is never derived from points; archiving leaves it as it is and clear data resets it to 1. The level shown is always computed from the points.
- Text.ToUpper: only ASCII letters are upper-cased and the length is kept. JavaScript's `toUpperCase` maps all of Unicode (`é` to `É`, `ß` to `SS`), so Jira.SearchClause, Jira.ProjectFilter and Jira.SearchRequest build a different query for a search term or project key with non-ASCII letters.
- Task times are natural numbers. The source's numbers could be negative or fractional in imported data.
