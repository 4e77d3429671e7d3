# CheckIn1507 attendance and task board, modelled in Dafny

CheckIn1507 is a robotics team's attendance tool. Students pick their name,
clock in and out of today's meeting, say what they are working on and raise
"need help" or "need a task" flags. Mentors behind a key see a live status
board and an attendance report for a date range, which they can download as
CSV. A task board lists the team's tasks by status; students join and leave
tasks and post comments, and mentors create, move, archive and assign them.
A manager behind a second key adds and edits students on the roster.

The model covers:

- the Express/PostgreSQL server of the current revision (`server.dfy`), with
  its tables as sequences of rows in a `Database` class whose methods are the
  request handlers;
- the earlier revision of the same server (`legacy.dfy`), which differs in
  the roster handlers and has no sweep and no tasks;
- the row-level SQL behaviour shared by both: sessions and the four-hour
  auto-close sweep (`sessions.dfy`), the roster (`roster.dfy`), the status
  board and report aggregates (`reports.dfy`), and tasks, assignments and
  comments (`tasks.dfy`);
- the key gate and CORS allow-list (`access.dfy`);
- the browser client's request helper (`api_client.dfy`), date coercion and
  formatting (`time_format.dfy`), the task page's grouping, pills and query
  path (`task_page.dfy`), and the mentor page's groups, tiles, badge and CSV
  export (`mentor_view.dfy`);
- the SQL script splitter used to initialise the database (`sqlscript.dfy`).

Shared vocabulary lives in `common.dfy`:

- `JsValue` stands for a dynamically typed JSON body value, with
  JavaScript truthiness and `String()`.
- `Trim` is `String.prototype.trim`.
- `Split` and `JoinWith` are `split` and `join`.

Times are whole seconds and dates are day numbers. The current time and
today's date are parameters of every handler.

The database keeps its table constraints as a class invariant (`Valid`):
- unique student ids and names;
- one session per student and meeting date;
- unique task ids;
- at most one active assignment per task and student;
- serial counters above every id handed out.

Every handler that writes preserves it.

## Model

| member | source | states |
|---|---|---|
| Access.RequireKey | server/src/index.js:73-83 | an unset or empty key answers 500 "`<name>` not configured"; otherwise the request passes exactly when the header equals the key, else 403 "Access denied" |
| Access.MissingHeaderDenied | server/src/index.js:78-79 | with a key configured, a request without the header is refused with 403 |
| Access.AllowList | server/src/index.js:26-29 | every allow-list entry is non-empty, has no surrounding white space, and is the trimmed form of one comma-separated piece |
| Access.CorsAllowed | server/src/index.js:22-32 | no Origin or no CLIENT_ORIGIN allows; otherwise allowed exactly when the origin equals some entry |
| Access.PaddedOriginRefused | server/src/index.js:26-31 | an origin with white space at either end is refused whenever a list is configured |
| Access.ListedOriginAllowed | server/src/index.js:26-30 | a comma-free origin listed with only white space around it is allowed |
| Roster.FindStudent | server/src/index.js:64-71 | the index found holds the id; -1 exactly when no row has it |
| Roster.FindByName | server/src/index.js:693-695 | the index found holds the name; -1 exactly when no row has it |
| Roster.IsActiveStudent | server/src/index.js:64-71 | true exactly when some row with that id is active |
| Roster.ActiveStudents | server/src/index.js:284-289 | exactly the active students, one entry per active row |
| Roster.UpsertByName | CheckIn1507/server/src/index.js:327-337 | a new name is appended active with the fresh id; a known name keeps its row and id, gets the new subteam and is reactivated; ids and names stay unique |
| Roster.UpsertSubteamByName | server/src/index.js:692-698 | as above, except a known name only gets the new subteam and keeps its active flag |
| Sessions.StatusTextInjective | server/src/index.js:101-105 | distinct statuses travel as distinct texts |
| Sessions.PickStatus | server/src/index.js:101-105 | clocked in iff clock-in set and clock-out not; clocked out iff both set; otherwise not clocked in |
| Sessions.NewSession | server/src/index.js:50-62 | the inserted row has the key, is not clocked in and has both flags down |
| Sessions.MergeSubteam | server/src/index.js:123 | a truthy string replaces the stored subteam, anything falsy keeps it |
| Sessions.MergeWorkingOn | server/src/index.js:124 | undefined and null keep the stored text; any string, "" included, overwrites it |
| Sessions.ClockInRow | server/src/index.js:118-131 | the first clock-in time is kept (or set to now), the clock-out cleared, subteam and working-on merged by MergeSubteam and MergeWorkingOn, the task link replaced only when a task is given, the flags kept, so the status becomes clocked in |
| Sessions.ClockOutRow | server/src/index.js:170-179 | only the clock-out becomes now; a day never clocked in stays not clocked in |
| Sessions.UpdateRow | server/src/index.js:196-206 | only subteam, working-on and updated_at change; a truthy subteam is written as its text and a falsy one keeps the old; a working-on other than null or undefined is written, "" included, and a nullish one keeps the old; the status is unchanged |
| Sessions.NeedRow | server/src/index.js:224-237 | the chosen flag takes the value, its time is now when raised and null when lowered; the other flag and the times are untouched |
| Sessions.AutoCloseRow | server/src/index.js:89-99 | an overdue row gets clock-out = clock-in + 4 hours, which is before now, and is clocked out; any other row is unchanged; no row is overdue afterwards |
| Sessions.AutoClosed | server/src/index.js:89-99 | the sweep applies the row rule to every row and keeps the table length |
| Sessions.AutoClosedKeepsKeys | server/src/index.js:89-99 | the sweep keeps every row's key, so one row per student and date survives it |
| Sessions.AutoCloseIdempotent | server/src/index.js:89-99 | sweeping twice at one instant is sweeping once |
| Sessions.AutoCloseLeavesNoOverdue | server/src/index.js:95-97 | after the sweep no row matches the sweep's where clause |
| Sessions.FindSession | server/src/index.js:252-255 | the index found has the key; -1 exactly when no row does |
| Sessions.SessionOn | server/src/index.js:252-257 | the row for the key, or none exactly when no row has it |
| Sessions.Upsert | server/src/index.js:50-62 | an existing row for the key is kept (updated_at refreshed), otherwise a new row is appended; one row per key holds before and after |
| Sessions.ReplaceKeepsKeys | server/src/index.js:118-131 | an UPDATE that keeps a row's key keeps one row per key |
| Reports.BoardRowFor | server/src/index.js:272-288 | the student's fields; the subteam is the day's row's when that row exists and has one, else the student's; session columns from the day's row or null |
| Reports.StatusBoard | server/src/index.js:265-296 | one row per active student, in table order, each built from that student's session on the date |
| Reports.Duration | server/src/index.js:341 | clock-out minus clock-in; zero for a session never clocked out |
| Reports.DaysClockedIn | server/src/index.js:333 | never more than the number of sessions |
| Reports.LastDay | server/src/index.js:334 | the latest counted date, itself the date of a counted session; none exactly when nothing is counted |
| Reports.DatesUnfold | server/src/index.js:333-334 | the counted dates are the first row's date (if counted) plus those of the rest |
| Reports.DaysAreDistinctDates | server/src/index.js:333 | with one session per student and day, the day count equals the number of distinct dates clocked in |
| Reports.TotalNonNegative | server/src/index.js:340-345 | when no session ends before it starts, the total is never negative |
| Reports.NoSessionsZeroRow | server/src/index.js:347-348 | a student with no counted session reports 0 days, no last day and 0 time |
| Reports.ReportRowFor | server/src/index.js:331-350 | the row carries the student's id, name and subteam, and the student's counted days, last day and total seconds over the range; its last day is missing exactly when no day was counted |
| Reports.NoneMeansNoDays | server/src/index.js:333-334 | the last day is missing exactly when the day count is zero |
| Reports.Report | server/src/index.js:315-357 | 400 "Missing start/end" without both ends; otherwise one row per active student |
| TaskBoard.CreateStatus | server/src/index.js:565 | a given valid status string is kept; anything else gives "todo"; the result is always valid |
| TaskBoard.PatchStatus | server/src/index.js:587 | a valid status is written, anything else writes nothing |
| TaskBoard.BumpOnClockIn | server/src/index.js:145-153 | "todo" becomes "in_progress", every other status stays; other fields except updated_at unchanged |
| TaskBoard.NewTask | server/src/index.js:569-573 | trimmed title and subteam, a valid status, the trimmed description or "", not archived |
| TaskBoard.PatchedTask | server/src/index.js:589-606 | a blank title or subteam keeps the old one, an undefined description keeps the old one, an invalid status keeps the old one; id and archived unchanged |
| TaskBoard.FindTask | server/src/index.js:609 | the index found holds the id; -1 exactly when no task has it |
| TaskBoard.UpdateTask | server/src/index.js:597 | the rows with the id are rewritten, the others kept, the length unchanged |
| TaskBoard.Touch | server/src/index.js:501 | only the updated_at of the task with the id changes |
| TaskBoard.BumpTasks | server/src/index.js:145-153 | the task with the id gets the to-do bump, every other task is unchanged |
| TaskBoard.HasActive | server/src/index.js:522 | true exactly when some row for the pair has no unassigned_at |
| TaskBoard.ActiveRows | server/src/index.js:522 | the count of active rows is positive exactly when the pair has one |
| TaskBoard.OneActiveAtMostOne | server/src/index.js:522 | under the partial unique index a pair has at most one active row |
| TaskBoard.AddAssignment | server/src/index.js:518-525 | a row is appended only when the pair has no active row; the index is never violated and the pair ends with an active row |
| TaskBoard.Unassign | server/src/index.js:541-548 | only the pair's active rows get unassigned_at = now; every row is kept; the index still holds and the pair has no active row |
| TaskBoard.JoinTwice | server/src/index.js:517-525 | joining twice leaves exactly one active row for the pair |
| TaskBoard.RejoinAfterLeave | server/src/index.js:518-548 | leave then join keeps the stamped old row, appends one new active row, and leaves exactly one active row |
| TaskBoard.ResolveAuthor | server/src/index.js:479-490 | a truthy student id resolves to that student (404 "Student not found" when there is none); otherwise a mentor labelled by the trimmed label, or "Mentor" when blank |
| TaskBoard.NewComment | server/src/index.js:492-498 | a student author is written as "student" with their name, any other as "mentor" with its label |
| TaskBoard.CommentsOf | server/src/index.js:455-467 | exactly the task's comments, never more than the table holds |
| TaskBoard.CommentsOfAppend | server/src/index.js:455-467 | selection keeps order: the comments of a joined table are the joined selections |
| TaskBoard.CommentsOfChronological | server/src/index.js:461-462 | on a table in creation order the selected comments are in `created_at` ascending order |
| TaskBoard.LastCommentAt | server/src/index.js:393-397 | the latest creation time among the task's comments, none when there is no comment |
| TaskBoard.LastAssignedAt | server/src/index.js:398-403 | the latest assignment time among the task's active rows, none when there is none |
| TaskBoard.LastActivity | server/src/index.js:413-417 | no earlier than updated_at, the last comment and the last active assignment, and equal to one of them or the epoch |
| TaskBoard.PreEpochActivity | server/src/index.js:413-417 | the epoch is only the `coalesce` fallback: with a comment and an active assignment, all before 1970, the last activity is before the epoch |
| TaskBoard.CommentRefreshes | server/src/index.js:418-424 | a comment on the task within the last three days makes it not stale |
| TaskBoard.UntouchedIsStale | server/src/index.js:418-424 | a task whose update, comments and active assignments are all older than three days is stale |
| TaskBoard.IncludeArchivedFlag | server/src/index.js:369 | true exactly when the parameter is present and spells "true" in any mix of cases; false when absent |
| TaskBoard.ArchivedSpellings | server/src/index.js:369-387 | "true", "TRUE" and "tRuE" show archived tasks; "yes", "1", "" and "true " hide them |
| TaskBoard.ParseFilter | server/src/index.js:367-369 | absent subteam and status filter nothing; given ones are trimmed; the archived flag is parsed as above |
| TaskBoard.Assignees | server/src/index.js:425-434 | every listed student has an active assignment on the task and is listed with the name of its student row |
| TaskBoard.AssigneesComplete | server/src/index.js:428-433 | every active assignment of the task whose student row exists is listed with that student's id and name |
| TaskBoard.Annotate | server/src/index.js:404-434 | the row carries the task, its status rank, its last activity, its staleness and the task's Assignees |
| TaskBoard.SelectTasks | server/src/index.js:375-389 | exactly the tasks the filter selects |
| TaskBoard.Rank | server/src/index.js:436-443 | between 1 and 5, and 5 exactly for a status outside the four |
| TaskBoard.Insert | server/src/index.js:436-444 | the result is the input plus the new row, as a multiset |
| TaskBoard.InsertOrdered | server/src/index.js:436-444 | inserting into an ordered listing keeps it ordered |
| TaskBoard.SortRows | server/src/index.js:436-444 | the result is ordered and a permutation of the input |
| TaskBoard.ListTasks | server/src/index.js:365-453 | the listing holds exactly the selected tasks, annotated, as a permutation, ordered by rank and then most recently updated first |
| TaskBoard.ListedInRankOrder | server/src/index.js:436-444 | for any two listed rows, an earlier one has a rank no greater, and with equal rank was updated no earlier |
| Server.Refusal | server/src/index.js:76-79 | the gate's 500 or 403 refusal becomes the handler's error with the same code and message |
| Server.PatchStudentRow | server/src/index.js:706-715 | a blank name keeps the old one, a given one is trimmed; a nullish subteam keeps the old one; a missing is_active keeps the flag; the id is unchanged |
| Server.Database.AutoCloseOldSessions | server/src/index.js:89-99 | the session table becomes the swept table; no other table changes |
| Server.Database.ClockIn | server/src/index.js:108-160 | 400 without a student id, 404 unless active; otherwise the sweep, the upsert and the clock-in update of today's row, for a truthy task the idempotent assignment and to-do bump; the reply is the row and "clocked_in" |
| Server.Database.AssignOnClockIn | server/src/index.js:134-153 | the student gains an open assignment to the task unless one is already open (at most one open row per pair is kept), the task is bumped, ids stay unique and below the counters, and nothing else changes |
| Server.Database.ClockOut | server/src/index.js:162-185 | the same checks; the upsert and the clock-out update; the reply's status is clocked out exactly when the day was clocked in |
| Server.Database.UpdateSession | server/src/index.js:188-212 | the same checks; the upsert and the partial update of today's row |
| Server.Database.Need | server/src/index.js:215-243 | 400 "Missing studentId", 400 "Invalid type" unless "help" or "task", 404 unless active; then the chosen flag set to the truthiness of the value |
| Server.Database.Today | server/src/index.js:246-262 | the sweep first, then 404 unless active, else today's row and its status or none and "not_clocked_in" |
| Server.Database.MentorStatus | server/src/index.js:265-296 | behind the mentor key; the sweep, then the status board for the date or today |
| Server.Database.MentorReport | server/src/index.js:315-357 | behind the mentor key; the sweep, then the report of the range or 400 |
| Server.Database.GetTasks | server/src/index.js:365-453 | the listing of the parsed filter; nothing changes |
| Server.Database.GetComments | server/src/index.js:455-471 | exactly CommentsOf the table for the task, so in table order (creation order by CommentsOfChronological); nothing changes |
| Server.Database.PostComment | server/src/index.js:473-507 | 400 "Missing comment" for a blank one, 404 for an unknown student; otherwise the trimmed comment is appended under the resolved author and the task touched |
| Server.Database.JoinTask | server/src/index.js:509-533 | 400 without a student id, 404 unless active; otherwise the idempotent assignment and the touch |
| Server.Database.LeaveTask | server/src/index.js:535-556 | 400 without a student id; otherwise the pair's active row is stamped and the task touched, with no active check |
| Server.Database.AssignTask | server/src/index.js:645-669 | behind the mentor key, then the same rule as join |
| Server.Database.CreateTask | server/src/index.js:559-580 | behind the mentor key; 400 "Missing title" or "Missing subteam" when blank; otherwise a new task with the next id is appended |
| Server.Database.PatchTask | server/src/index.js:582-614 | behind the mentor key; 404 when no task has the id; otherwise the task is replaced by its patched form |
| Server.Database.SetArchived | server/src/index.js:617-643 | behind the mentor key; 404 when no task has the id; otherwise only archived and updated_at change |
| Server.Database.AdminAddStudent | server/src/index.js:688-700 | behind the manager key; 400 for a falsy name; otherwise the upsert of the trimmed name, the serial advancing on every attempt |
| Server.Database.AdminPatchStudent | server/src/index.js:702-720 | behind the manager key; 404 when no student has the id; a name held by another student changes nothing; otherwise the row is patched |
| Legacy.AddedSubteam | CheckIn1507/server/src/index.js:336 | a falsy or blank subteam is null, a string is trimmed, any other truthy value throws |
| Legacy.PatchedSubteam | CheckIn1507/server/src/index.js:351-359 | an absent or empty subteam keeps the stored one; anything else is written as its trimmed text |
| Legacy.BooleanOnly | CheckIn1507/server/src/index.js:360 | only a boolean value sets is_active |
| Legacy.PatchStudentRow | CheckIn1507/server/src/index.js:347-361 | a falsy or blank name keeps the old one; subteam and flag follow the two rules above; the id is unchanged |
| Legacy.LegacyDatabase.ClockIn | CheckIn1507/server/src/index.js:82-109 | 400, 404, then the upsert and clock-in update; no sweep, no task touched |
| Legacy.LegacyDatabase.ClockOut | CheckIn1507/server/src/index.js:112-135 | the same checks, the upsert and the clock-out update |
| Legacy.LegacyDatabase.UpdateSession | CheckIn1507/server/src/index.js:138-162 | the same checks, the upsert and the partial update |
| Legacy.LegacyDatabase.Need | CheckIn1507/server/src/index.js:165-193 | 400, 400 "Invalid type", 404, then the flag toggle |
| Legacy.LegacyDatabase.Today | CheckIn1507/server/src/index.js:196-211 | 404 unless active, else today's row and status; nothing is written |
| Legacy.LegacyDatabase.MentorStatus | CheckIn1507/server/src/index.js:214-244 | behind the mentor key; the status board; nothing is written |
| Legacy.LegacyDatabase.MentorReport | CheckIn1507/server/src/index.js:262-303 | behind the mentor key; the report or 400; nothing is written |
| Legacy.LegacyDatabase.AdminAddStudent | CheckIn1507/server/src/index.js:323-339 | behind the manager key; 400 "Missing fullName" for a falsy or blank name, 500 for a non-string subteam; otherwise the upsert that reactivates |
| Legacy.LegacyDatabase.AdminPatchStudent | CheckIn1507/server/src/index.js:342-366 | behind the manager key; 400 "Invalid id" for id 0, 404 when absent, no change on a name clash, otherwise the patched row |
| Legacy.ReAddReactivates | CheckIn1507/server/src/index.js:329-333 | re-adding a deactivated student reactivates the same row, where the current revision's upsert leaves it inactive |
| SqlScript.RestOfLine | server/scripts/initdb.js:9 | a suffix of the text that is empty or starts with a line terminator, shorter than the text when the text does not start with one |
| SqlScript.StripComments | server/scripts/initdb.js:9 | the result holds no `--` and is no longer than the text; text not starting a comment keeps its first character; a comment leaves nothing or a line terminator first |
| SqlScript.StripCommentLine | server/scripts/initdb.js:9 | the text before a `--` survives whole, the comment up to its line terminator is removed, and stripping continues from the terminator |
| SqlScript.StripLeadingComment | server/scripts/initdb.js:9 | a comment at the start is removed up to its line terminator |
| SqlScript.StripWithoutComment | server/scripts/initdb.js:9 | text without `--` passes through unchanged |
| SqlScript.SplitSql | server/scripts/initdb.js:7-15 | every statement is non-empty, holds no `;` and no `--`, and is trimmed; the statements are the non-empty trimmed pieces of the stripped text |
| SqlScript.SplitSqlJoin | server/scripts/initdb.js:11-14 | statements joined by `;` without comments split back into their trimmed forms, in order and with repetitions, empty ones dropped |
| SqlScript.SplitSqlStatements | server/scripts/initdb.js:7-15 | a script of trimmed, non-empty statements joined by `;` yields exactly those statements in order |
| SqlScript.QuotedSemicolonSplits | server/scripts/initdb.js:11-14 | a `;` inside a string literal still ends a statement |
| SqlScript.QuotedTextKept | server/scripts/initdb.js:9 | the quoted text `';'` holds no `--`, so comment stripping leaves it whole |
| SqlScript.QuotedTextSplit | server/scripts/initdb.js:12 | splitting the quoted text `';'` at `;` cuts the literal into two pieces, `'` and `'` |
| SqlScript.QuotedDashesStrip | server/scripts/initdb.js:9 | a `--` inside a literal removes the rest of its line |
| ApiClient.PathsExclusive | client/src/api.js:5-19 | no path is both a mentor or task path and an admin path |
| ApiClient.KeyFor | client/src/api.js:3-21 | the stored mentor key on mentor and task paths, the stored manager key on admin paths, no key elsewhere; never an empty key |
| ApiClient.Attached | client/src/api.js:3-21 | the chosen key under x-access-key, every other header as it was |
| ApiClient.Headers.WithAccessKey | client/src/api.js:3-21 | the header object becomes the attached headers of its old contents |
| ApiClient.ComputedHeaders | client/src/api.js:24-27 | Content-Type defaults to JSON, the caller's other headers are kept, the key is attached |
| ApiClient.SentHeaders | client/src/api.js:29-32 | a caller's headers replace the computed ones entirely; without them the computed ones are sent |
| ApiClient.RequestHeaders | client/src/api.js:23-32 | the headers built step by step equal the sent headers |
| ApiClient.AccessHeader | server/src/index.js:78 | the x-access-key value when present, none otherwise |
| ApiClient.TaskWriteLosesAccessKey | client/src/pages/Tasks.jsx:96-131 | a task write with `headers: {"x-app-key": k}` sends no x-access-key and no Content-Type, and the server answers 403 |
| ApiClient.FixedSentHeaders | client/src/api.js:29-32 | with the intended merge the caller's headers are kept |
| ApiClient.FixedTaskWriteKeepsAccessKey | client/src/api.js:29-32 | with the intended merge a task write carries the stored key and JSON content type and passes the key check |
| ApiClient.FailureMessage | client/src/api.js:34-36 | the server's truthy error text, else "Request failed"; never empty |
| ApiClient.ServerErrorShown | client/src/api.js:34-36 | a non-empty server error is raised with exactly that text |
| TimeFormat.TimeClip | client/src/time.js:11 | a time within 8.64e15 ms either side of the epoch is that instant, any other is an invalid date |
| TimeFormat.DateOnlyIsRegex | client/src/time.js:15 | the date-only test holds exactly when the regular expression matches |
| TimeFormat.DigitValue | client/src/time.js:17-19 | the value of a decimal digit, 0 to 9 |
| TimeFormat.DigitValueExact | client/src/time.js:17-19 | each digit's value is its place in "0123456789", the inverse of the digit printed for that value |
| TimeFormat.UtcNoon | client/src/time.js:21 | the instant is at noon of its day |
| TimeFormat.NoonOfDay | client/src/time.js:21 | noon of a day falls within that day |
| TimeFormat.DateOnlyInstant | client/src/time.js:16-21 | a date-only text gives the instant at noon UTC of its day |
| TimeFormat.CoerceDate | client/src/time.js:6-26 | null for a falsy value, a Date unchanged, a number through TimeClip, a date-only string at noon UTC, anything else to the built-in parser |
| TimeFormat.PaddingIgnored | client/src/time.js:15 | surrounding white space does not change a date-only string's day |
| TimeFormat.MonthOverflow | client/src/time.js:21 | month 13 is January of the next year and month 00 December of the previous one |
| TimeFormat.NextDay | client/src/time.js:21 | consecutive day fields are exactly one day apart |
| TimeFormat.EpochDay | client/src/time.js:21 | "1970-01-01" is day zero |
| TimeFormat.LeadingZeroYear | client/src/time.js:17-21 | a "00yy" date-only text means the same date as "19yy" |
| TimeFormat.NotDateOnly | client/src/time.js:15-25 | the texts "2024-03-05T10:00" (a time part) and "2024-3-05" (a one-digit month) go to the built-in parser |
| TimeFormat.Render | client/src/time.js:30-38 | an invalid date gives the fallback text; any valid date is rendered in the formatter's style |
| TimeFormat.FormatDateEastern | client/src/time.js:28-40 | an omitted or `undefined` argument renders now as a date; any other falsy one gives ""; a truthy one renders its coerced date as a date with "" as fallback |
| TimeFormat.FormatTimeEastern | client/src/time.js:42-53 | a falsy input gives "—"; any other renders its coerced date as a time with "—" as fallback |
| TimeFormat.FormatDateTimeEastern | client/src/time.js:55-69 | a falsy input gives "—"; any other renders its coerced date as date and time with "—" as fallback |
| TimeFormat.FormattersDiffer | client/src/time.js:28-69 | on a date that coerces to a valid instant the three formatters show it in three different styles |
| TimeFormat.FalsyTimesShowDash | client/src/time.js:28-43 | a null clock-out and the epoch timestamp 0 are both shown as a dash; a null date shows "" and an `undefined` one the current date |
| TaskPage.ColumnOf | client/src/pages/Tasks.jsx:86-87 | each of the four statuses has its own column; any other status is "To Do" |
| TaskPage.InColumn | client/src/pages/Tasks.jsx:87 | exactly the tasks whose status belongs to the column |
| TaskPage.Push | client/src/pages/Tasks.jsx:87 | one push adds exactly one task to the board |
| TaskPage.Grouped | client/src/pages/Tasks.jsx:85-89 | the loop builds the board whose columns hold exactly their tasks in order, with as many tasks as the listing |
| TaskPage.GroupingSnoc | client/src/pages/Tasks.jsx:87 | grouping one more task is pushing it onto the grouping of the others |
| TaskPage.ColumnsPartition | client/src/pages/Tasks.jsx:85-89 | the four columns together are the listing, as a multiset, and their sizes add up to it |
| TaskPage.UnknownStatusIsToDo | client/src/pages/Tasks.jsx:87 | a task with an unknown status is shown under "To Do" |
| TaskPage.NumberOf | client/src/pages/Tasks.jsx:93 | a blank text reads as 0, as `Number` does |
| TaskPage.NumberOfDecimal | client/src/pages/Tasks.jsx:93 | the decimal text of any id reads back as that id |
| TaskPage.DecimalDigitsValue | client/src/pages/Tasks.jsx:93 | the digits' value inverts printing a natural number in decimal |
| TaskPage.IsAssigned | client/src/pages/Tasks.jsx:91-94 | false with no selection; otherwise whether some assignee's id equals the selected number |
| TaskPage.SelectedIdMatches | client/src/pages/Tasks.jsx:91-94 | the selection "12" matches exactly the tasks that student 12 is assigned to |
| TaskPage.PillStyle | client/src/pages/Tasks.jsx:15-28 | each status has its own classes; any other key looks like "todo" |
| TaskPage.PillsDistinct | client/src/pages/Tasks.jsx:15-28 | the four pills differ from one another |
| TaskPage.TasksPath | client/src/pages/Tasks.jsx:60-64 | without the archived flag the path is "/api/tasks" for "All" and carries "?subteam=" and the encoded subteam otherwise |
| TaskPage.OneQueryStart | client/src/pages/Tasks.jsx:61-62 | with an encoded subteam the path has one `?` once it carries any parameter, and the archived flag joins with the right separator |
| MentorView.Get | client/src/pages/MentorUI.jsx:19 | undefined when no key matches; the first entry's value when its key matches |
| MentorView.GetFirst | client/src/pages/MentorUI.jsx:19 | the value of the first entry named by the key, wherever it stands |
| MentorView.CellText | client/src/pages/MentorUI.jsx:17 | "" for null and undefined, a string's own text |
| MentorView.Doubled | client/src/pages/MentorUI.jsx:17 | every quote doubled: the length grows by the number of quotes |
| MentorView.Esc | client/src/pages/MentorUI.jsx:17 | the cell holds the same characters as the value's text apart from quotes |
| MentorView.NoRowsNoText | client/src/pages/MentorUI.jsx:18-19 | with no rows the text is empty |
| MentorView.ReadQuotedLine | client/src/pages/MentorUI.jsx:17-19 | a line of quoted cells joined by commas reads back as the texts |
| MentorView.DataLineReadsBack | client/src/pages/MentorUI.jsx:17-19 | each data line reads back as the row's cell texts under the header keys |
| MentorView.CsvLines | client/src/pages/MentorUI.jsx:17-19 | with single-line values and plain keys: one line per row plus the header, the header splits into the keys, each data line reads back as its row |
| MentorView.Filter | client/src/pages/MentorUI.jsx:71-76 | exactly the rows satisfying the test, never more than the rows |
| MentorView.GroupsFollowStatus | client/src/pages/MentorUI.jsx:71-73 | "in", "out" and "not in" are the rows whose status is clocked in, clocked out and not clocked in |
| MentorView.GroupsPartition | client/src/pages/MentorUI.jsx:71-73 | each row lands in exactly one group, and the groups make up all rows |
| MentorView.HelpTaskTile | client/src/pages/MentorUI.jsx:75-76 | the tile is never more than twice the number of rows |
| MentorView.TileCountsBothTwice | client/src/pages/MentorUI.jsx:138 | the tile is the number with either flag plus the number with both, so a student needing both counts twice |
| MentorView.Badge | client/src/pages/MentorUI.jsx:180 | "IN", "OUT" and "—" exactly for clocked in, clocked out and not clocked in |
| Common.TrimShape | client/src/time.js:15 | the trimmed text is the text with white space cut from both ends, and has none left at either end |
| Common.TrimIdempotent | server/src/index.js:28 | trimming twice is trimming once |
| Common.Split | server/src/index.js:26-28 | one piece more than separators, no piece holds the separator, and joining them gives the text back |
| Common.SplitJoin | client/src/pages/MentorUI.jsx:19 | splitting a join of separator-free pieces gives the pieces back |
| Common.TrimAll | server/src/index.js:28 | each piece trimmed, length kept |
| Common.NonEmpty | server/src/index.js:29 | exactly the non-empty pieces, never more than the pieces |
| Common.NonEmptyAppend | server/src/index.js:29 | filtering keeps order: the kept pieces of a joined list are those of each part, joined |
| Common.NonEmptyAllKept | server/src/index.js:29 | a list with no empty piece is kept whole, in order |

## Left out

- The mentor student card (server/src/index.js:299-312 and CheckIn1507/server/src/index.js:247-259), `GET /api/students` and `GET /api/admin/students` are plain reads. They are not modelled.
- ORDER BY over full names is not modelled: collation depends on the database. Board, report and roster rows and task assignees come in table order, not name order. Comments come in table order. `TaskBoard.CommentsOfChronological` shows that this is `created_at` order whenever the table is, but nothing in the model forces comments to be appended in time order.
- Report hours are kept as whole seconds. The division by 3600 and the rounding to two decimals are floating point and are not modelled.
- Time zones and `Intl.DateTimeFormat` are not modelled. The Eastern "today" is a parameter, as is the current time. `Render` answers an opaque formatted value for a valid date.
- The built-in `Date` string parser is not modelled. Non-date-only strings become an opaque `Parsed` value.
- `Number()` of a route id is an integer parameter. NaN and non-decimal spellings are not modelled, and the task page's `Number(studentId)` is modelled only for decimal digit texts.
- No schema file is part of this model, so foreign keys are not modelled. A comment or assignment on an unknown task id is inserted, and an UPDATE of an unknown task id touches no row.
- Handlers of the current revision's admin routes have no `try`. A database error there is an unhandled rejection, modelled as a failure that changes nothing.
- Legacy.LegacyDatabase.AdminPatchStudent: the earlier revision's PATCH handler (CheckIn1507/server/src/index.js:342-366) has no `try` either, so a rename onto another student's name violates the unique constraint and the request is never answered. It is modelled as `Err(500, "duplicate full_name")` that changes nothing.
- The mentor status and report handlers of both revisions (server/src/index.js:265-296 and 315-357, CheckIn1507/server/src/index.js:213 and 261) have no `try`. A `date`, `start` or `end` text the database cannot cast to a date fails the query and the request is never answered. Dates are day numbers here, so a malformed date text cannot be expressed.
- The current revision's `is_active ?? null` on a non-boolean is modelled as `Option<bool>`. Other JSON types for that field are not modelled.
- `encodeURIComponent` is a parameter of `TaskPage.TasksPath`, assumed free of `?`.
- Statuses naming `Object.prototype` members (such as "constructor") are not modelled in `grouped`.
- Legacy.AddedSubteam: a truthy non-string subteam makes the async handler throw outside any `try`, so the request never gets an answer. It is modelled as an error result that changes nothing.
- A report row record is a list of properties with distinct names, as the rows the server sends. `JSON.parse` keeping the last of repeated names and `Object.keys` listing integer-like names first are not modelled.
- MentorView.CsvLines: the line-count and read-back property is proved only for single-line values and for keys without commas or newlines. Values with newlines are quoted correctly but span several lines.
- The `toTime` and `todayISO` helpers of the mentor page and the DOM download of the CSV blob are not modelled. The download is guarded by a non-empty report.
- Concurrent requests and transactions are not modelled. Each handler runs atomically against the tables.
- Express, pg connection handling, static file serving and the remaining page components are not modelled.

## Findings

| source | as written | input that shows it | evidently intended | confidence | as-written member | corrected member |
|---|---|---|---|---|---|---|
| client/src/api.js:29-32 | `fetch(path, {headers, ...options})` lets `options.headers` replace the computed headers, which hold Content-Type and x-access-key | the task page's mentor create or move calls `api` with `headers: {"x-app-key": key}` while a mentor key is stored; the request carries no x-access-key and the server answers 403 "Access denied" | `{...options, headers}`, so the computed headers, which already include the caller's, are sent | not executed | ApiClient.TaskWriteLosesAccessKey | ApiClient.FixedTaskWriteKeepsAccessKey |
