/**
 * The current server revision as one database object. The five tables are
 * fields; every route handler is a method that checks its request, runs
 * its SQL statements in order as updates of those fields, and answers with
 * the JSON reply or an HTTP error. `now` is the database clock and `today`
 * the Eastern calendar date at `now`; both are parameters.
 */
module Server {
  import opened Common
  import opened Roster
  import opened Sessions
  import opened TaskBoard
  import opened Reports
  import opened Access

  /** The reply of the student session handlers: the row after the update and its status. */
  datatype SessionReply = SessionReply(session: Session, status: Status)

  /** The reply of `GET /api/student/today/:id`: today's row if there is one. */
  datatype TodayReply = TodayReply(session: Option<Session>, status: Status)

  /** The gate's refusal as a handler result. */
  function Refusal<T>(g: Gate): (r: Result<T>)
    requires g.Deny?
    ensures r.Err? && r.code == g.code && r.message == g.message
  {
    Err(g.code, g.message)
  }

  /**
   * The row `PATCH /api/admin/students/:id` writes: a blank name keeps the
   * old one (a given name is trimmed), a nullish subteam keeps the old one
   * (anything else is written untrimmed, "" included), a missing is_active
   * keeps the old flag.
   */
  function PatchStudentRow(s: Student, fullName: JsValue, subteam: JsValue, isActive: Option<bool>): (r: Student)
    ensures r.id == s.id
    ensures r.fullName == if TrimmedText(fullName) == "" then s.fullName else TrimmedText(fullName)
    ensures Nullish(subteam) ==> r.subteam == s.subteam
    ensures !Nullish(subteam) ==> r.subteam == Some(JsString(subteam))
    ensures r.isActive == if isActive.Some? then isActive.value else s.isActive
  {
    var name := TrimmedText(fullName);
    s.(fullName := if name == "" then s.fullName else name,
       subteam := if Nullish(subteam) then s.subteam else Some(JsString(subteam)),
       isActive := if isActive.Some? then isActive.value else s.isActive)
  }

  class Database {
    /** `process.env.MENTOR_KEY`, guarding the mentor views and the task writes. */
    const mentorKey: Option<string>
    /** `process.env.MANAGER_KEY`, guarding the roster administration. */
    const managerKey: Option<string>

    var students: seq<Student>
    var sessions: seq<Session>
    var tasks: seq<Task>
    var assignments: seq<Assignment>
    var comments: seq<Comment>
    /** The serial sequences behind the id columns. */
    var nextStudentId: int
    var nextTaskId: int
    var nextCommentId: int

    /**
     * The table constraints: unique student ids and names, one session per
     * student and date, unique task ids, at most one active assignment per
     * task and student, and serial counters above every id handed out.
     */
    ghost predicate Valid()
      reads this
    {
      UniqueIds(students) && UniqueNames(students) && IdsBelow(students, nextStudentId)
      && UniqueKeys(sessions)
      && UniqueTaskIds(tasks) && TaskIdsBelow(tasks, nextTaskId)
      && OneActive(assignments)
    }

    /** An empty database with the two configured keys. */
    constructor (mentorKey: Option<string>, managerKey: Option<string>)
      ensures Valid()
      ensures this.mentorKey == mentorKey && this.managerKey == managerKey
      ensures students == [] && sessions == [] && tasks == [] && assignments == [] && comments == []
    {
      this.mentorKey := mentorKey;
      this.managerKey := managerKey;
      students := [];
      sessions := [];
      tasks := [];
      assignments := [];
      comments := [];
      nextStudentId := 1;
      nextTaskId := 1;
      nextCommentId := 1;
    }

    /**
     * `autoCloseOldSessions`: every session open for more than four hours
     * is closed at exactly four hours after its clock-in; nothing else
     * changes.
     */
    method AutoCloseOldSessions(now: Time)
      requires Valid()
      modifies this
      ensures Valid()
      ensures sessions == AutoClosed(old(sessions), now)
      ensures forall i :: 0 <= i < |sessions| ==> !Overdue(sessions[i], now)
      ensures students == old(students) && tasks == old(tasks) && assignments == old(assignments)
      ensures comments == old(comments)
      ensures nextStudentId == old(nextStudentId) && nextTaskId == old(nextTaskId) && nextCommentId == old(nextCommentId)
    {
      AutoClosedKeepsKeys(sessions, now);
      sessions := AutoClosed(sessions, now);
    }

    /* ---------------- Student session handlers ---------------- */

    /**
     * `POST /api/student/clock-in`: 400 without a student id, 404 unless the
     * student is active; then the sweep, the upsert of today's row, the
     * clock-in UPDATE, and for a truthy task id the idempotent assignment
     * and the to-do bump of that task.
     */
    method ClockIn(studentId: Option<int>, subteam: JsValue, workingOn: JsValue, taskId: Option<int>, today: Date, now: Time)
      returns (r: Result<SessionReply>)
      requires Valid()
      modifies this
      ensures Valid()
      ensures !PresentId(studentId) ==> r == Err(400, "Missing studentId") && unchanged(this)
      ensures PresentId(studentId) && !IsActiveStudent(old(students), studentId.value) ==>
                r == Err(404, "Student not found") && unchanged(this)
      ensures PresentId(studentId) && IsActiveStudent(old(students), studentId.value) ==>
                var up := Upsert(AutoClosed(old(sessions), now), studentId.value, today, now);
                sessions == up.0[up.1 := ClockInRow(up.0[up.1], subteam, workingOn, taskId, now)]
                && r == Ok(SessionReply(sessions[up.1], ClockedIn))
      ensures PresentId(studentId) && IsActiveStudent(old(students), studentId.value) && PresentId(taskId) ==>
                assignments == AddAssignment(old(assignments), taskId.value, studentId.value, now)
                && tasks == BumpTasks(old(tasks), taskId.value, now)
      ensures !PresentId(taskId) ==> assignments == old(assignments) && tasks == old(tasks)
      ensures students == old(students) && comments == old(comments)
      ensures nextStudentId == old(nextStudentId) && nextTaskId == old(nextTaskId) && nextCommentId == old(nextCommentId)
    {
      if !PresentId(studentId) {
        return Err(400, "Missing studentId");
      }
      var sid := studentId.value;
      if !IsActiveStudent(students, sid) {
        return Err(404, "Student not found");
      }
      AutoCloseOldSessions(now);
      var up := Upsert(sessions, sid, today, now);
      var row := ClockInRow(up.0[up.1], subteam, workingOn, taskId, now);
      ReplaceKeepsKeys(up.0, up.1, row);
      sessions := up.0[up.1 := row];
      if PresentId(taskId) {
        AssignOnClockIn(taskId.value, sid, now);
      }
      r := Ok(SessionReply(row, PickStatus(row)));
    }

    /**
     * The clock-in's task step: an open assignment of the student to the
     * task unless one exists, and the task's `updated_at` bumped.
     */
    method AssignOnClockIn(taskId: int, studentId: int, now: Time)
      requires Valid()
      modifies this
      ensures Valid()
      ensures assignments == AddAssignment(old(assignments), taskId, studentId, now)
      ensures tasks == BumpTasks(old(tasks), taskId, now)
      ensures students == old(students) && sessions == old(sessions) && comments == old(comments)
      ensures nextStudentId == old(nextStudentId) && nextTaskId == old(nextTaskId) && nextCommentId == old(nextCommentId)
    {
      assignments := AddAssignment(assignments, taskId, studentId, now);
      BumpKeepsKeys(tasks, taskId, now, nextTaskId);
      tasks := BumpTasks(tasks, taskId, now);
    }

    /**
     * `POST /api/student/clock-out`: the same checks, no sweep, the upsert
     * and the clock-out UPDATE. A day never clocked in stays "not clocked in".
     */
    method ClockOut(studentId: Option<int>, today: Date, now: Time) returns (r: Result<SessionReply>)
      requires Valid()
      modifies this
      ensures Valid()
      ensures !PresentId(studentId) ==> r == Err(400, "Missing studentId") && unchanged(this)
      ensures PresentId(studentId) && !IsActiveStudent(old(students), studentId.value) ==>
                r == Err(404, "Student not found") && unchanged(this)
      ensures PresentId(studentId) && IsActiveStudent(old(students), studentId.value) ==>
                var up := Upsert(old(sessions), studentId.value, today, now);
                sessions == up.0[up.1 := ClockOutRow(up.0[up.1], now)]
                && r == Ok(SessionReply(sessions[up.1], PickStatus(sessions[up.1])))
                && (r.value.status == ClockedOut <==> up.0[up.1].clockInAt.Some?)
      ensures students == old(students) && tasks == old(tasks) && assignments == old(assignments)
      ensures comments == old(comments)
      ensures nextStudentId == old(nextStudentId) && nextTaskId == old(nextTaskId) && nextCommentId == old(nextCommentId)
    {
      if !PresentId(studentId) {
        return Err(400, "Missing studentId");
      }
      var sid := studentId.value;
      if !IsActiveStudent(students, sid) {
        return Err(404, "Student not found");
      }
      var up := Upsert(sessions, sid, today, now);
      var row := ClockOutRow(up.0[up.1], now);
      ReplaceKeepsKeys(up.0, up.1, row);
      sessions := up.0[up.1 := row];
      r := Ok(SessionReply(row, PickStatus(row)));
    }

    /** `POST /api/student/update`: the same checks, the upsert, and the partial UPDATE. */
    method UpdateSession(studentId: Option<int>, subteam: JsValue, workingOn: JsValue, today: Date, now: Time)
      returns (r: Result<SessionReply>)
      requires Valid()
      modifies this
      ensures Valid()
      ensures !PresentId(studentId) ==> r == Err(400, "Missing studentId") && unchanged(this)
      ensures PresentId(studentId) && !IsActiveStudent(old(students), studentId.value) ==>
                r == Err(404, "Student not found") && unchanged(this)
      ensures PresentId(studentId) && IsActiveStudent(old(students), studentId.value) ==>
                var up := Upsert(old(sessions), studentId.value, today, now);
                sessions == up.0[up.1 := UpdateRow(up.0[up.1], subteam, workingOn, now)]
                && r == Ok(SessionReply(sessions[up.1], PickStatus(up.0[up.1])))
      ensures students == old(students) && tasks == old(tasks) && assignments == old(assignments)
      ensures comments == old(comments)
      ensures nextStudentId == old(nextStudentId) && nextTaskId == old(nextTaskId) && nextCommentId == old(nextCommentId)
    {
      if !PresentId(studentId) {
        return Err(400, "Missing studentId");
      }
      var sid := studentId.value;
      if !IsActiveStudent(students, sid) {
        return Err(404, "Student not found");
      }
      var up := Upsert(sessions, sid, today, now);
      var row := UpdateRow(up.0[up.1], subteam, workingOn, now);
      ReplaceKeepsKeys(up.0, up.1, row);
      sessions := up.0[up.1 := row];
      r := Ok(SessionReply(row, PickStatus(row)));
    }

    /**
     * `POST /api/student/need`: 400 without a student id, 400 "Invalid type"
     * unless the type is the string "help" or "task", 404 unless active;
     * then the upsert and the toggle of the chosen flag to `!!value`.
     */
    method Need(studentId: Option<int>, kind: JsValue, value: JsValue, today: Date, now: Time)
      returns (r: Result<SessionReply>)
      requires Valid()
      modifies this
      ensures Valid()
      ensures !PresentId(studentId) ==> r == Err(400, "Missing studentId") && unchanged(this)
      ensures PresentId(studentId) && kind != Str("help") && kind != Str("task") ==>
                r == Err(400, "Invalid type") && unchanged(this)
      ensures PresentId(studentId) && (kind == Str("help") || kind == Str("task"))
              && !IsActiveStudent(old(students), studentId.value) ==>
                r == Err(404, "Student not found") && unchanged(this)
      ensures PresentId(studentId) && (kind == Str("help") || kind == Str("task"))
              && IsActiveStudent(old(students), studentId.value) ==>
                var up := Upsert(old(sessions), studentId.value, today, now);
                sessions == up.0[up.1 := NeedRow(up.0[up.1], kind == Str("help"), Truthy(value), now)]
                && r == Ok(SessionReply(sessions[up.1], PickStatus(up.0[up.1])))
      ensures students == old(students) && tasks == old(tasks) && assignments == old(assignments)
      ensures comments == old(comments)
      ensures nextStudentId == old(nextStudentId) && nextTaskId == old(nextTaskId) && nextCommentId == old(nextCommentId)
    {
      if !PresentId(studentId) {
        return Err(400, "Missing studentId");
      }
      if kind != Str("help") && kind != Str("task") {
        return Err(400, "Invalid type");
      }
      var sid := studentId.value;
      if !IsActiveStudent(students, sid) {
        return Err(404, "Student not found");
      }
      var up := Upsert(sessions, sid, today, now);
      var row := NeedRow(up.0[up.1], kind == Str("help"), Truthy(value), now);
      ReplaceKeepsKeys(up.0, up.1, row);
      sessions := up.0[up.1 := row];
      r := Ok(SessionReply(row, PickStatus(row)));
    }

    /**
     * `GET /api/student/today/:id`: the sweep runs first, even for a request
     * that then fails with 404; today's row, or none and "not clocked in".
     */
    method Today(studentId: int, today: Date, now: Time) returns (r: Result<TodayReply>)
      requires Valid()
      modifies this
      ensures Valid()
      ensures sessions == AutoClosed(old(sessions), now)
      ensures !IsActiveStudent(students, studentId) ==> r == Err(404, "Student not found")
      ensures IsActiveStudent(students, studentId) ==>
                var s := SessionOn(sessions, studentId, today);
                r == Ok(TodayReply(s, if s.Some? then PickStatus(s.value) else NotClockedIn))
      ensures r.Ok? && r.value.session.Some? ==> !Overdue(r.value.session.value, now)
      ensures students == old(students) && tasks == old(tasks) && assignments == old(assignments)
      ensures comments == old(comments)
      ensures nextStudentId == old(nextStudentId) && nextTaskId == old(nextTaskId) && nextCommentId == old(nextCommentId)
    {
      AutoCloseOldSessions(now);
      if !IsActiveStudent(students, studentId) {
        return Err(404, "Student not found");
      }
      var s := SessionOn(sessions, studentId, today);
      r := Ok(TodayReply(s, if s.Some? then PickStatus(s.value) else NotClockedIn));
    }

    /* ---------------- Mentor views ---------------- */

    /**
     * `GET /api/mentor/status`: behind the mentor key; the sweep, then one
     * board row per active student for the given date, or today.
     */
    method MentorStatus(provided: Option<string>, date: Option<Date>, today: Date, now: Time)
      returns (r: Result<seq<BoardRow>>)
      requires Valid()
      modifies this
      ensures Valid()
      ensures RequireKey("MENTOR_KEY", mentorKey, provided).Deny? ==>
                r == Refusal(RequireKey("MENTOR_KEY", mentorKey, provided)) && unchanged(this)
      ensures RequireKey("MENTOR_KEY", mentorKey, provided) == Pass ==>
                sessions == AutoClosed(old(sessions), now)
                && r == Ok(StatusBoard(students, sessions, if date.Some? then date.value else today))
                && |r.value| == ActiveCount(students)
      ensures students == old(students) && tasks == old(tasks) && assignments == old(assignments)
      ensures comments == old(comments)
      ensures nextStudentId == old(nextStudentId) && nextTaskId == old(nextTaskId) && nextCommentId == old(nextCommentId)
    {
      var gate := RequireKey("MENTOR_KEY", mentorKey, provided);
      if gate.Deny? {
        return Refusal(gate);
      }
      AutoCloseOldSessions(now);
      r := Ok(StatusBoard(students, sessions, if date.Some? then date.value else today));
    }

    /**
     * `GET /api/mentor/report`: behind the mentor key; the sweep, then 400
     * without both ends of the range, else the per-student totals.
     */
    method MentorReport(provided: Option<string>, start: Option<Date>, end: Option<Date>, now: Time)
      returns (r: Result<seq<ReportRow>>)
      requires Valid()
      modifies this
      ensures Valid()
      ensures RequireKey("MENTOR_KEY", mentorKey, provided).Deny? ==>
                r == Refusal(RequireKey("MENTOR_KEY", mentorKey, provided)) && unchanged(this)
      ensures RequireKey("MENTOR_KEY", mentorKey, provided) == Pass ==>
                sessions == AutoClosed(old(sessions), now) && r == Report(students, sessions, start, end)
      ensures students == old(students) && tasks == old(tasks) && assignments == old(assignments)
      ensures comments == old(comments)
      ensures nextStudentId == old(nextStudentId) && nextTaskId == old(nextTaskId) && nextCommentId == old(nextCommentId)
    {
      var gate := RequireKey("MENTOR_KEY", mentorKey, provided);
      if gate.Deny? {
        return Refusal(gate);
      }
      AutoCloseOldSessions(now);
      r := Report(students, sessions, start, end);
    }

    /* ---------------- Task board ---------------- */

    /**
     * `GET /api/tasks`: the selected tasks, annotated with last activity,
     * staleness and assignees, in status-rank then recency order.
     */
    method GetTasks(subteam: Option<string>, status: Option<string>, includeArchived: Option<string>, now: Time)
      returns (r: seq<TaskRow>)
      requires Valid()
      ensures Ordered(r)
      ensures r == ListTasks(tasks, ParseFilter(subteam, status, includeArchived), comments, assignments, students, now)
      ensures !IncludeArchivedFlag(includeArchived) ==> forall x :: x in r ==> !x.task.archived
    {
      r := ListTasks(tasks, ParseFilter(subteam, status, includeArchived), comments, assignments, students, now);
    }

    /** `GET /api/tasks/:id/comments`: the task's comments. */
    method GetComments(taskId: int) returns (r: seq<Comment>)
      requires Valid()
      ensures r == CommentsOf(comments, taskId)
      ensures forall c :: c in r <==> c in comments && c.taskId == taskId
    {
      r := CommentsOf(comments, taskId);
    }

    /**
     * `POST /api/tasks/:id/comments`: 400 for a blank comment, 404 for an
     * unknown student id; otherwise the trimmed comment is inserted under
     * the resolved author and the task's updated_at is refreshed.
     */
    method PostComment(taskId: int, authorLabel: JsValue, studentId: Option<int>, comment: JsValue, now: Time)
      returns (r: Result<Comment>)
      requires Valid()
      modifies this
      ensures Valid()
      ensures BlankComment(comment) ==> r == Err(400, "Missing comment") && unchanged(this)
      ensures !BlankComment(comment) && ResolveAuthor(old(students), studentId, authorLabel).Err? ==>
                r == Err(404, "Student not found") && unchanged(this)
      ensures !BlankComment(comment) && ResolveAuthor(old(students), studentId, authorLabel).Ok? ==>
                var c := NewComment(old(nextCommentId), taskId, ResolveAuthor(old(students), studentId, authorLabel).value,
                                    Trim(JsString(comment)), now);
                r == Ok(c) && c.text != ""
                && comments == old(comments) + [c] && nextCommentId == old(nextCommentId) + 1
                && tasks == Touch(old(tasks), taskId, now)
      ensures students == old(students) && sessions == old(sessions) && assignments == old(assignments)
      ensures nextStudentId == old(nextStudentId) && nextTaskId == old(nextTaskId)
    {
      if BlankComment(comment) {
        return Err(400, "Missing comment");
      }
      var author := ResolveAuthor(students, studentId, authorLabel);
      if author.Err? {
        return Err(author.code, author.message);
      }
      var c := NewComment(nextCommentId, taskId, author.value, Trim(JsString(comment)), now);
      comments := comments + [c];
      nextCommentId := nextCommentId + 1;
      tasks := Touch(tasks, taskId, now);
      r := Ok(c);
    }

    /**
     * `POST /api/tasks/:id/join`: 400 without a student id, 404 unless
     * active; then the idempotent assignment insert and the task touch.
     */
    method JoinTask(taskId: int, studentId: Option<int>, now: Time) returns (r: Result<()>)
      requires Valid()
      modifies this
      ensures Valid()
      ensures !PresentId(studentId) ==> r == Err(400, "Missing studentId") && unchanged(this)
      ensures PresentId(studentId) && !IsActiveStudent(old(students), studentId.value) ==>
                r == Err(404, "Student not found") && unchanged(this)
      ensures PresentId(studentId) && IsActiveStudent(old(students), studentId.value) ==>
                r == Ok(())
                && assignments == AddAssignment(old(assignments), taskId, studentId.value, now)
                && ActiveRows(assignments, taskId, studentId.value) == 1
                && tasks == Touch(old(tasks), taskId, now)
      ensures students == old(students) && sessions == old(sessions) && comments == old(comments)
      ensures nextStudentId == old(nextStudentId) && nextTaskId == old(nextTaskId) && nextCommentId == old(nextCommentId)
    {
      if !PresentId(studentId) {
        return Err(400, "Missing studentId");
      }
      var sid := studentId.value;
      if !IsActiveStudent(students, sid) {
        return Err(404, "Student not found");
      }
      assignments := AddAssignment(assignments, taskId, sid, now);
      OneActiveAtMostOne(assignments, taskId, sid);
      tasks := Touch(tasks, taskId, now);
      r := Ok(());
    }

    /**
     * `POST /api/tasks/:id/leave`: 400 without a student id; no active
     * check. The pair's active row is stamped and the task touched.
     */
    method LeaveTask(taskId: int, studentId: Option<int>, now: Time) returns (r: Result<()>)
      requires Valid()
      modifies this
      ensures Valid()
      ensures !PresentId(studentId) ==> r == Err(400, "Missing studentId") && unchanged(this)
      ensures PresentId(studentId) ==>
                r == Ok(())
                && assignments == Unassign(old(assignments), taskId, studentId.value, now)
                && !HasActive(assignments, taskId, studentId.value)
                && tasks == Touch(old(tasks), taskId, now)
      ensures students == old(students) && sessions == old(sessions) && comments == old(comments)
      ensures nextStudentId == old(nextStudentId) && nextTaskId == old(nextTaskId) && nextCommentId == old(nextCommentId)
    {
      if !PresentId(studentId) {
        return Err(400, "Missing studentId");
      }
      assignments := Unassign(assignments, taskId, studentId.value, now);
      tasks := Touch(tasks, taskId, now);
      r := Ok(());
    }

    /** `POST /api/tasks/:id/assign`: behind the mentor key, then the same rule as join. */
    method AssignTask(provided: Option<string>, taskId: int, studentId: Option<int>, now: Time) returns (r: Result<()>)
      requires Valid()
      modifies this
      ensures Valid()
      ensures RequireKey("MENTOR_KEY", mentorKey, provided).Deny? ==>
                r == Refusal(RequireKey("MENTOR_KEY", mentorKey, provided)) && unchanged(this)
      ensures RequireKey("MENTOR_KEY", mentorKey, provided) == Pass && !PresentId(studentId) ==>
                r == Err(400, "Missing studentId") && unchanged(this)
      ensures RequireKey("MENTOR_KEY", mentorKey, provided) == Pass && PresentId(studentId)
              && !IsActiveStudent(old(students), studentId.value) ==>
                r == Err(404, "Student not found") && unchanged(this)
      ensures RequireKey("MENTOR_KEY", mentorKey, provided) == Pass && PresentId(studentId)
              && IsActiveStudent(old(students), studentId.value) ==>
                r == Ok(())
                && assignments == AddAssignment(old(assignments), taskId, studentId.value, now)
                && tasks == Touch(old(tasks), taskId, now)
      ensures students == old(students) && sessions == old(sessions) && comments == old(comments)
      ensures nextStudentId == old(nextStudentId) && nextTaskId == old(nextTaskId) && nextCommentId == old(nextCommentId)
    {
      var gate := RequireKey("MENTOR_KEY", mentorKey, provided);
      if gate.Deny? {
        return Refusal(gate);
      }
      r := JoinTask(taskId, studentId, now);
    }

    /**
     * `POST /api/tasks`: behind the mentor key; 400 for a blank title or
     * subteam; otherwise a new task with the next id.
     */
    method CreateTask(provided: Option<string>, title: JsValue, subteam: JsValue, description: JsValue, status: JsValue, now: Time)
      returns (r: Result<Task>)
      requires Valid()
      modifies this
      ensures Valid()
      ensures RequireKey("MENTOR_KEY", mentorKey, provided).Deny? ==>
                r == Refusal(RequireKey("MENTOR_KEY", mentorKey, provided)) && unchanged(this)
      ensures RequireKey("MENTOR_KEY", mentorKey, provided) == Pass && TrimmedText(title) == "" ==>
                r == Err(400, "Missing title") && unchanged(this)
      ensures RequireKey("MENTOR_KEY", mentorKey, provided) == Pass && TrimmedText(title) != ""
              && TrimmedText(subteam) == "" ==>
                r == Err(400, "Missing subteam") && unchanged(this)
      ensures RequireKey("MENTOR_KEY", mentorKey, provided) == Pass && TrimmedText(title) != ""
              && TrimmedText(subteam) != "" ==>
                var t := NewTask(old(nextTaskId), title, subteam, description, status, now);
                r == Ok(t) && tasks == old(tasks) + [t] && nextTaskId == old(nextTaskId) + 1
                && t.title != "" && t.subteam != ""
      ensures students == old(students) && sessions == old(sessions) && assignments == old(assignments)
      ensures comments == old(comments)
      ensures nextStudentId == old(nextStudentId) && nextCommentId == old(nextCommentId)
    {
      var gate := RequireKey("MENTOR_KEY", mentorKey, provided);
      if gate.Deny? {
        return Refusal(gate);
      }
      if TrimmedText(title) == "" {
        return Err(400, "Missing title");
      }
      if TrimmedText(subteam) == "" {
        return Err(400, "Missing subteam");
      }
      var t := NewTask(nextTaskId, title, subteam, description, status, now);
      assert t.title == TrimmedText(title) && t.subteam == TrimmedText(subteam);
      AppendTaskKeepsKeys(tasks, t, nextTaskId);
      tasks := tasks + [t];
      nextTaskId := nextTaskId + 1;
      r := Ok(t);
    }

    /**
     * `PATCH /api/tasks/:id`: behind the mentor key; 404 when no task has
     * the id; otherwise the task's fields are merged as `PatchedTask` says.
     */
    method PatchTask(provided: Option<string>, taskId: int, title: JsValue, subteam: JsValue, description: JsValue, status: JsValue, now: Time)
      returns (r: Result<Task>)
      requires Valid()
      modifies this
      ensures Valid()
      ensures RequireKey("MENTOR_KEY", mentorKey, provided).Deny? ==>
                r == Refusal(RequireKey("MENTOR_KEY", mentorKey, provided)) && unchanged(this)
      ensures RequireKey("MENTOR_KEY", mentorKey, provided) == Pass && FindTask(old(tasks), taskId) < 0 ==>
                r == Err(404, "Task not found") && unchanged(this)
      ensures RequireKey("MENTOR_KEY", mentorKey, provided) == Pass && FindTask(old(tasks), taskId) >= 0 ==>
                var i := FindTask(old(tasks), taskId);
                var t := PatchedTask(old(tasks)[i], title, subteam, description, status, now);
                r == Ok(t) && tasks == old(tasks)[i := t]
      ensures students == old(students) && sessions == old(sessions) && assignments == old(assignments)
      ensures comments == old(comments)
      ensures nextStudentId == old(nextStudentId) && nextTaskId == old(nextTaskId) && nextCommentId == old(nextCommentId)
    {
      var gate := RequireKey("MENTOR_KEY", mentorKey, provided);
      if gate.Deny? {
        return Refusal(gate);
      }
      var i := FindTask(tasks, taskId);
      if i < 0 {
        return Err(404, "Task not found");
      }
      var t := PatchedTask(tasks[i], title, subteam, description, status, now);
      tasks := tasks[i := t];
      r := Ok(t);
    }

    /**
     * `POST /api/tasks/:id/archive` (`archived` true) and `.../unarchive`
     * (false): behind the mentor key; 404 when no task has the id.
     */
    method SetArchived(provided: Option<string>, taskId: int, archived: bool, now: Time) returns (r: Result<Task>)
      requires Valid()
      modifies this
      ensures Valid()
      ensures RequireKey("MENTOR_KEY", mentorKey, provided).Deny? ==>
                r == Refusal(RequireKey("MENTOR_KEY", mentorKey, provided)) && unchanged(this)
      ensures RequireKey("MENTOR_KEY", mentorKey, provided) == Pass && FindTask(old(tasks), taskId) < 0 ==>
                r == Err(404, "Task not found") && unchanged(this)
      ensures RequireKey("MENTOR_KEY", mentorKey, provided) == Pass && FindTask(old(tasks), taskId) >= 0 ==>
                var i := FindTask(old(tasks), taskId);
                var t := old(tasks)[i].(archived := archived, updatedAt := now);
                r == Ok(t) && tasks == old(tasks)[i := t]
      ensures students == old(students) && sessions == old(sessions) && assignments == old(assignments)
      ensures comments == old(comments)
      ensures nextStudentId == old(nextStudentId) && nextTaskId == old(nextTaskId) && nextCommentId == old(nextCommentId)
    {
      var gate := RequireKey("MENTOR_KEY", mentorKey, provided);
      if gate.Deny? {
        return Refusal(gate);
      }
      var i := FindTask(tasks, taskId);
      if i < 0 {
        return Err(404, "Task not found");
      }
      var t := tasks[i].(archived := archived, updatedAt := now);
      tasks := tasks[i := t];
      r := Ok(t);
    }

    /* ---------------- Roster administration ---------------- */

    /**
     * `POST /api/admin/students`: behind the manager key; 400 for a falsy
     * name; otherwise the trimmed name is upserted, a known name only having
     * its subteam replaced. The serial advances on every insert attempt,
     * conflicting or not.
     */
    method AdminAddStudent(provided: Option<string>, fullName: JsValue, subteam: JsValue) returns (r: Result<Student>)
      requires Valid()
      modifies this
      ensures Valid()
      ensures RequireKey("MANAGER_KEY", managerKey, provided).Deny? ==>
                r == Refusal(RequireKey("MANAGER_KEY", managerKey, provided)) && unchanged(this)
      ensures RequireKey("MANAGER_KEY", managerKey, provided) == Pass && !Truthy(fullName) ==>
                r == Err(400, "Missing full_name") && unchanged(this)
      ensures RequireKey("MANAGER_KEY", managerKey, provided) == Pass && Truthy(fullName) ==>
                var up := UpsertSubteamByName(old(students), Trim(JsString(fullName)),
                                              if Truthy(subteam) then Some(Trim(JsString(subteam))) else None,
                                              old(nextStudentId));
                students == up.0 && r == Ok(students[up.1]) && nextStudentId == old(nextStudentId) + 1
      ensures sessions == old(sessions) && tasks == old(tasks) && assignments == old(assignments)
      ensures comments == old(comments) && nextTaskId == old(nextTaskId) && nextCommentId == old(nextCommentId)
    {
      var gate := RequireKey("MANAGER_KEY", managerKey, provided);
      if gate.Deny? {
        return Refusal(gate);
      }
      if !Truthy(fullName) {
        return Err(400, "Missing full_name");
      }
      var up := UpsertSubteamByName(students, Trim(JsString(fullName)),
                                    if Truthy(subteam) then Some(Trim(JsString(subteam))) else None,
                                    nextStudentId);
      students := up.0;
      nextStudentId := nextStudentId + 1;
      r := Ok(students[up.1]);
    }

    /**
     * `PATCH /api/admin/students/:id`: behind the manager key; 404 when no
     * student has the id; a new name already held by another student
     * violates the unique constraint and nothing changes; otherwise the row
     * is merged as `PatchStudentRow` says.
     */
    method AdminPatchStudent(provided: Option<string>, id: int, fullName: JsValue, subteam: JsValue, isActive: Option<bool>)
      returns (r: Result<Student>)
      requires Valid()
      modifies this
      ensures Valid()
      ensures RequireKey("MANAGER_KEY", managerKey, provided).Deny? ==>
                r == Refusal(RequireKey("MANAGER_KEY", managerKey, provided)) && unchanged(this)
      ensures RequireKey("MANAGER_KEY", managerKey, provided) == Pass && FindStudent(old(students), id) < 0 ==>
                r == Err(404, "Student not found") && unchanged(this)
      ensures RequireKey("MANAGER_KEY", managerKey, provided) == Pass && FindStudent(old(students), id) >= 0 ==>
                var i := FindStudent(old(students), id);
                var s := PatchStudentRow(old(students)[i], fullName, subteam, isActive);
                var j := FindByName(old(students), s.fullName);
                (j >= 0 && j != i ==> r == Err(500, "duplicate full_name") && unchanged(this))
                && (j < 0 || j == i ==> r == Ok(s) && students == old(students)[i := s])
      ensures sessions == old(sessions) && tasks == old(tasks) && assignments == old(assignments)
      ensures comments == old(comments)
      ensures nextStudentId == old(nextStudentId) && nextTaskId == old(nextTaskId) && nextCommentId == old(nextCommentId)
    {
      var gate := RequireKey("MANAGER_KEY", managerKey, provided);
      if gate.Deny? {
        return Refusal(gate);
      }
      var i := FindStudent(students, id);
      if i < 0 {
        return Err(404, "Student not found");
      }
      var s := PatchStudentRow(students[i], fullName, subteam, isActive);
      var j := FindByName(students, s.fullName);
      if j >= 0 && j != i {
        return Err(500, "duplicate full_name");
      }
      ReplaceStudentKeepsKeys(students, i, s, nextStudentId);
      students := students[i := s];
      r := Ok(s);
    }
  }
}
