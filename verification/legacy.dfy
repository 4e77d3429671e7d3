/**
 * The earlier server revision (the `CheckIn1507` tree): students and daily
 * sessions only. There are no tasks, no comments and no four-hour sweep;
 * "today" is the database's `current_date`, passed in as `today`. The
 * roster administration differs from the current revision in its input
 * checks and in reactivating a re-added student.
 */
module Legacy {
  import opened Common
  import opened Roster
  import opened Sessions
  import opened Reports
  import opened Access

  /** The reply of the student session handlers: the row after the update and its status. */
  datatype SessionReply = SessionReply(session: Session, status: Status)

  /** The reply of `GET /api/student/today/:id`: today's row if there is one. */
  datatype TodayReply = TodayReply(session: Option<Session>, status: Status)

  /**
   * `(subteam || "").trim() || null` in the roster add: a falsy or blank
   * subteam is null, a string is trimmed, and any other truthy value has no
   * `trim` method, so the handler throws.
   */
  function AddedSubteam(subteam: JsValue): (r: Result<Option<string>>)
    ensures !Truthy(subteam) ==> r == Ok(None)
    ensures subteam.Str? ==> r.Ok? && (r.value.None? <==> Trim(subteam.s) == "")
    ensures subteam.Str? && r.value.Some? ==> r.value.value == Trim(subteam.s)
    ensures r.Err? <==> Truthy(subteam) && !subteam.Str?
  {
    if !Truthy(subteam) then Ok(None)
    else if subteam.Str? then
      (if Trim(subteam.s) == "" then Ok(None) else Ok(Some(Trim(subteam.s))))
    else Err(500, "Server error")
  }

  /**
   * The subteam the roster patch writes: an absent or empty subteam keeps
   * the stored one; anything else is written as `String(subteam).trim()`,
   * so a JSON null becomes the text "null" and a blank string becomes "".
   */
  function PatchedSubteam(stored: Option<string>, subteam: JsValue): (r: Option<string>)
    ensures subteam == Undefined || subteam == Str("") ==> r == stored
    ensures subteam != Undefined && subteam != Str("") ==> r == Some(Trim(JsString(subteam)))
    ensures subteam == Null ==> r == Some("null")
  {
    if subteam == Undefined || subteam == Str("") then stored
    else
      assert subteam == Null ==> TrimStart("null") == "null" && TrimEnd("null") == "null";
      Some(Trim(JsString(subteam)))
  }

  /** `typeof isActive === "boolean" ? isActive : null`. */
  function BooleanOnly(v: JsValue): (r: Option<bool>)
    ensures r.Some? <==> v.Bool?
    ensures r.Some? ==> r.value == v.b
  {
    if v.Bool? then Some(v.b) else None
  }

  /**
   * The row `PATCH /api/admin/students/:id` writes in this revision: a
   * falsy or blank name keeps the old one, the subteam follows
   * `PatchedSubteam`, and is_active changes only for a boolean.
   */
  function PatchStudentRow(s: Student, fullName: JsValue, subteam: JsValue, isActive: JsValue): (r: Student)
    ensures r.id == s.id
    ensures r.fullName == if TrimmedText(fullName) == "" then s.fullName else TrimmedText(fullName)
    ensures r.subteam == PatchedSubteam(s.subteam, subteam)
    ensures !isActive.Bool? ==> r.isActive == s.isActive
    ensures isActive.Bool? ==> r.isActive == isActive.b
  {
    var name := TrimmedText(fullName);
    var active := BooleanOnly(isActive);
    s.(fullName := if name == "" then s.fullName else name,
       subteam := PatchedSubteam(s.subteam, subteam),
       isActive := if active.Some? then active.value else s.isActive)
  }

  class LegacyDatabase {
    /** `process.env.MENTOR_KEY`, guarding the mentor views. */
    const mentorKey: Option<string>
    /** `process.env.MANAGER_KEY`, guarding the roster administration. */
    const managerKey: Option<string>

    var students: seq<Student>
    var sessions: seq<Session>
    /** The serial sequence behind `students.id`. */
    var nextStudentId: int

    /** Unique student ids and names, one session per student and date, a fresh serial. */
    ghost predicate Valid()
      reads this
    {
      UniqueIds(students) && UniqueNames(students) && IdsBelow(students, nextStudentId)
      && UniqueKeys(sessions)
    }

    /** An empty database with the two configured keys. */
    constructor (mentorKey: Option<string>, managerKey: Option<string>)
      ensures Valid()
      ensures this.mentorKey == mentorKey && this.managerKey == managerKey
      ensures students == [] && sessions == []
    {
      this.mentorKey := mentorKey;
      this.managerKey := managerKey;
      students := [];
      sessions := [];
      nextStudentId := 1;
    }

    /* ---------------- Student session handlers ---------------- */

    /**
     * `POST /api/student/clock-in`: 400 without a student id, 404 unless
     * the student is active; then the upsert of today's row and the
     * clock-in UPDATE. No sweep runs and no task is touched.
     */
    method ClockIn(studentId: Option<int>, subteam: JsValue, workingOn: JsValue, today: Date, now: Time)
      returns (r: Result<SessionReply>)
      requires Valid()
      modifies this
      ensures Valid()
      ensures !PresentId(studentId) ==> r == Err(400, "Missing studentId") && unchanged(this)
      ensures PresentId(studentId) && !IsActiveStudent(old(students), studentId.value) ==>
                r == Err(404, "Student not found") && unchanged(this)
      ensures PresentId(studentId) && IsActiveStudent(old(students), studentId.value) ==>
                var up := Upsert(old(sessions), studentId.value, today, now);
                sessions == up.0[up.1 := ClockInRow(up.0[up.1], subteam, workingOn, None, now)]
                && r == Ok(SessionReply(sessions[up.1], ClockedIn))
                && sessions[up.1].clockInAt == (if up.0[up.1].clockInAt.Some? then up.0[up.1].clockInAt else Some(now))
      ensures students == old(students) && nextStudentId == old(nextStudentId)
    {
      if !PresentId(studentId) {
        return Err(400, "Missing studentId");
      }
      var sid := studentId.value;
      if !IsActiveStudent(students, sid) {
        return Err(404, "Student not found");
      }
      var up := Upsert(sessions, sid, today, now);
      var row := ClockInRow(up.0[up.1], subteam, workingOn, None, now);
      ReplaceKeepsKeys(up.0, up.1, row);
      sessions := up.0[up.1 := row];
      r := Ok(SessionReply(row, PickStatus(row)));
    }

    /** `POST /api/student/clock-out`: the same checks, the upsert and the clock-out UPDATE. */
    method ClockOut(studentId: Option<int>, today: Date, now: Time) returns (r: Result<SessionReply>)
      requires Valid()
      modifies this
      ensures Valid()
      ensures !PresentId(studentId) ==> r == Err(400, "Missing studentId") && unchanged(this)
      ensures PresentId(studentId) && !IsActiveStudent(old(students), studentId.value) ==>
                r == Err(404, "Student not found") && unchanged(this)
      ensures PresentId(studentId) && IsActiveStudent(old(students), studentId.value) ==>
                var up := Upsert(old(sessions), studentId.value, today, now);
                sessions == up.0[up.1 := ClockOutRow(up.0[up.1], now)]
                && r == Ok(SessionReply(sessions[up.1], PickStatus(sessions[up.1])))
                && (r.value.status == ClockedOut <==> up.0[up.1].clockInAt.Some?)
      ensures students == old(students) && nextStudentId == old(nextStudentId)
    {
      if !PresentId(studentId) {
        return Err(400, "Missing studentId");
      }
      var sid := studentId.value;
      if !IsActiveStudent(students, sid) {
        return Err(404, "Student not found");
      }
      var up := Upsert(sessions, sid, today, now);
      var row := ClockOutRow(up.0[up.1], now);
      ReplaceKeepsKeys(up.0, up.1, row);
      sessions := up.0[up.1 := row];
      r := Ok(SessionReply(row, PickStatus(row)));
    }

    /** `POST /api/student/update`: the same checks, the upsert and the partial UPDATE. */
    method UpdateSession(studentId: Option<int>, subteam: JsValue, workingOn: JsValue, today: Date, now: Time)
      returns (r: Result<SessionReply>)
      requires Valid()
      modifies this
      ensures Valid()
      ensures !PresentId(studentId) ==> r == Err(400, "Missing studentId") && unchanged(this)
      ensures PresentId(studentId) && !IsActiveStudent(old(students), studentId.value) ==>
                r == Err(404, "Student not found") && unchanged(this)
      ensures PresentId(studentId) && IsActiveStudent(old(students), studentId.value) ==>
                var up := Upsert(old(sessions), studentId.value, today, now);
                sessions == up.0[up.1 := UpdateRow(up.0[up.1], subteam, workingOn, now)]
                && r == Ok(SessionReply(sessions[up.1], PickStatus(up.0[up.1])))
      ensures students == old(students) && nextStudentId == old(nextStudentId)
    {
      if !PresentId(studentId) {
        return Err(400, "Missing studentId");
      }
      var sid := studentId.value;
      if !IsActiveStudent(students, sid) {
        return Err(404, "Student not found");
      }
      var up := Upsert(sessions, sid, today, now);
      var row := UpdateRow(up.0[up.1], subteam, workingOn, now);
      ReplaceKeepsKeys(up.0, up.1, row);
      sessions := up.0[up.1 := row];
      r := Ok(SessionReply(row, PickStatus(row)));
    }

    /**
     * `POST /api/student/need`: 400 without a student id, 400 "Invalid
     * type" unless the type is "help" or "task", 404 unless active; then
     * the upsert and the toggle of the chosen flag to `!!value`.
     */
    method Need(studentId: Option<int>, kind: JsValue, value: JsValue, today: Date, now: Time)
      returns (r: Result<SessionReply>)
      requires Valid()
      modifies this
      ensures Valid()
      ensures !PresentId(studentId) ==> r == Err(400, "Missing studentId") && unchanged(this)
      ensures PresentId(studentId) && kind != Str("help") && kind != Str("task") ==>
                r == Err(400, "Invalid type") && unchanged(this)
      ensures PresentId(studentId) && (kind == Str("help") || kind == Str("task"))
              && !IsActiveStudent(old(students), studentId.value) ==>
                r == Err(404, "Student not found") && unchanged(this)
      ensures PresentId(studentId) && (kind == Str("help") || kind == Str("task"))
              && IsActiveStudent(old(students), studentId.value) ==>
                var up := Upsert(old(sessions), studentId.value, today, now);
                sessions == up.0[up.1 := NeedRow(up.0[up.1], kind == Str("help"), Truthy(value), now)]
                && r == Ok(SessionReply(sessions[up.1], PickStatus(up.0[up.1])))
      ensures students == old(students) && nextStudentId == old(nextStudentId)
    {
      if !PresentId(studentId) {
        return Err(400, "Missing studentId");
      }
      if kind != Str("help") && kind != Str("task") {
        return Err(400, "Invalid type");
      }
      var sid := studentId.value;
      if !IsActiveStudent(students, sid) {
        return Err(404, "Student not found");
      }
      var up := Upsert(sessions, sid, today, now);
      var row := NeedRow(up.0[up.1], kind == Str("help"), Truthy(value), now);
      ReplaceKeepsKeys(up.0, up.1, row);
      sessions := up.0[up.1 := row];
      r := Ok(SessionReply(row, PickStatus(row)));
    }

    /**
     * `GET /api/student/today/:id`: 404 unless active; today's row, or none
     * and "not clocked in". Nothing is written.
     */
    method Today(studentId: int, today: Date) returns (r: Result<TodayReply>)
      requires Valid()
      ensures !IsActiveStudent(students, studentId) ==> r == Err(404, "Student not found")
      ensures IsActiveStudent(students, studentId) ==>
                var s := SessionOn(sessions, studentId, today);
                r == Ok(TodayReply(s, if s.Some? then PickStatus(s.value) else NotClockedIn))
      ensures r.Ok? && r.value.session.None? ==> r.value.status == NotClockedIn
    {
      if !IsActiveStudent(students, studentId) {
        return Err(404, "Student not found");
      }
      var s := SessionOn(sessions, studentId, today);
      r := Ok(TodayReply(s, if s.Some? then PickStatus(s.value) else NotClockedIn));
    }

    /* ---------------- Mentor views ---------------- */

    /** `GET /api/mentor/status`: behind the mentor key; one row per active student. */
    method MentorStatus(provided: Option<string>, date: Option<Date>, today: Date) returns (r: Result<seq<BoardRow>>)
      requires Valid()
      ensures RequireKey("MENTOR_KEY", mentorKey, provided).Deny? ==>
                r == Err(RequireKey("MENTOR_KEY", mentorKey, provided).code, RequireKey("MENTOR_KEY", mentorKey, provided).message)
      ensures RequireKey("MENTOR_KEY", mentorKey, provided) == Pass ==>
                r == Ok(StatusBoard(students, sessions, if date.Some? then date.value else today))
                && |r.value| == ActiveCount(students)
    {
      var gate := RequireKey("MENTOR_KEY", mentorKey, provided);
      if gate.Deny? {
        return Err(gate.code, gate.message);
      }
      r := Ok(StatusBoard(students, sessions, if date.Some? then date.value else today));
    }

    /** `GET /api/mentor/report`: behind the mentor key; the same totals as the current revision. */
    method MentorReport(provided: Option<string>, start: Option<Date>, end: Option<Date>) returns (r: Result<seq<ReportRow>>)
      requires Valid()
      ensures RequireKey("MENTOR_KEY", mentorKey, provided).Deny? ==>
                r == Err(RequireKey("MENTOR_KEY", mentorKey, provided).code, RequireKey("MENTOR_KEY", mentorKey, provided).message)
      ensures RequireKey("MENTOR_KEY", mentorKey, provided) == Pass ==> r == Report(students, sessions, start, end)
      ensures RequireKey("MENTOR_KEY", mentorKey, provided) == Pass && start.Some? && end.Some? ==>
                r.Ok? && |r.value| == ActiveCount(students)
    {
      var gate := RequireKey("MENTOR_KEY", mentorKey, provided);
      if gate.Deny? {
        return Err(gate.code, gate.message);
      }
      r := Report(students, sessions, start, end);
    }

    /* ---------------- Roster administration ---------------- */

    /**
     * `POST /api/admin/students`: behind the manager key; 400 for a falsy or
     * blank name; a subteam that is truthy but not a string makes the
     * handler throw; otherwise the trimmed name is upserted and the student
     * is (re)activated. The serial advances on every insert attempt.
     */
    method AdminAddStudent(provided: Option<string>, fullName: JsValue, subteam: JsValue) returns (r: Result<Student>)
      requires Valid()
      modifies this
      ensures Valid()
      ensures RequireKey("MANAGER_KEY", managerKey, provided).Deny? ==>
                r == Err(RequireKey("MANAGER_KEY", managerKey, provided).code, RequireKey("MANAGER_KEY", managerKey, provided).message)
                && unchanged(this)
      ensures RequireKey("MANAGER_KEY", managerKey, provided) == Pass && TrimmedText(fullName) == "" ==>
                r == Err(400, "Missing fullName") && unchanged(this)
      ensures RequireKey("MANAGER_KEY", managerKey, provided) == Pass && TrimmedText(fullName) != ""
              && AddedSubteam(subteam).Err? ==>
                r == Err(500, "Server error") && unchanged(this)
      ensures RequireKey("MANAGER_KEY", managerKey, provided) == Pass && TrimmedText(fullName) != ""
              && AddedSubteam(subteam).Ok? ==>
                var up := UpsertByName(old(students), TrimmedText(fullName), AddedSubteam(subteam).value, old(nextStudentId));
                students == up.0 && r == Ok(students[up.1]) && nextStudentId == old(nextStudentId) + 1
                && r.value.isActive && r.value.fullName == TrimmedText(fullName)
      ensures sessions == old(sessions)
    {
      var gate := RequireKey("MANAGER_KEY", managerKey, provided);
      if gate.Deny? {
        return Err(gate.code, gate.message);
      }
      var name := TrimmedText(fullName);
      if name == "" {
        return Err(400, "Missing fullName");
      }
      var team := AddedSubteam(subteam);
      if team.Err? {
        return Err(team.code, team.message);
      }
      var up := UpsertByName(students, name, team.value, nextStudentId);
      students := up.0;
      nextStudentId := nextStudentId + 1;
      r := Ok(students[up.1]);
    }

    /**
     * `PATCH /api/admin/students/:id`: behind the manager key; 400 for the
     * id 0; 404 when no student has the id; a new name already held by
     * another student violates the unique constraint and nothing changes;
     * otherwise the row is merged as `PatchStudentRow` says.
     */
    method AdminPatchStudent(provided: Option<string>, id: int, fullName: JsValue, subteam: JsValue, isActive: JsValue)
      returns (r: Result<Student>)
      requires Valid()
      modifies this
      ensures Valid()
      ensures RequireKey("MANAGER_KEY", managerKey, provided).Deny? ==>
                r == Err(RequireKey("MANAGER_KEY", managerKey, provided).code, RequireKey("MANAGER_KEY", managerKey, provided).message)
                && unchanged(this)
      ensures RequireKey("MANAGER_KEY", managerKey, provided) == Pass && id == 0 ==>
                r == Err(400, "Invalid id") && unchanged(this)
      ensures RequireKey("MANAGER_KEY", managerKey, provided) == Pass && id != 0 && FindStudent(old(students), id) < 0 ==>
                r == Err(404, "Student not found") && unchanged(this)
      ensures RequireKey("MANAGER_KEY", managerKey, provided) == Pass && id != 0 && FindStudent(old(students), id) >= 0 ==>
                var i := FindStudent(old(students), id);
                var s := PatchStudentRow(old(students)[i], fullName, subteam, isActive);
                var j := FindByName(old(students), s.fullName);
                (j >= 0 && j != i ==> r == Err(500, "duplicate full_name") && unchanged(this))
                && (j < 0 || j == i ==> r == Ok(s) && students == old(students)[i := s])
      ensures sessions == old(sessions) && nextStudentId == old(nextStudentId)
    {
      var gate := RequireKey("MANAGER_KEY", managerKey, provided);
      if gate.Deny? {
        return Err(gate.code, gate.message);
      }
      if id == 0 {
        return Err(400, "Invalid id");
      }
      var i := FindStudent(students, id);
      if i < 0 {
        return Err(404, "Student not found");
      }
      var s := PatchStudentRow(students[i], fullName, subteam, isActive);
      var j := FindByName(students, s.fullName);
      if j >= 0 && j != i {
        return Err(500, "duplicate full_name");
      }
      ReplaceStudentKeepsKeys(students, i, s, nextStudentId);
      students := students[i := s];
      r := Ok(s);
    }
  }

  /**
   * Re-adding a deactivated student by name reactivates the same row in
   * this revision, where the current revision leaves it inactive.
   */
  lemma ReAddReactivates(rows: seq<Student>, i: int, subteam: Option<string>, nextId: int)
    requires UniqueIds(rows) && UniqueNames(rows) && IdsBelow(rows, nextId)
    requires 0 <= i < |rows| && !rows[i].isActive
    ensures var up := UpsertByName(rows, rows[i].fullName, subteam, nextId);
            up.1 == i && up.0[i].isActive && up.0[i].id == rows[i].id
    ensures var up := UpsertSubteamByName(rows, rows[i].fullName, subteam, nextId);
            up.1 == i && !up.0[i].isActive && up.0[i].id == rows[i].id
  {
    assert FindByName(rows, rows[i].fullName) == i;
  }
}
