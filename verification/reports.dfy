/**
 * The two read-only views over sessions that mentors see: the status board
 * for one meeting date (one row per active student, joined with that day's
 * session), and the attendance report over an inclusive date range.
 */
module Reports {
  import opened Common
  import opened Roster
  import opened Sessions

  /* ---------------- Status board ---------------- */

  /**
   * One row of `GET /api/mentor/status`: the student, the subteam
   * `coalesce(ds.subteam, s.subteam)`, and the day's session if there is one
   * (the left join leaves the session columns null otherwise).
   */
  datatype BoardRow = BoardRow(studentId: int, fullName: string, subteam: Option<string>, session: Option<Session>)
  {
    function ClockInAt(): Option<Time> { if session.Some? then session.value.clockInAt else None }
    function ClockOutAt(): Option<Time> { if session.Some? then session.value.clockOutAt else None }
    /** `need_help` is null without a session; only its truthiness is read. */
    predicate NeedHelp() { session.Some? && session.value.needHelp }
    predicate NeedTask() { session.Some? && session.value.needTask }
  }

  function BoardRowFor(s: Student, sessions: seq<Session>, date: Date): (r: BoardRow)
    ensures r.studentId == s.id && r.fullName == s.fullName
    ensures FindSession(sessions, s.id, date) < 0 ==> r.session.None? && r.subteam == s.subteam
    ensures FindSession(sessions, s.id, date) >= 0 ==> r.session == Some(sessions[FindSession(sessions, s.id, date)])
    ensures r.subteam == if r.session.Some? && r.session.value.subteam.Some? then r.session.value.subteam else s.subteam
  {
    var i := FindSession(sessions, s.id, date);
    if i < 0 then BoardRow(s.id, s.fullName, s.subteam, None)
    else
      var ds := sessions[i];
      BoardRow(s.id, s.fullName, if ds.subteam.Some? then ds.subteam else s.subteam, Some(ds))
  }

  /** The status board for `date`: one row per active student, in table order. */
  function StatusBoard(students: seq<Student>, sessions: seq<Session>, date: Date): (r: seq<BoardRow>)
    ensures |r| == ActiveCount(students)
    ensures forall k :: 0 <= k < |r| ==> r[k] == BoardRowFor(ActiveStudents(students)[k], sessions, date)
  {
    var act := ActiveStudents(students);
    seq(|act|, k requires 0 <= k < |act| => BoardRowFor(act[k], sessions, date))
  }

  /* ---------------- Attendance report ---------------- */

  /**
   * One report row. Hours are kept as whole seconds; the division by 3600
   * and the rounding to two decimals are not modelled.
   */
  datatype ReportRow = ReportRow(
    studentId: int,
    fullName: string,
    subteam: Option<string>,
    daysClockedIn: nat,
    lastDay: Option<Date>,
    totalSeconds: int)

  /** A session counted for the student: in the inclusive range, with a clock-in. */
  predicate Counted(s: Session, studentId: int, start: Date, end: Date) {
    s.studentId == studentId && start <= s.meetingDate <= end && s.clockInAt.Some?
  }

  /** `coalesce(clock_out_at, clock_in_at) - clock_in_at`: a session never clocked out lasts 0 seconds. */
  function Duration(s: Session): (r: int)
    requires s.clockInAt.Some?
    ensures s.clockOutAt.None? ==> r == 0
    ensures s.clockOutAt.Some? ==> r == s.clockOutAt.value - s.clockInAt.value
  {
    if s.clockOutAt.Some? then s.clockOutAt.value - s.clockInAt.value else 0
  }

  /** `count(meeting_date) filter (where clock_in_at is not null)`. */
  function DaysClockedIn(rows: seq<Session>, studentId: int, start: Date, end: Date): (n: nat)
    ensures n <= |rows|
  {
    if rows == [] then 0
    else (if Counted(rows[0], studentId, start, end) then 1 else 0) + DaysClockedIn(rows[1..], studentId, start, end)
  }

  /** `max(meeting_date) filter (where clock_in_at is not null)`. */
  function LastDay(rows: seq<Session>, studentId: int, start: Date, end: Date): (r: Option<Date>)
    ensures r.None? <==> forall k :: 0 <= k < |rows| ==> !Counted(rows[k], studentId, start, end)
    ensures r.Some? ==> forall k :: 0 <= k < |rows| && Counted(rows[k], studentId, start, end) ==> rows[k].meetingDate <= r.value
    ensures r.Some? ==> exists k :: 0 <= k < |rows| && Counted(rows[k], studentId, start, end) && rows[k].meetingDate == r.value
  {
    if rows == [] then None
    else
      var rest := LastDay(rows[1..], studentId, start, end);
      if rest.Some? then
        var k :| 0 <= k < |rows[1..]| && Counted(rows[1..][k], studentId, start, end) && rows[1..][k].meetingDate == rest.value;
        assert rows[k + 1] == rows[1..][k];
        if Counted(rows[0], studentId, start, end) && rows[0].meetingDate > rest.value then Some(rows[0].meetingDate)
        else rest
      else if Counted(rows[0], studentId, start, end) then Some(rows[0].meetingDate)
      else None
  }

  /** `sum(...)` of the durations of the counted sessions. */
  function TotalSeconds(rows: seq<Session>, studentId: int, start: Date, end: Date): int {
    if rows == [] then 0
    else (if Counted(rows[0], studentId, start, end) then Duration(rows[0]) else 0) + TotalSeconds(rows[1..], studentId, start, end)
  }

  /** The dates the student clocked in on within the range. */
  ghost function DatesClockedIn(rows: seq<Session>, studentId: int, start: Date, end: Date): set<Date> {
    set k | 0 <= k < |rows| && Counted(rows[k], studentId, start, end) :: rows[k].meetingDate
  }

  /** The dates of a table are those of its first row (if counted) and those of the rest. */
  lemma DatesUnfold(rows: seq<Session>, studentId: int, start: Date, end: Date)
    requires rows != []
    ensures DatesClockedIn(rows, studentId, start, end)
            == (if Counted(rows[0], studentId, start, end) then {rows[0].meetingDate} else {})
               + DatesClockedIn(rows[1..], studentId, start, end)
  {
    var tail := rows[1..];
    var first: set<Date> := if Counted(rows[0], studentId, start, end) then {rows[0].meetingDate} else {};
    forall d | d in DatesClockedIn(rows, studentId, start, end)
      ensures d in first + DatesClockedIn(tail, studentId, start, end)
    {
      var k :| 0 <= k < |rows| && Counted(rows[k], studentId, start, end) && rows[k].meetingDate == d;
      if k > 0 { assert tail[k - 1] == rows[k]; }
    }
    forall d | d in DatesClockedIn(tail, studentId, start, end)
      ensures d in DatesClockedIn(rows, studentId, start, end)
    {
      var k :| 0 <= k < |tail| && Counted(tail[k], studentId, start, end) && tail[k].meetingDate == d;
      assert rows[k + 1] == tail[k];
    }
  }

  /**
   * With one session per student and day, the count of counted sessions is
   * the number of distinct meeting dates the student clocked in on.
   */
  lemma {:induction false} DaysAreDistinctDates(rows: seq<Session>, studentId: int, start: Date, end: Date)
    requires UniqueKeys(rows)
    ensures DaysClockedIn(rows, studentId, start, end) == |DatesClockedIn(rows, studentId, start, end)|
  {
    if rows != [] {
      var tail := rows[1..];
      assert UniqueKeys(tail);
      DaysAreDistinctDates(tail, studentId, start, end);
      DatesUnfold(rows, studentId, start, end);
      if Counted(rows[0], studentId, start, end) {
        forall k | 0 <= k < |tail| && Counted(tail[k], studentId, start, end)
          ensures tail[k].meetingDate != rows[0].meetingDate
        {
          assert tail[k] == rows[k + 1];
          assert KeyOf(rows[0]) != KeyOf(rows[k + 1]);
        }
        assert rows[0].meetingDate !in DatesClockedIn(tail, studentId, start, end);
      }
    }
  }

  /** Sessions whose clock-out is not before their clock-in never make the total negative. */
  lemma {:induction false} TotalNonNegative(rows: seq<Session>, studentId: int, start: Date, end: Date)
    requires forall k :: 0 <= k < |rows| && rows[k].clockInAt.Some? && rows[k].clockOutAt.Some? ==>
               rows[k].clockInAt.value <= rows[k].clockOutAt.value
    ensures TotalSeconds(rows, studentId, start, end) >= 0
  {
    if rows != [] {
      TotalNonNegative(rows[1..], studentId, start, end);
    }
  }

  /** A student with no counted session has a zero row: no days, no last day, no time. */
  lemma {:induction false} NoSessionsZeroRow(rows: seq<Session>, studentId: int, start: Date, end: Date)
    requires forall k :: 0 <= k < |rows| ==> !Counted(rows[k], studentId, start, end)
    ensures DaysClockedIn(rows, studentId, start, end) == 0
    ensures LastDay(rows, studentId, start, end) == None
    ensures TotalSeconds(rows, studentId, start, end) == 0
  {
    if rows != [] {
      NoSessionsZeroRow(rows[1..], studentId, start, end);
    }
  }

  function ReportRowFor(s: Student, rows: seq<Session>, start: Date, end: Date): (r: ReportRow)
    ensures r.studentId == s.id && r.fullName == s.fullName && r.subteam == s.subteam
    ensures r.daysClockedIn == DaysClockedIn(rows, s.id, start, end)
    ensures r.lastDay == LastDay(rows, s.id, start, end)
    ensures r.totalSeconds == TotalSeconds(rows, s.id, start, end)
    ensures r.lastDay.None? <==> r.daysClockedIn == 0
  {
    NoneMeansNoDays(rows, s.id, start, end);
    ReportRow(s.id, s.fullName, s.subteam,
              DaysClockedIn(rows, s.id, start, end),
              LastDay(rows, s.id, start, end),
              TotalSeconds(rows, s.id, start, end))
  }

  /** The last day is missing exactly when no day was counted. */
  lemma {:induction false} NoneMeansNoDays(rows: seq<Session>, studentId: int, start: Date, end: Date)
    ensures LastDay(rows, studentId, start, end).None? <==> DaysClockedIn(rows, studentId, start, end) == 0
  {
    if rows != [] {
      NoneMeansNoDays(rows[1..], studentId, start, end);
    }
  }

  /**
   * `GET /api/mentor/report`: 400 without both ends of the range; otherwise
   * one row per active student, students without sessions included.
   */
  function Report(students: seq<Student>, sessions: seq<Session>, start: Option<Date>, end: Option<Date>): (r: Result<seq<ReportRow>>)
    ensures start.None? || end.None? ==> r == Err(400, "Missing start/end (YYYY-MM-DD)")
    ensures start.Some? && end.Some? ==> r.Ok? && |r.value| == ActiveCount(students)
    ensures r.Ok? ==> forall k :: 0 <= k < |r.value| ==>
              r.value[k] == ReportRowFor(ActiveStudents(students)[k], sessions, start.value, end.value)
  {
    if start.None? || end.None? then Err(400, "Missing start/end (YYYY-MM-DD)")
    else
      var act := ActiveStudents(students);
      Ok(seq(|act|, k requires 0 <= k < |act| => ReportRowFor(act[k], sessions, start.value, end.value)))
  }
}
