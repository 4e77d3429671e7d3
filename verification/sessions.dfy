/**
 * The `daily_sessions` table: one row per student per meeting date, the
 * three-state status read off a row, the row updates the student handlers
 * issue, and the four-hour auto-close sweep.
 */
module Sessions {
  import opened Common

  /** How long a forgotten clock-in stays open before the sweep closes it. */
  const AUTO_CLOSE: int := 4 * HOUR

  datatype Session = Session(
    studentId: int,
    meetingDate: Date,
    clockInAt: Option<Time>,
    clockOutAt: Option<Time>,
    subteam: Option<string>,
    workingOn: Option<string>,
    needHelp: bool,
    needHelpAt: Option<Time>,
    needTask: bool,
    needTaskAt: Option<Time>,
    taskId: Option<int>,
    updatedAt: Time)

  datatype Status = NotClockedIn | ClockedIn | ClockedOut

  /** The status as it travels in a response body. */
  function StatusText(st: Status): (r: string)
    ensures r in {"not_clocked_in", "clocked_in", "clocked_out"}
  {
    match st
    case NotClockedIn => "not_clocked_in"
    case ClockedIn => "clocked_in"
    case ClockedOut => "clocked_out"
  }

  lemma StatusTextInjective(a: Status, b: Status)
    requires StatusText(a) == StatusText(b)
    ensures a == b
  {
  }

  /**
   * `pickStatus`: clocked in while the clock-in is set and the clock-out is
   * not, clocked out once both are set, and not clocked in whenever the
   * clock-in is missing, whatever the clock-out says.
   */
  function PickStatus(s: Session): (r: Status)
    ensures r == ClockedIn <==> s.clockInAt.Some? && s.clockOutAt.None?
    ensures r == ClockedOut <==> s.clockInAt.Some? && s.clockOutAt.Some?
    ensures r == NotClockedIn <==> s.clockInAt.None?
  {
    if s.clockInAt.Some? && s.clockOutAt.None? then ClockedIn
    else if s.clockInAt.Some? && s.clockOutAt.Some? then ClockedOut
    else NotClockedIn
  }

  /** The row identity the unique constraint on (student_id, meeting_date) guards. */
  function KeyOf(s: Session): (int, Date) {
    (s.studentId, s.meetingDate)
  }

  /** The session table holds at most one row per student and meeting date. */
  ghost predicate UniqueKeys(rows: seq<Session>) {
    forall i, j :: 0 <= i < j < |rows| ==> KeyOf(rows[i]) != KeyOf(rows[j])
  }

  /** The row the upsert inserts: nothing set yet, both flags down. */
  function NewSession(studentId: int, date: Date, now: Time): (r: Session)
    ensures KeyOf(r) == (studentId, date)
    ensures PickStatus(r) == NotClockedIn && !r.needHelp && !r.needTask
  {
    Session(studentId, date, None, None, None, None, false, None, false, None, None, now)
  }

  /**
   * `coalesce(nullif($2,''), subteam)` with `$2 = subteam || ""`: a truthy
   * value replaces the stored subteam, anything falsy keeps it.
   */
  function MergeSubteam(stored: Option<string>, given: JsValue): (r: Option<string>)
    ensures !Truthy(given) ==> r == stored
    ensures Truthy(given) ==> r == Some(JsString(given)) && r.value != ""
  {
    if Truthy(given) then Some(JsString(given)) else stored
  }

  /**
   * `coalesce($3, working_on)` with `$3 = workingOn ?? null`: only undefined
   * and null keep the stored text; the empty string overwrites it.
   */
  function MergeWorkingOn(stored: Option<string>, given: JsValue): (r: Option<string>)
    ensures Nullish(given) ==> r == stored
    ensures !Nullish(given) ==> r == Some(JsString(given))
    ensures given == Str("") ==> r == Some("")
  {
    if Nullish(given) then stored else Some(JsString(given))
  }

  /**
   * The clock-in UPDATE: the first clock-in time is kept, the clock-out is
   * cleared, the task link is overwritten only when a task is given.
   */
  function ClockInRow(s: Session, subteam: JsValue, workingOn: JsValue, taskId: Option<int>, now: Time): (r: Session)
    ensures KeyOf(r) == KeyOf(s)
    ensures PickStatus(r) == ClockedIn
    ensures s.clockInAt.Some? ==> r.clockInAt == s.clockInAt
    ensures s.clockInAt.None? ==> r.clockInAt == Some(now)
    ensures r.clockOutAt.None?
    ensures r.subteam == MergeSubteam(s.subteam, subteam) && r.workingOn == MergeWorkingOn(s.workingOn, workingOn)
    ensures r.taskId == if taskId.Some? then taskId else s.taskId
    ensures r.needHelp == s.needHelp && r.needHelpAt == s.needHelpAt
    ensures r.needTask == s.needTask && r.needTaskAt == s.needTaskAt
    ensures r.updatedAt == now
  {
    s.(clockInAt := if s.clockInAt.Some? then s.clockInAt else Some(now),
       clockOutAt := None,
       subteam := MergeSubteam(s.subteam, subteam),
       workingOn := MergeWorkingOn(s.workingOn, workingOn),
       taskId := if taskId.Some? then taskId else s.taskId,
       updatedAt := now)
  }

  /** The clock-out UPDATE: only the clock-out (and updated_at) changes. */
  function ClockOutRow(s: Session, now: Time): (r: Session)
    ensures r == s.(clockOutAt := Some(now), updatedAt := now)
    ensures PickStatus(r) == if s.clockInAt.Some? then ClockedOut else NotClockedIn
  {
    s.(clockOutAt := Some(now), updatedAt := now)
  }

  /** The partial UPDATE of `/api/student/update`: subteam and working_on only. */
  function UpdateRow(s: Session, subteam: JsValue, workingOn: JsValue, now: Time): (r: Session)
    ensures r == s.(subteam := r.subteam, workingOn := r.workingOn, updatedAt := now)
    ensures !Truthy(subteam) ==> r.subteam == s.subteam
    ensures Truthy(subteam) ==> r.subteam == Some(JsString(subteam)) && r.subteam.value != ""
    ensures Nullish(workingOn) ==> r.workingOn == s.workingOn
    ensures !Nullish(workingOn) ==> r.workingOn == Some(JsString(workingOn))
    ensures workingOn == Str("") ==> r.workingOn == Some("")
    ensures PickStatus(r) == PickStatus(s)
  {
    s.(subteam := MergeSubteam(s.subteam, subteam),
       workingOn := MergeWorkingOn(s.workingOn, workingOn),
       updatedAt := now)
  }

  /**
   * The need toggle: the chosen flag takes `value`, its timestamp is `now`
   * when raised and null when lowered; the other flag is untouched.
   */
  function NeedRow(s: Session, help: bool, value: bool, now: Time): (r: Session)
    ensures help ==> r.needHelp == value && r.needHelpAt == (if value then Some(now) else None)
    ensures help ==> r.needTask == s.needTask && r.needTaskAt == s.needTaskAt
    ensures !help ==> r.needTask == value && r.needTaskAt == (if value then Some(now) else None)
    ensures !help ==> r.needHelp == s.needHelp && r.needHelpAt == s.needHelpAt
    ensures r.clockInAt == s.clockInAt && r.clockOutAt == s.clockOutAt && KeyOf(r) == KeyOf(s)
    ensures r.subteam == s.subteam && r.workingOn == s.workingOn && r.taskId == s.taskId
  {
    var at := if value then Some(now) else None;
    if help then s.(needHelp := value, needHelpAt := at, updatedAt := now)
    else s.(needTask := value, needTaskAt := at, updatedAt := now)
  }

  /** The rows the sweep closes: clocked in, not out, and opened more than four hours before `now`. */
  predicate Overdue(s: Session, now: Time) {
    s.clockInAt.Some? && s.clockOutAt.None? && s.clockInAt.value < now - AUTO_CLOSE
  }

  /** One row of the auto-close UPDATE: an overdue row is closed exactly four hours after it opened. */
  function AutoCloseRow(s: Session, now: Time): (r: Session)
    ensures !Overdue(s, now) ==> r == s
    ensures Overdue(s, now) ==> r == s.(clockOutAt := Some(s.clockInAt.value + AUTO_CLOSE), updatedAt := now)
    ensures Overdue(s, now) ==> PickStatus(r) == ClockedOut && r.clockOutAt.value < now
    ensures !Overdue(r, now)
  {
    if Overdue(s, now) then s.(clockOutAt := Some(s.clockInAt.value + AUTO_CLOSE), updatedAt := now) else s
  }

  /** `autoCloseOldSessions` over the whole table. */
  function AutoClosed(rows: seq<Session>, now: Time): (r: seq<Session>)
    ensures |r| == |rows|
    ensures forall i :: 0 <= i < |rows| ==> r[i] == AutoCloseRow(rows[i], now)
  {
    seq(|rows|, i requires 0 <= i < |rows| => AutoCloseRow(rows[i], now))
  }

  /** The sweep leaves every row's key alone, so the table keeps one row per key. */
  lemma AutoClosedKeepsKeys(rows: seq<Session>, now: Time)
    requires UniqueKeys(rows)
    ensures UniqueKeys(AutoClosed(rows, now))
    ensures forall i :: 0 <= i < |rows| ==> KeyOf(AutoClosed(rows, now)[i]) == KeyOf(rows[i])
  {
  }

  /** Sweeping twice at the same instant is sweeping once. */
  lemma AutoCloseIdempotent(rows: seq<Session>, now: Time)
    ensures AutoClosed(AutoClosed(rows, now), now) == AutoClosed(rows, now)
  {
  }

  /** After the sweep no row is still open more than four hours after its clock-in. */
  lemma AutoCloseLeavesNoOverdue(rows: seq<Session>, now: Time, i: int)
    requires 0 <= i < |rows|
    ensures !Overdue(AutoClosed(rows, now)[i], now)
  {
  }

  /** Index of the row for (studentId, date), or -1 when there is none. */
  function FindSession(rows: seq<Session>, studentId: int, date: Date): (i: int)
    ensures -1 <= i < |rows|
    ensures 0 <= i ==> KeyOf(rows[i]) == (studentId, date)
    ensures i == -1 <==> forall k :: 0 <= k < |rows| ==> KeyOf(rows[k]) != (studentId, date)
  {
    if rows == [] then -1
    else if KeyOf(rows[0]) == (studentId, date) then 0
    else
      var j := FindSession(rows[1..], studentId, date);
      if j < 0 then -1 else j + 1
  }

  /** `select * ... where student_id=$1 and meeting_date=$2`: the row for the key, if any. */
  function SessionOn(rows: seq<Session>, studentId: int, date: Date): (r: Option<Session>)
    ensures r.None? <==> forall k :: 0 <= k < |rows| ==> KeyOf(rows[k]) != (studentId, date)
    ensures r.Some? ==> r.value in rows && KeyOf(r.value) == (studentId, date)
  {
    var i := FindSession(rows, studentId, date);
    if i < 0 then None else Some(rows[i])
  }

  /**
   * `upsertTodaySession`: `insert ... on conflict (student_id, meeting_date)
   * do update set updated_at = now()`. Gives the new table and the index of
   * the one row for the key.
   */
  function Upsert(rows: seq<Session>, studentId: int, date: Date, now: Time): (r: (seq<Session>, nat))
    requires UniqueKeys(rows)
    ensures UniqueKeys(r.0)
    ensures r.1 < |r.0| && KeyOf(r.0[r.1]) == (studentId, date)
    ensures FindSession(rows, studentId, date) >= 0 ==>
              |r.0| == |rows| && r.1 == FindSession(rows, studentId, date)
              && r.0 == rows[r.1 := rows[r.1].(updatedAt := now)]
    ensures FindSession(rows, studentId, date) < 0 ==>
              r.0 == rows + [NewSession(studentId, date, now)] && r.1 == |rows|
  {
    var i := FindSession(rows, studentId, date);
    if i >= 0 then
      (rows[i := rows[i].(updatedAt := now)], i)
    else
      (rows + [NewSession(studentId, date, now)], |rows|)
  }

  /** Replacing a row by one with the same key keeps one row per key. */
  lemma ReplaceKeepsKeys(rows: seq<Session>, i: int, s: Session)
    requires UniqueKeys(rows) && 0 <= i < |rows| && KeyOf(s) == KeyOf(rows[i])
    ensures UniqueKeys(rows[i := s])
  {
  }
}
