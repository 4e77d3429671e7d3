/**
 * The task board's tables (`tasks`, `task_assignments`, `task_comments`) and
 * the pure rules over them: valid statuses, the to-do bump on clock-in,
 * idempotent assignment with soft leave, comment authorship, and the listing
 * with its staleness flag and status-rank order.
 */
module TaskBoard {
  import opened Common
  import opened Roster

  /** Activity older than this makes a task stale. */
  const STALE_AFTER: int := 3 * DAY
  /** `'epoch'::timestamptz`, the stand-in for a missing comment or assignment. */
  const EPOCH: Time := 0

  datatype Task = Task(
    id: int,
    title: string,
    subteam: string,
    status: string,
    description: string,
    archived: bool,
    createdAt: Time,
    updatedAt: Time)

  datatype Assignment = Assignment(taskId: int, studentId: int, assignedAt: Time, unassignedAt: Option<Time>)

  datatype Comment = Comment(id: int, taskId: int, authorType: string, authorLabel: string, text: string, createdAt: Time)

  predicate ValidStatus(s: string) {
    s == "todo" || s == "in_progress" || s == "blocked" || s == "done"
  }

  /**
   * The status a new task gets: a valid given status, otherwise "todo".
   * `includes` compares with `===`, so only a string can be valid.
   */
  function CreateStatus(status: JsValue): (r: string)
    ensures ValidStatus(r)
    ensures status.Str? && ValidStatus(status.s) ==> r == status.s
    ensures !(status.Str? && ValidStatus(status.s)) ==> r == "todo"
  {
    if Truthy(status) && status.Str? && ValidStatus(status.s) then status.s else "todo"
  }

  /** The status a patch writes: a valid given status, or nothing (the patch keeps the old one). */
  function PatchStatus(status: JsValue): (r: Option<string>)
    ensures r.Some? <==> status.Str? && ValidStatus(status.s)
    ensures r.Some? ==> r.value == status.s
  {
    if Truthy(status) && status.Str? && ValidStatus(status.s) then Some(status.s) else None
  }

  /** Clock-in with a task: "todo" moves to "in_progress", every other status stays. */
  function BumpOnClockIn(t: Task, now: Time): (r: Task)
    ensures t.status == "todo" ==> r.status == "in_progress"
    ensures t.status != "todo" ==> r.status == t.status
    ensures r == t.(status := r.status, updatedAt := now)
  {
    t.(status := if t.status == "todo" then "in_progress" else t.status, updatedAt := now)
  }

  ghost predicate UniqueTaskIds(tasks: seq<Task>) {
    forall i, j :: 0 <= i < j < |tasks| ==> tasks[i].id != tasks[j].id
  }

  /** Every task id is below `next`, so `next` is a fresh serial id. */
  ghost predicate TaskIdsBelow(tasks: seq<Task>, next: int) {
    forall k :: 0 <= k < |tasks| ==> tasks[k].id < next
  }

  /** Appending a task under the next serial id keeps the ids unique and below the advanced counter. */
  lemma AppendTaskKeepsKeys(tasks: seq<Task>, t: Task, next: int)
    requires UniqueTaskIds(tasks) && TaskIdsBelow(tasks, next) && t.id == next
    ensures UniqueTaskIds(tasks + [t]) && TaskIdsBelow(tasks + [t], next + 1)
  {
  }

  /**
   * The row `POST /api/tasks` inserts: trimmed title and subteam, a valid
   * status ("todo" by default), the trimmed description or "", not archived.
   */
  function NewTask(id: int, title: JsValue, subteam: JsValue, description: JsValue, status: JsValue, now: Time): (r: Task)
    ensures r.id == id && r.title == Trim(JsString(title)) && r.subteam == Trim(JsString(subteam))
    ensures r.status == CreateStatus(status) && ValidStatus(r.status)
    ensures r.description == TrimmedText(description)
    ensures !r.archived && r.createdAt == now && r.updatedAt == now
  {
    Task(id, Trim(JsString(title)), Trim(JsString(subteam)), CreateStatus(status), TrimmedText(description), false, now, now)
  }

  /**
   * The row `PATCH /api/tasks/:id` writes: a blank title or subteam keeps the
   * old one, an undefined description keeps the old one (any other value,
   * null included, is written as `String(description)`), an invalid status
   * keeps the old one.
   */
  function PatchedTask(t: Task, title: JsValue, subteam: JsValue, description: JsValue, status: JsValue, now: Time): (r: Task)
    ensures r.id == t.id && r.archived == t.archived && r.createdAt == t.createdAt && r.updatedAt == now
    ensures r.title == if TrimmedText(title) == "" then t.title else TrimmedText(title)
    ensures r.subteam == if TrimmedText(subteam) == "" then t.subteam else TrimmedText(subteam)
    ensures r.description == if description.Undefined? then t.description else JsString(description)
    ensures r.status == if PatchStatus(status).Some? then status.s else t.status
    ensures ValidStatus(t.status) ==> ValidStatus(r.status)
  {
    var ti := TrimmedText(title);
    var su := TrimmedText(subteam);
    var st := PatchStatus(status);
    t.(title := if ti == "" then t.title else ti,
       subteam := if su == "" then t.subteam else su,
       description := if description.Undefined? then t.description else JsString(description),
       status := if st.Some? then st.value else t.status,
       updatedAt := now)
  }

  /** The index of the task with that id, or -1. */
  function FindTask(tasks: seq<Task>, id: int): (i: int)
    ensures -1 <= i < |tasks|
    ensures 0 <= i ==> tasks[i].id == id
    ensures i == -1 <==> forall k :: 0 <= k < |tasks| ==> tasks[k].id != id
  {
    if tasks == [] then -1
    else if tasks[0].id == id then 0
    else
      var j := FindTask(tasks[1..], id);
      if j < 0 then -1 else j + 1
  }

  /** `update tasks set ... where id = $1`: the rows with that id are rewritten by `f`, the others kept. */
  function UpdateTask(tasks: seq<Task>, id: int, f: Task -> Task): (r: seq<Task>)
    ensures |r| == |tasks|
    ensures forall k :: 0 <= k < |tasks| ==> r[k] == if tasks[k].id == id then f(tasks[k]) else tasks[k]
  {
    seq(|tasks|, k requires 0 <= k < |tasks| => if tasks[k].id == id then f(tasks[k]) else tasks[k])
  }

  /** `update tasks set updated_at=now() where id=$1`. */
  function Touch(tasks: seq<Task>, id: int, now: Time): (r: seq<Task>)
    ensures |r| == |tasks|
    ensures forall k :: 0 <= k < |tasks| ==> r[k] == if tasks[k].id == id then tasks[k].(updatedAt := now) else tasks[k]
    ensures forall k :: 0 <= k < |tasks| ==> r[k].id == tasks[k].id
  {
    UpdateTask(tasks, id, (t: Task) => t.(updatedAt := now))
  }

  /** The clock-in's task UPDATE: the task with that id gets the to-do bump, the others are kept. */
  function BumpTasks(tasks: seq<Task>, id: int, now: Time): (r: seq<Task>)
    ensures |r| == |tasks|
    ensures forall k :: 0 <= k < |tasks| ==> r[k] == if tasks[k].id == id then BumpOnClockIn(tasks[k], now) else tasks[k]
    ensures forall k :: 0 <= k < |tasks| ==> r[k].id == tasks[k].id
  {
    UpdateTask(tasks, id, (t: Task) => BumpOnClockIn(t, now))
  }

  /** Bumping a task leaves every id where it was, so the keys stay unique and below the counter. */
  lemma BumpKeepsKeys(tasks: seq<Task>, id: int, now: Time, next: int)
    requires UniqueTaskIds(tasks) && TaskIdsBelow(tasks, next)
    ensures UniqueTaskIds(BumpTasks(tasks, id, now)) && TaskIdsBelow(BumpTasks(tasks, id, now), next)
  {
  }

  /* ---------------- Assignments ---------------- */

  predicate ActiveFor(a: Assignment, taskId: int, studentId: int) {
    a.taskId == taskId && a.studentId == studentId && a.unassignedAt.None?
  }

  /** The partial unique index: at most one row with `unassigned_at is null` per (task, student). */
  ghost predicate OneActive(rows: seq<Assignment>) {
    forall i, j :: 0 <= i < j < |rows| && rows[i].unassignedAt.None? && rows[j].unassignedAt.None? ==>
      (rows[i].taskId, rows[i].studentId) != (rows[j].taskId, rows[j].studentId)
  }

  function HasActive(rows: seq<Assignment>, taskId: int, studentId: int): (r: bool)
    ensures r <==> exists k :: 0 <= k < |rows| && ActiveFor(rows[k], taskId, studentId)
  {
    if rows == [] then false
    else ActiveFor(rows[0], taskId, studentId) || HasActive(rows[1..], taskId, studentId)
  }

  /** How many active rows there are for the pair. */
  function ActiveRows(rows: seq<Assignment>, taskId: int, studentId: int): (n: nat)
    ensures n == 0 <==> !HasActive(rows, taskId, studentId)
  {
    if rows == [] then 0
    else (if ActiveFor(rows[0], taskId, studentId) then 1 else 0) + ActiveRows(rows[1..], taskId, studentId)
  }

  /** Under the partial unique index a pair has at most one active row. */
  lemma {:induction false} OneActiveAtMostOne(rows: seq<Assignment>, taskId: int, studentId: int)
    requires OneActive(rows)
    ensures ActiveRows(rows, taskId, studentId) <= 1
  {
    if rows != [] {
      assert OneActive(rows[1..]);
      OneActiveAtMostOne(rows[1..], taskId, studentId);
      if ActiveFor(rows[0], taskId, studentId) {
        forall k | 0 <= k < |rows[1..]| ensures !ActiveFor(rows[1..][k], taskId, studentId) {
          assert rows[1..][k] == rows[k + 1];
        }
      }
    }
  }

  /**
   * `insert into task_assignments ... on conflict (task_id, student_id)
   * where unassigned_at is null do nothing`: a row is added only when the
   * pair has no active row, so the index is never violated.
   */
  function AddAssignment(rows: seq<Assignment>, taskId: int, studentId: int, now: Time): (r: seq<Assignment>)
    requires OneActive(rows)
    ensures OneActive(r)
    ensures HasActive(r, taskId, studentId)
    ensures HasActive(rows, taskId, studentId) ==> r == rows
    ensures !HasActive(rows, taskId, studentId) ==> r == rows + [Assignment(taskId, studentId, now, None)]
  {
    if HasActive(rows, taskId, studentId) then rows
    else
      var r := rows + [Assignment(taskId, studentId, now, None)];
      assert ActiveFor(r[|rows|], taskId, studentId);
      r
  }

  /**
   * The leave UPDATE: only the pair's active row gets `unassigned_at = now`;
   * every row is kept, so the history of memberships stays.
   */
  function Unassign(rows: seq<Assignment>, taskId: int, studentId: int, now: Time): (r: seq<Assignment>)
    requires OneActive(rows)
    ensures OneActive(r)
    ensures |r| == |rows|
    ensures !HasActive(r, taskId, studentId)
    ensures forall k :: 0 <= k < |rows| ==>
              r[k] == if ActiveFor(rows[k], taskId, studentId) then rows[k].(unassignedAt := Some(now)) else rows[k]
  {
    seq(|rows|, k requires 0 <= k < |rows| =>
      if ActiveFor(rows[k], taskId, studentId) then rows[k].(unassignedAt := Some(now)) else rows[k])
  }

  /** Joining twice leaves exactly one active row for the pair. */
  lemma JoinTwice(rows: seq<Assignment>, taskId: int, studentId: int, t1: Time, t2: Time)
    requires OneActive(rows)
    ensures AddAssignment(AddAssignment(rows, taskId, studentId, t1), taskId, studentId, t2)
            == AddAssignment(rows, taskId, studentId, t1)
    ensures ActiveRows(AddAssignment(rows, taskId, studentId, t1), taskId, studentId) == 1
  {
    OneActiveAtMostOne(AddAssignment(rows, taskId, studentId, t1), taskId, studentId);
  }

  /**
   * Leave, then join again: the old row is kept with its `unassigned_at`
   * stamped, a new active row is appended, and the pair has exactly one
   * active row.
   */
  lemma RejoinAfterLeave(rows: seq<Assignment>, taskId: int, studentId: int, t1: Time, t2: Time)
    requires OneActive(rows)
    ensures var left := Unassign(rows, taskId, studentId, t1);
            var back := AddAssignment(left, taskId, studentId, t2);
            back == left + [Assignment(taskId, studentId, t2, None)]
            && |back| == |rows| + 1
            && ActiveRows(back, taskId, studentId) == 1
  {
    var left := Unassign(rows, taskId, studentId, t1);
    OneActiveAtMostOne(AddAssignment(left, taskId, studentId, t2), taskId, studentId);
  }

  /* ---------------- Comments ---------------- */

  /** The author of a comment: a student found by id, or a mentor with a label. */
  datatype Author = StudentAuthor(name: string) | MentorAuthor(mentorLabel: string)

  /**
   * Author resolution of the comment handler. With a truthy student id the
   * author is that student (404 when no such student, active or not);
   * otherwise it is a mentor whose label is the trimmed given label, or
   * "Mentor" when that is blank.
   */
  function ResolveAuthor(students: seq<Student>, studentId: Option<int>, authorLabel: JsValue): (r: Result<Author>)
    ensures PresentId(studentId) && FindStudent(students, studentId.value) < 0 ==> r == Err(404, "Student not found")
    ensures PresentId(studentId) && FindStudent(students, studentId.value) >= 0 ==>
              r == Ok(StudentAuthor(students[FindStudent(students, studentId.value)].fullName))
    ensures !PresentId(studentId) ==> r.Ok? && r.value.MentorAuthor? && r.value.mentorLabel != ""
    ensures !PresentId(studentId) && Truthy(authorLabel) && Trim(JsString(authorLabel)) != "" ==>
              r == Ok(MentorAuthor(Trim(JsString(authorLabel))))
    ensures !PresentId(studentId) && (!Truthy(authorLabel) || Trim(JsString(authorLabel)) == "") ==>
              r == Ok(MentorAuthor("Mentor"))
  {
    if PresentId(studentId) then
      var i := FindStudent(students, studentId.value);
      if i < 0 then Err(404, "Student not found") else Ok(StudentAuthor(students[i].fullName))
    else if Truthy(authorLabel) && Trim(JsString(authorLabel)) != "" then
      Ok(MentorAuthor(Trim(JsString(authorLabel))))
    else
      Ok(MentorAuthor("Mentor"))
  }

  /** `!comment || !String(comment).trim()`: the comment is rejected when blank. */
  predicate BlankComment(comment: JsValue) {
    !Truthy(comment) || Trim(JsString(comment)) == ""
  }

  /**
   * The row a comment insert writes: a student author is recorded as
   * "student" with the student's name, any other as "mentor" with its label.
   */
  function NewComment(id: int, taskId: int, author: Author, text: string, now: Time): (c: Comment)
    ensures c.id == id && c.taskId == taskId && c.text == text && c.createdAt == now
    ensures author.StudentAuthor? ==> c.authorType == "student" && c.authorLabel == author.name
    ensures author.MentorAuthor? ==> c.authorType == "mentor" && c.authorLabel == author.mentorLabel
  {
    match author
    case StudentAuthor(name) => Comment(id, taskId, "student", name, text, now)
    case MentorAuthor(l) => Comment(id, taskId, "mentor", l, text, now)
  }

  /** `select ... from task_comments where task_id = $1`, in table order. */
  function CommentsOf(comments: seq<Comment>, taskId: int): (r: seq<Comment>)
    ensures forall c :: c in r <==> c in comments && c.taskId == taskId
    ensures |r| <= |comments|
  {
    if comments == [] then []
    else if comments[0].taskId == taskId then [comments[0]] + CommentsOf(comments[1..], taskId)
    else CommentsOf(comments[1..], taskId)
  }

  /** Selecting a task's comments keeps their order: the comments of a joined table are joined. */
  lemma {:induction false} CommentsOfAppend(a: seq<Comment>, b: seq<Comment>, taskId: int)
    ensures CommentsOf(a + b, taskId) == CommentsOf(a, taskId) + CommentsOf(b, taskId)
  {
    if a != [] {
      assert (a + b)[1..] == a[1..] + b;
      CommentsOfAppend(a[1..], b, taskId);
    } else {
      assert a + b == b;
    }
  }

  predicate Chronological(comments: seq<Comment>) {
    forall i, j :: 0 <= i < j < |comments| ==> comments[i].createdAt <= comments[j].createdAt
  }

  /**
   * `order by created_at asc`: on a table whose rows are in creation order
   * the selected comments are in creation order too.
   */
  lemma {:induction false} CommentsOfChronological(comments: seq<Comment>, taskId: int)
    requires Chronological(comments)
    ensures Chronological(CommentsOf(comments, taskId))
  {
    if comments != [] {
      var tail := comments[1..];
      CommentsOfChronological(tail, taskId);
      var rest := CommentsOf(tail, taskId);
      forall j | 0 <= j < |rest|
        ensures comments[0].createdAt <= rest[j].createdAt
      {
        assert rest[j] in tail;
        var m :| 0 <= m < |tail| && tail[m] == rest[j];
        assert comments[m + 1] == rest[j];
      }
    }
  }

  /* ---------------- Listing ---------------- */

  /** `max(created_at)` of the task's comments. */
  function LastCommentAt(comments: seq<Comment>, taskId: int): (r: Option<Time>)
    ensures r.None? <==> forall k :: 0 <= k < |comments| ==> comments[k].taskId != taskId
    ensures r.Some? ==> forall k :: 0 <= k < |comments| && comments[k].taskId == taskId ==> comments[k].createdAt <= r.value
    ensures r.Some? ==> exists k :: 0 <= k < |comments| && comments[k].taskId == taskId && comments[k].createdAt == r.value
  {
    if comments == [] then None
    else
      var rest := LastCommentAt(comments[1..], taskId);
      if comments[0].taskId != taskId then
        (if rest.Some? then
          var k :| 0 <= k < |comments[1..]| && comments[1..][k].taskId == taskId && comments[1..][k].createdAt == rest.value;
          assert comments[k + 1] == comments[1..][k];
          rest
        else rest)
      else if rest.Some? && rest.value > comments[0].createdAt then
        var k :| 0 <= k < |comments[1..]| && comments[1..][k].taskId == taskId && comments[1..][k].createdAt == rest.value;
        assert comments[k + 1] == comments[1..][k];
        rest
      else Some(comments[0].createdAt)
  }

  /** `max(assigned_at)` of the task's active assignment rows. */
  function LastAssignedAt(rows: seq<Assignment>, taskId: int): (r: Option<Time>)
    ensures r.None? <==> forall k :: 0 <= k < |rows| ==> !(rows[k].taskId == taskId && rows[k].unassignedAt.None?)
    ensures r.Some? ==> forall k :: 0 <= k < |rows| && rows[k].taskId == taskId && rows[k].unassignedAt.None? ==>
              rows[k].assignedAt <= r.value
    ensures r.Some? ==> exists k :: (0 <= k < |rows| && rows[k].taskId == taskId && rows[k].unassignedAt.None?
              && rows[k].assignedAt == r.value)
  {
    if rows == [] then None
    else
      var rest := LastAssignedAt(rows[1..], taskId);
      if !(rows[0].taskId == taskId && rows[0].unassignedAt.None?) then
        (if rest.Some? then
          var k :| 0 <= k < |rows[1..]| && rows[1..][k].taskId == taskId && rows[1..][k].unassignedAt.None?
                   && rows[1..][k].assignedAt == rest.value;
          assert rows[k + 1] == rows[1..][k];
          rest
        else rest)
      else if rest.Some? && rest.value > rows[0].assignedAt then
        var k :| 0 <= k < |rows[1..]| && rows[1..][k].taskId == taskId && rows[1..][k].unassignedAt.None?
                 && rows[1..][k].assignedAt == rest.value;
        assert rows[k + 1] == rows[1..][k];
        rest
      else Some(rows[0].assignedAt)
  }

  function Max(a: int, b: int): (r: int)
    ensures r >= a && r >= b && (r == a || r == b)
  {
    if a < b then b else a
  }

  function OrEpoch(t: Option<Time>): Time { if t.Some? then t.value else EPOCH }

  /**
   * `last_activity_at = greatest(updated_at, coalesce(last comment, epoch),
   * coalesce(last active assignment, epoch))`.
   */
  function LastActivity(t: Task, comments: seq<Comment>, rows: seq<Assignment>): (r: Time)
    ensures r >= t.updatedAt
    ensures forall k :: 0 <= k < |comments| && comments[k].taskId == t.id ==> comments[k].createdAt <= r
    ensures forall k :: 0 <= k < |rows| && rows[k].taskId == t.id && rows[k].unassignedAt.None? ==> rows[k].assignedAt <= r
    ensures r == t.updatedAt || r == EPOCH || Some(r) == LastCommentAt(comments, t.id) || Some(r) == LastAssignedAt(rows, t.id)
  {
    Max(t.updatedAt, Max(OrEpoch(LastCommentAt(comments, t.id)), OrEpoch(LastAssignedAt(rows, t.id))))
  }

  /**
   * The epoch is only a fallback: a task touched, commented on and assigned
   * before 1970 has its last activity before the epoch.
   */
  lemma PreEpochActivity(t: Task, c: Comment, a: Assignment)
    requires t.updatedAt < EPOCH && c.taskId == t.id && c.createdAt < EPOCH
    requires a.taskId == t.id && a.unassignedAt.None? && a.assignedAt < EPOCH
    ensures LastActivity(t, [c], [a]) < EPOCH
  {
    assert LastCommentAt([c], t.id) == Some(c.createdAt);
    assert LastAssignedAt([a], t.id) == Some(a.assignedAt);
  }

  /** `is_stale`: the last activity is more than three days before `now`. */
  predicate IsStale(t: Task, comments: seq<Comment>, rows: seq<Assignment>, now: Time) {
    LastActivity(t, comments, rows) < now - STALE_AFTER
  }

  /** A comment on the task posted within the last three days makes it fresh again. */
  lemma CommentRefreshes(t: Task, comments: seq<Comment>, rows: seq<Assignment>, c: Comment, now: Time)
    requires c.taskId == t.id && c.createdAt >= now - STALE_AFTER
    ensures !IsStale(t, comments + [c], rows, now)
  {
    assert (comments + [c])[|comments|] == c;
  }

  /** A task whose update, comments and active assignments are all older than three days is stale. */
  lemma UntouchedIsStale(t: Task, comments: seq<Comment>, rows: seq<Assignment>, now: Time)
    requires EPOCH < now - STALE_AFTER && t.updatedAt < now - STALE_AFTER
    requires forall k :: 0 <= k < |comments| && comments[k].taskId == t.id ==> comments[k].createdAt < now - STALE_AFTER
    requires forall k :: 0 <= k < |rows| && rows[k].taskId == t.id && rows[k].unassignedAt.None? ==>
               rows[k].assignedAt < now - STALE_AFTER
    ensures IsStale(t, comments, rows, now)
  {
  }

  /** The listing filter of `GET /api/tasks`, already trimmed and lower-cased by the handler. */
  datatype Filter = Filter(subteam: string, status: string, includeArchived: bool)

  /** `String(includeArchived || "").toLowerCase() === "true"`. */
  function IncludeArchivedFlag(q: Option<string>): (r: bool)
    ensures q.None? ==> !r
    ensures r <==> q.Some? && |q.value| == 4 && forall k :: 0 <= k < 4 ==> q.value[k] == "true"[k] || q.value[k] == "TRUE"[k]
  {
    q.Some? && AsciiLower(q.value) == "true"
  }

  /** "true" in any mix of cases includes archived tasks; "yes", "1" and "" do not. */
  lemma ArchivedSpellings()
    ensures IncludeArchivedFlag(Some("true")) && IncludeArchivedFlag(Some("TRUE")) && IncludeArchivedFlag(Some("tRuE"))
    ensures !IncludeArchivedFlag(Some("yes")) && !IncludeArchivedFlag(Some("1")) && !IncludeArchivedFlag(Some(""))
    ensures !IncludeArchivedFlag(Some("true "))
  {
    assert "tRuE"[0] == "true"[0] && "tRuE"[1] == "TRUE"[1] && "tRuE"[2] == "true"[2] && "tRuE"[3] == "TRUE"[3];
  }

  /** The query string of `GET /api/tasks` turned into a filter; empty values filter nothing. */
  function ParseFilter(subteam: Option<string>, status: Option<string>, includeArchived: Option<string>): (f: Filter)
    ensures subteam.None? ==> f.subteam == ""
    ensures subteam.Some? ==> f.subteam == Trim(subteam.value)
    ensures status.None? ==> f.status == ""
    ensures status.Some? ==> f.status == Trim(status.value)
    ensures f.includeArchived == IncludeArchivedFlag(includeArchived)
  {
    Filter(if subteam.Some? then Trim(subteam.value) else "",
           if status.Some? then Trim(status.value) else "",
           IncludeArchivedFlag(includeArchived))
  }

  predicate Selected(t: Task, f: Filter) {
    (f.subteam == "" || t.subteam == f.subteam)
    && (f.status == "" || t.status == f.status)
    && (f.includeArchived || !t.archived)
  }

  /**
   * One listing row: the task, its annotations and its current assignees
   * (id, name). `rank` is the status rank the query sorts on; it is not sent.
   */
  datatype TaskRow = TaskRow(task: Task, rank: nat, lastActivityAt: Time, isStale: bool, assignees: seq<(int, string)>)

  /**
   * `join students s on s.id = ta.student_id where ta.task_id = t.id and
   * ta.unassigned_at is null`: the students with an active assignment on
   * the task, each with the name of its student row, in assignment order.
   */
  function Assignees(rows: seq<Assignment>, students: seq<Student>, taskId: int): (r: seq<(int, string)>)
    ensures forall k :: 0 <= k < |r| ==> HasActive(rows, taskId, r[k].0)
    ensures forall k :: 0 <= k < |r| ==> Named(students, r[k])
  {
    if rows == [] then []
    else
      var rest := Assignees(rows[1..], students, taskId);
      var i := FindStudent(students, rows[0].studentId);
      assert forall k :: 0 <= k < |rest| ==> HasActive(rows, taskId, rest[k].0) by {
        forall k | 0 <= k < |rest| ensures HasActive(rows, taskId, rest[k].0) {
          var m :| 0 <= m < |rows[1..]| && ActiveFor(rows[1..][m], taskId, rest[k].0);
          assert ActiveFor(rows[m + 1], taskId, rest[k].0);
        }
      }
      if ActiveFor(rows[0], taskId, rows[0].studentId) && i >= 0 then [(rows[0].studentId, students[i].fullName)] + rest
      else rest
  }

  /** Every active assignment of the task whose student row exists is listed, with that student's name. */
  lemma {:induction false} AssigneesComplete(rows: seq<Assignment>, students: seq<Student>, taskId: int, k: int)
    requires 0 <= k < |rows| && ActiveFor(rows[k], taskId, rows[k].studentId)
    requires FindStudent(students, rows[k].studentId) >= 0
    ensures (rows[k].studentId, students[FindStudent(students, rows[k].studentId)].fullName) in Assignees(rows, students, taskId)
  {
    if k > 0 {
      assert rows[1..][k - 1] == rows[k];
      AssigneesComplete(rows[1..], students, taskId, k - 1);
    }
  }

  /** The pair is a student row's id with that row's full name. */
  predicate Named(students: seq<Student>, p: (int, string)) {
    FindStudent(students, p.0) >= 0 && p.1 == students[FindStudent(students, p.0)].fullName
  }

  function Annotate(t: Task, comments: seq<Comment>, rows: seq<Assignment>, students: seq<Student>, now: Time): (r: TaskRow)
    ensures r.task == t && r.rank == Rank(t.status) && r.lastActivityAt == LastActivity(t, comments, rows)
    ensures r.isStale <==> IsStale(t, comments, rows, now)
    ensures r.assignees == Assignees(rows, students, t.id)
  {
    TaskRow(t, Rank(t.status), LastActivity(t, comments, rows), IsStale(t, comments, rows, now), Assignees(rows, students, t.id))
  }

  /** The `where` clause: the selected tasks, in table order. */
  function SelectTasks(tasks: seq<Task>, f: Filter): (r: seq<Task>)
    ensures forall t :: t in r <==> t in tasks && Selected(t, f)
  {
    if tasks == [] then []
    else if Selected(tasks[0], f) then [tasks[0]] + SelectTasks(tasks[1..], f)
    else SelectTasks(tasks[1..], f)
  }

  function AnnotateAll(ts: seq<Task>, comments: seq<Comment>, rows: seq<Assignment>, students: seq<Student>, now: Time): (r: seq<TaskRow>)
    ensures |r| == |ts|
    ensures forall k :: 0 <= k < |ts| ==> r[k] == Annotate(ts[k], comments, rows, students, now)
  {
    seq(|ts|, k requires 0 <= k < |ts| => Annotate(ts[k], comments, rows, students, now))
  }

  /** `case status when 'todo' then 1 ... else 5 end`. */
  function Rank(status: string): (r: nat)
    ensures 1 <= r <= 5
    ensures r == 5 <==> !ValidStatus(status)
  {
    if status == "todo" then 1
    else if status == "in_progress" then 2
    else if status == "blocked" then 3
    else if status == "done" then 4
    else 5
  }

  /** `order by rank, updated_at desc`: may `a` stand before `b`? */
  predicate Before(a: TaskRow, b: TaskRow) {
    a.rank < b.rank || (a.rank == b.rank && a.task.updatedAt >= b.task.updatedAt)
  }

  ghost predicate Ordered(rows: seq<TaskRow>) {
    forall i, j :: 0 <= i < j < |rows| ==> Before(rows[i], rows[j])
  }

  /** Places `x` before the first row it may stand before. */
  function Insert(x: TaskRow, rows: seq<TaskRow>): (r: seq<TaskRow>)
    ensures multiset(r) == multiset(rows) + multiset{x}
  {
    if rows == [] then [x]
    else if Before(x, rows[0]) then [x] + rows
    else
      assert rows == [rows[0]] + rows[1..];
      [rows[0]] + Insert(x, rows[1..])
  }

  /** Inserting into an ordered listing keeps it ordered. */
  lemma {:induction false} InsertOrdered(x: TaskRow, rows: seq<TaskRow>)
    requires Ordered(rows)
    ensures Ordered(Insert(x, rows))
  {
    if rows != [] && !Before(x, rows[0]) {
      var rest := Insert(x, rows[1..]);
      InsertOrdered(x, rows[1..]);
      forall j | 0 <= j < |rest| ensures Before(rows[0], rest[j]) {
        assert rest[j] in multiset(rest);
        assert rest[j] == x || rest[j] in multiset(rows[1..]);
        if rest[j] != x {
          assert rest[j] in rows[1..];
        }
      }
    }
  }

  /** The listing order, by insertion. Ties keep no particular order, as in the query. */
  function SortRows(rows: seq<TaskRow>): (r: seq<TaskRow>)
    ensures Ordered(r)
    ensures multiset(r) == multiset(rows)
  {
    if rows == [] then []
    else
      assert rows == [rows[0]] + rows[1..];
      InsertOrdered(rows[0], SortRows(rows[1..]));
      Insert(rows[0], SortRows(rows[1..]))
  }

  /**
   * `GET /api/tasks`: the tasks the filter selects (archived ones only when
   * asked for), each annotated with its last activity, staleness and
   * assignees, ordered by status rank and then most recently updated first.
   */
  function ListTasks(tasks: seq<Task>, f: Filter, comments: seq<Comment>, rows: seq<Assignment>, students: seq<Student>, now: Time): (r: seq<TaskRow>)
    ensures Ordered(r)
    ensures multiset(r) == multiset(AnnotateAll(SelectTasks(tasks, f), comments, rows, students, now))
    ensures forall x :: x in r ==> x.task in tasks && Selected(x.task, f) && x == Annotate(x.task, comments, rows, students, now)
    ensures forall x :: x in r ==> (x.isStale <==> IsStale(x.task, comments, rows, now))
    ensures !f.includeArchived ==> forall x :: x in r ==> !x.task.archived
    ensures forall t :: t in tasks && Selected(t, f) ==> Annotate(t, comments, rows, students, now) in r
  {
    var sel := SelectTasks(tasks, f);
    var ann := AnnotateAll(sel, comments, rows, students, now);
    var r := SortRows(ann);
    assert forall x :: x in r <==> x in ann by {
      forall x ensures x in r <==> x in ann {
        assert x in r <==> x in multiset(r);
        assert x in ann <==> x in multiset(ann);
      }
    }
    assert forall x :: x in ann ==> x.task in sel && x == Annotate(x.task, comments, rows, students, now);
    assert forall t :: t in sel ==> Annotate(t, comments, rows, students, now) in ann by {
      forall t | t in sel ensures Annotate(t, comments, rows, students, now) in ann {
        var k :| 0 <= k < |sel| && sel[k] == t;
        assert ann[k] == Annotate(t, comments, rows, students, now);
      }
    }
    r
  }

  /**
   * In the listing, tasks come in status-rank order (to do, in progress,
   * blocked, done, anything else), and within one status the most recently
   * updated first.
   */
  lemma ListedInRankOrder(tasks: seq<Task>, f: Filter, comments: seq<Comment>, rows: seq<Assignment>, students: seq<Student>, now: Time, i: int, j: int)
    requires 0 <= i < j < |ListTasks(tasks, f, comments, rows, students, now)|
    ensures var r := ListTasks(tasks, f, comments, rows, students, now);
            Rank(r[i].task.status) <= Rank(r[j].task.status)
            && (r[i].task.status == r[j].task.status ==> r[i].task.updatedAt >= r[j].task.updatedAt)
  {
    var r := ListTasks(tasks, f, comments, rows, students, now);
    assert r[i] in r && r[j] in r;
    assert Before(r[i], r[j]);
  }
}
