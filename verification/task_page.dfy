/**
 * The task board page of the client: the four status columns the listing
 * is grouped into, the "assigned to me" test, the column pill colours, and
 * the listing URL the page requests.
 */
module TaskPage {
  import opened Common

  /** A task as the page holds it: its id, status text and assignees' student ids. */
  datatype CardTask = CardTask(id: int, status: string, assignees: seq<int>)

  datatype Column = ToDo | InProgress | Blocked | Done

  /** `g[t.status] || g.todo`: the column of a status; any other status goes to "To Do". */
  function ColumnOf(status: string): (c: Column)
    ensures status == "in_progress" <==> c == InProgress
    ensures status == "blocked" <==> c == Blocked
    ensures status == "done" <==> c == Done
    ensures c == ToDo <==> status != "in_progress" && status != "blocked" && status != "done"
  {
    if status == "in_progress" then InProgress
    else if status == "blocked" then Blocked
    else if status == "done" then Done
    else ToDo
  }

  /** The tasks of one column, in listing order. */
  function InColumn(tasks: seq<CardTask>, c: Column): (r: seq<CardTask>)
    ensures |r| <= |tasks|
    ensures forall t :: t in r <==> t in tasks && ColumnOf(t.status) == c
  {
    if tasks == [] then []
    else if ColumnOf(tasks[0].status) == c then [tasks[0]] + InColumn(tasks[1..], c)
    else InColumn(tasks[1..], c)
  }

  /** The four columns of the board. */
  datatype Board = Board(todo: seq<CardTask>, inProgress: seq<CardTask>, blocked: seq<CardTask>, done: seq<CardTask>)

  function Size(b: Board): nat {
    |b.todo| + |b.inProgress| + |b.blocked| + |b.done|
  }

  /** The board `grouped` should produce: each column holds its tasks in listing order. */
  function Grouping(tasks: seq<CardTask>): Board {
    Board(InColumn(tasks, ToDo), InColumn(tasks, InProgress), InColumn(tasks, Blocked), InColumn(tasks, Done))
  }

  /** `(g[t.status] || g.todo).push(t)`. */
  function Push(g: Board, t: CardTask): (r: Board)
    ensures Size(r) == Size(g) + 1
  {
    match ColumnOf(t.status)
    case ToDo => g.(todo := g.todo + [t])
    case InProgress => g.(inProgress := g.inProgress + [t])
    case Blocked => g.(blocked := g.blocked + [t])
    case Done => g.(done := g.done + [t])
  }

  /**
   * `grouped`: one pass over the tasks, pushing each onto the array of its
   * column. Each column holds exactly its tasks in listing order, and no
   * task is lost or repeated.
   */
  method Grouped(tasks: seq<CardTask>) returns (g: Board)
    ensures g == Grouping(tasks)
    ensures Size(g) == |tasks|
  {
    g := Board([], [], [], []);
    var i := 0;
    while i < |tasks|
      invariant 0 <= i <= |tasks|
      invariant g == Grouping(tasks[..i])
      invariant Size(g) == i
    {
      var t := tasks[i];
      GroupingSnoc(tasks[..i], t);
      assert tasks[..i + 1] == tasks[..i] + [t];
      g := Push(g, t);
      i := i + 1;
    }
    assert tasks[..i] == tasks;
  }

  /** Grouping one more task is pushing it onto the grouping of the others. */
  lemma GroupingSnoc(tasks: seq<CardTask>, t: CardTask)
    ensures Grouping(tasks + [t]) == Push(Grouping(tasks), t)
  {
    InColumnSnoc(tasks, t, ToDo);
    InColumnSnoc(tasks, t, InProgress);
    InColumnSnoc(tasks, t, Blocked);
    InColumnSnoc(tasks, t, Done);
  }

  /** Appending a task extends its own column only. */
  lemma {:induction false} InColumnSnoc(tasks: seq<CardTask>, t: CardTask, c: Column)
    ensures InColumn(tasks + [t], c) == InColumn(tasks, c) + (if ColumnOf(t.status) == c then [t] else [])
  {
    if tasks == [] {
      assert [] + [t] == [t];
      assert [t][1..] == [];
    } else {
      assert (tasks + [t])[1..] == tasks[1..] + [t];
      InColumnSnoc(tasks[1..], t, c);
    }
  }

  /** Every task lands in exactly one column: the four columns together are the listing. */
  lemma ColumnsPartition(tasks: seq<CardTask>)
    ensures |InColumn(tasks, ToDo)| + |InColumn(tasks, InProgress)| + |InColumn(tasks, Blocked)| + |InColumn(tasks, Done)| == |tasks|
    ensures multiset(InColumn(tasks, ToDo)) + multiset(InColumn(tasks, InProgress))
            + multiset(InColumn(tasks, Blocked)) + multiset(InColumn(tasks, Done)) == multiset(tasks)
  {
    ColumnsMultiset(tasks);
    assert |multiset(tasks)| == |tasks|;
  }

  lemma {:induction false} ColumnsMultiset(tasks: seq<CardTask>)
    ensures multiset(InColumn(tasks, ToDo)) + multiset(InColumn(tasks, InProgress))
            + multiset(InColumn(tasks, Blocked)) + multiset(InColumn(tasks, Done)) == multiset(tasks)
  {
    if tasks != [] {
      var h, tl := tasks[0], tasks[1..];
      ColumnsMultiset(tl);
      assert tasks == [h] + tl;
      var a, b, c, d := InColumn(tl, ToDo), InColumn(tl, InProgress), InColumn(tl, Blocked), InColumn(tl, Done);
      match ColumnOf(h.status)
      case ToDo =>
        assert InColumn(tasks, ToDo) == [h] + a;
        AddToPart4(h, multiset(a), multiset(b), multiset(c), multiset(d), multiset(tl));
      case InProgress =>
        assert InColumn(tasks, InProgress) == [h] + b;
        AddToPart4(h, multiset(a), multiset(b), multiset(c), multiset(d), multiset(tl));
      case Blocked =>
        assert InColumn(tasks, Blocked) == [h] + c;
        AddToPart4(h, multiset(a), multiset(b), multiset(c), multiset(d), multiset(tl));
      case Done =>
        assert InColumn(tasks, Done) == [h] + d;
        AddToPart4(h, multiset(a), multiset(b), multiset(c), multiset(d), multiset(tl));
    }
  }

  /** A task with a status the board does not know is shown under "To Do". */
  lemma UnknownStatusIsToDo(tasks: seq<CardTask>, t: CardTask)
    requires t in tasks && t.status != "todo" && t.status != "in_progress" && t.status != "blocked" && t.status != "done"
    ensures t in InColumn(tasks, ToDo)
    ensures t !in InColumn(tasks, InProgress) && t !in InColumn(tasks, Blocked) && t !in InColumn(tasks, Done)
  {
  }

  /* ---------------- Assignment and pills ---------------- */

  /** `Number(s)` for the decimal text of a selected student id: None where it is `NaN`. */
  function NumberOf(s: string): (r: Option<int>)
    ensures Trim(s) == "" ==> r == Some(0)
  {
    var t := Trim(s);
    if t == "" then Some(0)
    else if forall k :: 0 <= k < |t| ==> '0' <= t[k] <= '9' then Some(DigitsValue(t))
    else None
  }

  function DigitsValue(t: string): nat
    requires forall k :: 0 <= k < |t| ==> '0' <= t[k] <= '9'
  {
    if t == [] then 0 else DigitsValue(t[..|t| - 1]) * 10 + (t[|t| - 1] as int - '0' as int)
  }

  /** The decimal text of an id, as the student picker stores it, reads back as that id. */
  lemma {:induction false} NumberOfDecimal(n: nat)
    ensures NumberOf(NatToDecimal(n)) == Some(n)
  {
    var t := NatToDecimal(n);
    assert !IsSpace(t[0]) && !IsSpace(t[|t| - 1]);
    TrimOfTrimmed(t);
    DecimalDigitsValue(n);
  }

  /** `DigitsValue` inverts `NatToDecimal`. */
  lemma {:induction false} DecimalDigitsValue(n: nat)
    ensures DigitsValue(NatToDecimal(n)) == n
  {
    var t := NatToDecimal(n);
    DigitCharValue(n % 10);
    if n >= 10 {
      DecimalDigitsValue(n / 10);
      assert t[..|t| - 1] == NatToDecimal(n / 10);
    }
  }

  /**
   * `isAssigned(task)`: false with no student selected; otherwise whether
   * some assignee's id equals the selected id as a number.
   */
  function IsAssigned(t: CardTask, studentId: string): (r: bool)
    ensures studentId == "" ==> !r
    ensures r <==> studentId != "" && NumberOf(studentId).Some? && NumberOf(studentId).value in t.assignees
  {
    if studentId == "" then false
    else
      var n := NumberOf(studentId);
      n.Some? && exists k :: 0 <= k < |t.assignees| && t.assignees[k] == n.value
  }

  /** The selection "12" is assigned to a task exactly when student 12 is among its assignees. */
  lemma SelectedIdMatches(t: CardTask)
    ensures IsAssigned(t, "12") <==> 12 in t.assignees
  {
    TrimOfTrimmed("12");
    assert DigitsValue("12") == 12 by {
      assert "12"[..1] == "1" && "1"[..0] == [];
    }
  }

  const TODO_PILL: string := "bg-slate-900/50 border-slate-700 text-slate-200"
  const IN_PROGRESS_PILL: string := "bg-blue-950/40 border-blue-800 text-blue-200"
  const BLOCKED_PILL: string := "bg-amber-950/40 border-amber-700 text-amber-200"
  const DONE_PILL: string := "bg-emerald-950/40 border-emerald-700 text-emerald-200"

  /** `pillStyle(key)`: the colour classes of a column's pill; any other key looks like "todo". */
  function PillStyle(key: string): (r: string)
    ensures key == "in_progress" <==> r == IN_PROGRESS_PILL
    ensures key == "blocked" <==> r == BLOCKED_PILL
    ensures key == "done" <==> r == DONE_PILL
    ensures key != "in_progress" && key != "blocked" && key != "done" <==> r == TODO_PILL
  {
    PillsDistinct();
    if key == "todo" then TODO_PILL
    else if key == "in_progress" then IN_PROGRESS_PILL
    else if key == "blocked" then BLOCKED_PILL
    else if key == "done" then DONE_PILL
    else TODO_PILL
  }

  /** The four pills differ from one another. */
  lemma PillsDistinct()
    ensures TODO_PILL != IN_PROGRESS_PILL && TODO_PILL != BLOCKED_PILL && TODO_PILL != DONE_PILL
    ensures IN_PROGRESS_PILL != BLOCKED_PILL && IN_PROGRESS_PILL != DONE_PILL && BLOCKED_PILL != DONE_PILL
  {
    assert TODO_PILL[3] == 's';
    assert IN_PROGRESS_PILL[3] == 'b';
    assert BLOCKED_PILL[3] == 'a';
    assert |DONE_PILL| == 53 && |IN_PROGRESS_PILL| == 44 && |TODO_PILL| == 47 && |BLOCKED_PILL| == 47;
  }

  /* ---------------- The listing URL ---------------- */

  const TASKS_PATH: string := "/api/tasks"
  const SUBTEAM_QUERY: string := "?subteam="
  const ARCHIVED_PARAM: string := "includeArchived=true"

  /**
   * The path `load` requests: the subteam filter unless "All" is chosen
   * (`encoded` is `encodeURIComponent(subteam)`), then
   * `includeArchived=true` joined with `&` when the path already has a
   * query and with `?` otherwise.
   */
  function TasksPath(subteam: string, encoded: string, showArchived: bool): (r: string)
    ensures !showArchived ==> r == if subteam == "All" then TASKS_PATH else TASKS_PATH + SUBTEAM_QUERY + encoded
  {
    var base := if subteam == "All" then TASKS_PATH else TASKS_PATH + SUBTEAM_QUERY + encoded;
    if showArchived then base + (if '?' in base then "&" else "?") + ARCHIVED_PARAM else base
  }

  /**
   * With an encoded subteam (which never holds `?`), the requested path
   * has exactly one `?` once it carries any parameter, and asking for
   * archived tasks appends the flag with the right joiner.
   */
  lemma OneQueryStart(subteam: string, encoded: string, showArchived: bool)
    requires '?' !in encoded
    ensures Count(TasksPath(subteam, encoded, showArchived), '?') == if subteam == "All" && !showArchived then 0 else 1
    ensures showArchived && subteam == "All" ==> TasksPath(subteam, encoded, showArchived) == TASKS_PATH + "?" + ARCHIVED_PARAM
    ensures showArchived && subteam != "All" ==>
              TasksPath(subteam, encoded, showArchived) == TASKS_PATH + SUBTEAM_QUERY + encoded + "&" + ARCHIVED_PARAM
  {
    var base := if subteam == "All" then TASKS_PATH else TASKS_PATH + SUBTEAM_QUERY + encoded;
    BaseQueryCount(subteam, encoded);
    if showArchived {
      CountPositive(base, '?');
      ArchivedAppended(base, if subteam == "All" then 0 else 1);
    }
  }

  /** Appending the archived flag to a path with at most one `?` leaves exactly one. */
  lemma ArchivedAppended(base: string, n: nat)
    requires n <= 1 && Count(base, '?') == n && ('?' in base <==> n == 1)
    ensures Count(base + (if '?' in base then "&" else "?") + ARCHIVED_PARAM, '?') == 1
  {
    var sep := if '?' in base then "&" else "?";
    assert Count(sep, '?') == 1 - n by {
      assert sep[1..] == [];
    }
    CountAbsent(ARCHIVED_PARAM, '?');
    CountAppend(base, sep, '?');
    CountAppend(base + sep, ARCHIVED_PARAM, '?');
  }

  lemma BaseQueryCount(subteam: string, encoded: string)
    requires '?' !in encoded
    ensures Count(if subteam == "All" then TASKS_PATH else TASKS_PATH + SUBTEAM_QUERY + encoded, '?')
            == if subteam == "All" then 0 else 1
  {
    CountAbsent(TASKS_PATH, '?');
    CountAbsent(encoded, '?');
    QueryStartCount();
    CountAppend(TASKS_PATH, SUBTEAM_QUERY, '?');
    CountAppend(TASKS_PATH + SUBTEAM_QUERY, encoded, '?');
  }

  lemma QueryStartCount()
    ensures Count(SUBTEAM_QUERY, '?') == 1
  {
    CountAbsent(SUBTEAM_QUERY[1..], '?');
  }
}
