/**
 * The `students` table: ids and full names are unique, students are
 * deactivated rather than deleted, and the handlers look students up by id
 * (active ones for the student endpoints) or by name (the roster upsert).
 */
module Roster {
  import opened Common

  datatype Student = Student(id: int, fullName: string, subteam: Option<string>, isActive: bool)

  ghost predicate UniqueIds(rows: seq<Student>) {
    forall i, j :: 0 <= i < j < |rows| ==> rows[i].id != rows[j].id
  }

  /** The unique constraint on `full_name` that the roster upsert relies on. */
  ghost predicate UniqueNames(rows: seq<Student>) {
    forall i, j :: 0 <= i < j < |rows| ==> rows[i].fullName != rows[j].fullName
  }

  /** `where id = $1`: the index of the student with that id, or -1. */
  function FindStudent(rows: seq<Student>, id: int): (i: int)
    ensures -1 <= i < |rows|
    ensures 0 <= i ==> rows[i].id == id
    ensures i == -1 <==> forall k :: 0 <= k < |rows| ==> rows[k].id != id
  {
    if rows == [] then -1
    else if rows[0].id == id then 0
    else
      var j := FindStudent(rows[1..], id);
      if j < 0 then -1 else j + 1
  }

  /** `where full_name = $1`: the index of the student with that name, or -1. */
  function FindByName(rows: seq<Student>, name: string): (i: int)
    ensures -1 <= i < |rows|
    ensures 0 <= i ==> rows[i].fullName == name
    ensures i == -1 <==> forall k :: 0 <= k < |rows| ==> rows[k].fullName != name
  {
    if rows == [] then -1
    else if rows[0].fullName == name then 0
    else
      var j := FindByName(rows[1..], name);
      if j < 0 then -1 else j + 1
  }

  /**
   * `assertStudentActive`: `select id from students where id=$1 and
   * is_active=true` finds a row.
   */
  function IsActiveStudent(rows: seq<Student>, id: int): (r: bool)
    requires UniqueIds(rows)
    ensures r <==> exists k :: 0 <= k < |rows| && rows[k].id == id && rows[k].isActive
  {
    var i := FindStudent(rows, id);
    if i >= 0 then
      rows[i].isActive
    else
      false
  }

  /** The number of active students: one report or status-board row each. */
  function ActiveCount(rows: seq<Student>): (n: nat)
    ensures n <= |rows|
  {
    if rows == [] then 0 else (if rows[0].isActive then 1 else 0) + ActiveCount(rows[1..])
  }

  /** The active students, in table order. */
  function ActiveStudents(rows: seq<Student>): (r: seq<Student>)
    ensures |r| == ActiveCount(rows)
    ensures forall k :: 0 <= k < |r| ==> r[k].isActive && r[k] in rows
    ensures forall s :: s in rows && s.isActive ==> s in r
  {
    if rows == [] then []
    else if rows[0].isActive then [rows[0]] + ActiveStudents(rows[1..])
    else ActiveStudents(rows[1..])
  }

  /** Every id in the table is below `next`, so `next` is a fresh serial id. */
  ghost predicate IdsBelow(rows: seq<Student>, next: int) {
    forall k :: 0 <= k < |rows| ==> rows[k].id < next
  }

  /** Rewriting a row in place under its own id, to a name no other row has, keeps the keys unique. */
  lemma ReplaceStudentKeepsKeys(rows: seq<Student>, i: int, s: Student, next: int)
    requires UniqueIds(rows) && UniqueNames(rows) && IdsBelow(rows, next)
    requires 0 <= i < |rows| && s.id == rows[i].id
    requires FindByName(rows, s.fullName) < 0 || FindByName(rows, s.fullName) == i
    ensures UniqueIds(rows[i := s]) && UniqueNames(rows[i := s]) && IdsBelow(rows[i := s], next)
  {
  }

  /**
   * The roster upsert of the earlier revision: a new name is inserted as an
   * active student with the next serial id; a known name has its subteam
   * overwritten and is reactivated. The returned index is the row written.
   */
  function UpsertByName(rows: seq<Student>, name: string, subteam: Option<string>, nextId: int): (r: (seq<Student>, nat))
    requires UniqueIds(rows) && UniqueNames(rows) && IdsBelow(rows, nextId)
    ensures UniqueIds(r.0) && UniqueNames(r.0) && IdsBelow(r.0, nextId + 1)
    ensures r.1 < |r.0| && r.0[r.1].fullName == name && r.0[r.1].subteam == subteam && r.0[r.1].isActive
    ensures FindByName(rows, name) >= 0 ==>
              r.1 == FindByName(rows, name) && |r.0| == |rows|
              && r.0 == rows[r.1 := rows[r.1].(subteam := subteam, isActive := true)]
    ensures FindByName(rows, name) < 0 ==>
              r.0 == rows + [Student(nextId, name, subteam, true)] && r.1 == |rows|
  {
    var i := FindByName(rows, name);
    if i >= 0 then (rows[i := rows[i].(subteam := subteam, isActive := true)], i)
    else (rows + [Student(nextId, name, subteam, true)], |rows|)
  }

  /**
   * The roster upsert of the current revision: as above, but a known name
   * only has its subteam overwritten; a deactivated student stays inactive.
   */
  function UpsertSubteamByName(rows: seq<Student>, name: string, subteam: Option<string>, nextId: int): (r: (seq<Student>, nat))
    requires UniqueIds(rows) && UniqueNames(rows) && IdsBelow(rows, nextId)
    ensures UniqueIds(r.0) && UniqueNames(r.0) && IdsBelow(r.0, nextId + 1)
    ensures r.1 < |r.0| && r.0[r.1].fullName == name && r.0[r.1].subteam == subteam
    ensures FindByName(rows, name) >= 0 ==>
              r.1 == FindByName(rows, name) && r.0 == rows[r.1 := rows[r.1].(subteam := subteam)]
    ensures FindByName(rows, name) < 0 ==>
              r.0 == rows + [Student(nextId, name, subteam, true)] && r.1 == |rows|
  {
    var i := FindByName(rows, name);
    if i >= 0 then (rows[i := rows[i].(subteam := subteam)], i)
    else (rows + [Student(nextId, name, subteam, true)], |rows|)
  }
}
