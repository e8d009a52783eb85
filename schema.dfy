/**
 * The rows of the four tables, the `{data, success}` reply payload, and the
 * one-submission-per-group invariant of the Assignments table.
 */
module Schema {
  import opened JsonValues

  /** The JSON payload `{'data': ..., 'success': ...}` every business reply carries. */
  datatype Reply = Reply(data: string, success: bool)

  datatype ClassRow = ClassRow(id: int, name: string)

  datatype GroupRow = GroupRow(id: int, name: string, classId: int)

  /**
   * One submission. The group id is kept as the string the form carried; the
   * five artifact columns hold the joined reference lists.
   */
  datatype AssignmentRow = AssignmentRow(
    groupId: string,
    videoTitle: string,
    videoFile: string,
    projectReport: string,
    scriptFile: string,
    screenshots: string,
    recordingFile: string)

  /** One grading submission, with every value stored as it arrived in the request. */
  datatype GradeRow = GradeRow(
    assignmentId: Json,
    languageScore: Json,
    technicalScore: Json,
    creativityScore: Json,
    teamworkScore: Json)

  /** Some row of the table belongs to the group. */
  predicate Registered(rows: seq<AssignmentRow>, groupId: string) {
    exists i :: 0 <= i < |rows| && rows[i].groupId == groupId
  }

  /** The uniqueness constraint on `group_id`: no two rows share a group. */
  predicate UniqueGroups(rows: seq<AssignmentRow>) {
    forall i, j :: 0 <= i < j < |rows| ==> rows[i].groupId != rows[j].groupId
  }

  /** `SELECT count(1) FROM Assignments WHERE group_id = ?`. */
  function CountRows(rows: seq<AssignmentRow>, groupId: string): nat {
    if rows == [] then 0
    else (if rows[0].groupId == groupId then 1 else 0) + CountRows(rows[1..], groupId)
  }

  /** The count is zero exactly when the group has no row. */
  lemma {:induction false} CountZeroIff(rows: seq<AssignmentRow>, groupId: string)
    ensures CountRows(rows, groupId) == 0 <==> !Registered(rows, groupId)
    decreases |rows|
  {
    if rows != [] {
      CountZeroIff(rows[1..], groupId);
      if Registered(rows[1..], groupId) {
        var i :| 0 <= i < |rows[1..]| && rows[1..][i].groupId == groupId;
        assert rows[i + 1].groupId == groupId;
      }
      if Registered(rows, groupId) && rows[0].groupId != groupId {
        var i :| 0 <= i < |rows| && rows[i].groupId == groupId;
        assert rows[1..][i - 1].groupId == groupId;
      }
    }
  }

  /** Appending a row adds one to its group's count and nothing to any other. */
  lemma {:induction false} CountAppend(rows: seq<AssignmentRow>, row: AssignmentRow, groupId: string)
    ensures CountRows(rows + [row], groupId) == CountRows(rows, groupId) + (if row.groupId == groupId then 1 else 0)
    decreases |rows|
  {
    if rows != [] {
      assert (rows + [row])[1..] == rows[1..] + [row];
      CountAppend(rows[1..], row, groupId);
    }
  }

  /** Under the uniqueness constraint the count is never more than one. */
  lemma {:induction false} CountUnique(rows: seq<AssignmentRow>, groupId: string)
    requires UniqueGroups(rows)
    ensures CountRows(rows, groupId) <= 1
    decreases |rows|
  {
    if rows != [] {
      if rows[0].groupId == groupId {
        forall i | 0 <= i < |rows[1..]|
          ensures rows[1..][i].groupId != groupId
        {
          assert rows[i + 1].groupId != rows[0].groupId;
        }
        CountZeroIff(rows[1..], groupId);
      } else {
        CountUnique(rows[1..], groupId);
      }
    }
  }

  /**
   * Inserting a row for a group that has none keeps the table unique, and the
   * group then has exactly one row.
   */
  lemma InsertKeepsUnique(rows: seq<AssignmentRow>, row: AssignmentRow)
    requires UniqueGroups(rows) && !Registered(rows, row.groupId)
    ensures UniqueGroups(rows + [row])
    ensures Registered(rows + [row], row.groupId)
    ensures CountRows(rows + [row], row.groupId) == 1
  {
    assert (rows + [row])[|rows|] == row;
    CountZeroIff(rows, row.groupId);
    CountAppend(rows, row, row.groupId);
  }
}
