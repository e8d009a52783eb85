/**
 * The read-only handlers: listing the classes, listing the groups of a class
 * and the submission status of a group. Each reads one table, whose rows are
 * passed in, and changes nothing.
 */
module Catalog {
  import opened Schema

  /** The `{"id": ..., "name": ...}` object a listing returns for each row. */
  datatype Entry = Entry(id: int, name: string)

  const MsgAlreadyUploaded: string := "Group has already uploaded an assignment"
  const MsgNotUploaded: string := "Group has not uploaded an assignment"

  /** `SELECT id, name FROM Classes`, one entry per row, in table order. */
  function ListClasses(classes: seq<ClassRow>): (r: seq<Entry>)
    ensures |r| == |classes|
    ensures forall i :: 0 <= i < |r| ==> r[i] == Entry(classes[i].id, classes[i].name)
  {
    if classes == [] then []
    else [Entry(classes[0].id, classes[0].name)] + ListClasses(classes[1..])
  }

  /** `SELECT id, name FROM Groups WHERE class_id = ?`, in table order. */
  function ListGroups(groups: seq<GroupRow>, classId: int): (r: seq<Entry>)
    ensures |r| <= |groups|
    ensures forall e :: e in r ==>
      exists i :: 0 <= i < |groups| && groups[i].classId == classId && e == Entry(groups[i].id, groups[i].name)
  {
    if groups == [] then []
    else
      var rest := ListGroups(groups[1..], classId);
      assert forall e :: e in rest ==>
        exists i :: 0 <= i < |groups| && groups[i].classId == classId && e == Entry(groups[i].id, groups[i].name) by {
        forall e | e in rest
          ensures exists i :: 0 <= i < |groups| && groups[i].classId == classId && e == Entry(groups[i].id, groups[i].name)
        {
          var j :| 0 <= j < |groups[1..]| && groups[1..][j].classId == classId && e == Entry(groups[1..][j].id, groups[1..][j].name);
          assert groups[j + 1] == groups[1..][j];
        }
      }
      if groups[0].classId == classId then [Entry(groups[0].id, groups[0].name)] + rest else rest
  }

  /** Listing a table made of two parts lists the first part, then the second. */
  lemma {:induction false} ListGroupsConcat(a: seq<GroupRow>, b: seq<GroupRow>, classId: int)
    ensures ListGroups(a + b, classId) == ListGroups(a, classId) + ListGroups(b, classId)
    decreases |a|
  {
    if a == [] {
      assert a + b == b;
    } else {
      assert (a + b)[1..] == a[1..] + b;
      ListGroupsConcat(a[1..], b, classId);
    }
  }

  /** Every group of the class is listed. */
  lemma {:induction false} ListGroupsComplete(groups: seq<GroupRow>, classId: int, i: int)
    requires 0 <= i < |groups| && groups[i].classId == classId
    ensures Entry(groups[i].id, groups[i].name) in ListGroups(groups, classId)
    decreases |groups|
  {
    if i > 0 {
      assert groups[1..][i - 1] == groups[i];
      ListGroupsComplete(groups[1..], classId, i - 1);
    }
  }

  /** A class with no groups, or no such class, yields an empty list. */
  lemma ListGroupsNone(groups: seq<GroupRow>, classId: int)
    requires forall i :: 0 <= i < |groups| ==> groups[i].classId != classId
    ensures ListGroups(groups, classId) == []
  {
  }

  /**
   * `is_uploaded`: counts the group's rows and replies `success: true` when the
   * count is zero, that is when the group has NOT yet uploaded.
   */
  function IsUploaded(assignments: seq<AssignmentRow>, groupId: string): (r: Reply)
    ensures r.success <==> !Registered(assignments, groupId)
    ensures r.data == if r.success then MsgNotUploaded else MsgAlreadyUploaded
  {
    CountZeroIff(assignments, groupId);
    if CountRows(assignments, groupId) > 0 then Reply(MsgAlreadyUploaded, false)
    else Reply(MsgNotUploaded, true)
  }

  /**
   * Before a group's first submission the status says "not uploaded"; once its
   * row is inserted, it says "already uploaded".
   */
  lemma StatusFlipsOnInsert(assignments: seq<AssignmentRow>, row: AssignmentRow)
    requires !Registered(assignments, row.groupId)
    ensures IsUploaded(assignments, row.groupId).success
    ensures !IsUploaded(assignments + [row], row.groupId).success
  {
    assert (assignments + [row])[|assignments|] == row;
  }
}
