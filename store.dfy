/**
 * The database as state: the four tables as sequences of rows, and the two
 * handlers that insert into them. The read-only tables are filled when the
 * store is created and never change afterwards.
 */
module Store {
  import opened Optional
  import opened JsonValues
  import opened ArtifactLists
  import opened Schema
  import opened Grading
  import Catalog

  const MsgRequired: string := "Group ID and video title are required"
  const MsgDuplicate: string := "This group has already uploaded an assignment"
  const MsgUploaded: string := "Upload successful"
  const MsgInvalidGrade: string := "Invalid data provided"
  const MsgGraded: string := "Grade submitted successfully"

  /**
   * The form of an upload: `get` of the two single fields (absent is `None`)
   * and `getlist` of the five repeated fields, in the order they were sent.
   */
  datatype UploadForm = UploadForm(
    groupId: Option<string>,
    videoTitle: Option<string>,
    video: seq<string>,
    report: seq<string>,
    script: seq<string>,
    screenshot: seq<string>,
    recording: seq<string>)

  /** Python's truth value of a form field: present and non-empty. */
  predicate Present(field: Option<string>) {
    field.Some? && field.value != ""
  }

  /** The row an accepted upload stores. */
  function SubmissionOf(form: UploadForm): AssignmentRow
    requires Present(form.groupId) && Present(form.videoTitle)
  {
    AssignmentRow(form.groupId.value, form.videoTitle.value,
                  Join(form.video), Join(form.report), Join(form.script),
                  Join(form.screenshot), Join(form.recording))
  }

  /** What a handler sends back: a business reply, or HTTP 500 from an escaped exception. */
  datatype Response = Sent(reply: Reply) | InternalError

  class Database {
    var classes: seq<ClassRow>
    var groups: seq<GroupRow>
    var assignments: seq<AssignmentRow>
    var grades: seq<GradeRow>

    /** The uniqueness constraint on `Assignments.group_id`. */
    ghost predicate Valid()
      reads this
    {
      UniqueGroups(assignments)
    }

    constructor (classes: seq<ClassRow>, groups: seq<GroupRow>)
      ensures Valid()
      ensures this.classes == classes && this.groups == groups
      ensures assignments == [] && grades == []
    {
      this.classes := classes;
      this.groups := groups;
      assignments := [];
      grades := [];
    }

    /** `list_classes` on this database's Classes table. */
    function ListClasses(): seq<Catalog.Entry>
      reads this
    {
      Catalog.ListClasses(classes)
    }

    /** `list_groups` on this database's Groups table. */
    function ListGroups(classId: int): seq<Catalog.Entry>
      reads this
    {
      Catalog.ListGroups(groups, classId)
    }

    /** `is_uploaded` on this database's Assignments table. */
    function IsUploaded(groupId: string): Reply
      reads this
    {
      Catalog.IsUploaded(assignments, groupId)
    }

    /**
     * `upload_assignment`: rejects a missing or empty group id or title,
     * rejects a group that already has a row (the constraint violation), and
     * otherwise appends exactly one row. Only the Assignments table can change.
     */
    method Upload(form: UploadForm) returns (reply: Reply)
      requires Valid()
      modifies this`assignments
      ensures Valid()
      ensures reply.success <==> |assignments| == |old(assignments)| + 1
      ensures !Present(form.groupId) || !Present(form.videoTitle) ==>
        reply == Reply(MsgRequired, false) && assignments == old(assignments)
      ensures Present(form.groupId) && Present(form.videoTitle) && Registered(old(assignments), form.groupId.value) ==>
        reply == Reply(MsgDuplicate, false) && assignments == old(assignments)
      ensures Present(form.groupId) && Present(form.videoTitle) && !Registered(old(assignments), form.groupId.value) ==>
        reply == Reply(MsgUploaded, true) && assignments == old(assignments) + [SubmissionOf(form)]
        && CountRows(assignments, form.groupId.value) == 1
    {
      if !Present(form.groupId) || !Present(form.videoTitle) {
        reply := Reply(MsgRequired, false);
        return;
      }
      var row := SubmissionOf(form);
      if Registered(assignments, row.groupId) {
        reply := Reply(MsgDuplicate, false);
        return;
      }
      InsertKeepsUnique(assignments, row);
      assignments := assignments + [row];
      reply := Reply(MsgUploaded, true);
    }

    /**
     * `grade_assignment`: rejects or inserts one row as `Classify` decides.
     * Both replies carry `success: false`, the successful one included.
     */
    method SubmitGrade(body: map<string, Json>) returns (response: Response)
      modifies this`grades
      ensures response.Sent? ==> !response.reply.success
      ensures Classify(body) == Invalid ==>
        response == Sent(Reply(MsgInvalidGrade, false)) && grades == old(grades)
      ensures Classify(body) == Crash ==>
        response == InternalError && grades == old(grades)
      ensures Classify(body).Insert? ==>
        response == Sent(Reply(MsgGraded, false)) && grades == old(grades) + [Classify(body).row]
    {
      match Classify(body)
      case Invalid =>
        response := Sent(Reply(MsgInvalidGrade, false));
      case Crash =>
        response := InternalError;
      case Insert(row) =>
        grades := grades + [row];
        response := Sent(Reply(MsgGraded, false));
    }
  }
}
