/**
 * The student-facing handlers: the list of assignments joined with the
 * requesting student's submissions, and the creation of a submission after
 * its file is uploaded. Database queries and the upload service are
 * replaced by their results, passed in.
 */
module StudentController {
  import opened Wrappers
  import opened Seqs
  import opened SubmissionModel

  /** A stored assignment. */
  datatype Assignment = Assignment(
    id: Id,
    title: string,
    description: string,
    createdBy: Id,
    fileUrl: string,
    course: string,
    subject: string,
    answerKeyUrl: string)

  /** An assignment as listed to a student: all its fields plus `status` and `score`. */
  datatype AssignmentEntry = AssignmentEntry(assignment: Assignment, status: string, score: Option<real>)

  /** The submission query: the submissions made by `student`. */
  function SubmissionsOf(all: seq<Submission>, student: Id): (r: seq<Submission>)
    ensures forall s :: s in r <==> s in all && s.studentId == student
  {
    if all == [] then []
    else
      var rest := SubmissionsOf(all[1..], student);
      assert forall s :: s in all <==> s == all[0] || s in all[1..];
      if all[0].studentId == student then [all[0]] + rest else rest
  }

  /** `subs.find(s => s.assignmentId === id)`. */
  function Find(subs: seq<Submission>, id: Id): (r: Option<Submission>)
    ensures r.None? <==> forall s :: s in subs ==> s.assignmentId != id
    ensures r.Some? ==> r.value in subs && r.value.assignmentId == id
  {
    FindFirst((s: Submission) => s.assignmentId == id, subs)
  }

  /** `k` is the first position of `all` holding a submission by `student` for assignment `id`. */
  ghost predicate FirstMatch(all: seq<Submission>, student: Id, id: Id, k: nat) {
    && k < |all| && all[k].studentId == student && all[k].assignmentId == id
    && forall j :: 0 <= j < k ==> !(all[j].studentId == student && all[j].assignmentId == id)
  }

  /**
   * Searching the student's own submissions finds the student's earliest
   * submission for the assignment in the whole collection.
   */
  lemma {:induction false} FindOwn(all: seq<Submission>, student: Id, id: Id, k: nat)
    requires FirstMatch(all, student, id, k)
    ensures Find(SubmissionsOf(all, student), id) == Some(all[k])
  {
    if k > 0 {
      assert FirstMatch(all[1..], student, id, k - 1);
      FindOwn(all[1..], student, id, k - 1);
    }
  }

  function Entry(a: Assignment, own: seq<Submission>): AssignmentEntry {
    match Find(own, a.id)
    case Some(sub) => AssignmentEntry(a, "submitted", sub.grade)
    case None => AssignmentEntry(a, "pending", None)
  }

  /** `getAssignments`: every assignment, in order, with the student's status and score. */
  function GetAssignments(assignments: seq<Assignment>, all: seq<Submission>, student: Id): seq<AssignmentEntry> {
    var own := SubmissionsOf(all, student);
    Map((a: Assignment) => Entry(a, own), assignments)
  }

  /**
   * One entry per assignment, in the same order, keeping the assignment;
   * the status is "submitted" exactly when the student has a submission for
   * it and "pending" otherwise; the score is the grade of the student's
   * first such submission, and absent when there is none or it is ungraded.
   * Other students' submissions play no part.
   */
  lemma GetAssignmentsSpec(assignments: seq<Assignment>, all: seq<Submission>, student: Id)
    ensures var r := GetAssignments(assignments, all, student);
      && |r| == |assignments|
      && forall i :: 0 <= i < |r| ==>
           && r[i].assignment == assignments[i]
           && (r[i].status == "submitted" <==> exists s :: s in all && s.studentId == student && s.assignmentId == assignments[i].id)
           && (r[i].status == "submitted" || r[i].status == "pending")
           && (r[i].status == "pending" ==> r[i].score.None?)
           && (forall k: nat :: FirstMatch(all, student, assignments[i].id, k) ==> r[i].score == all[k].grade)
  {
    var r := GetAssignments(assignments, all, student);
    var own := SubmissionsOf(all, student);
    forall i | 0 <= i < |r|
      ensures forall k: nat :: FirstMatch(all, student, assignments[i].id, k) ==> r[i].score == all[k].grade
    {
      forall k: nat | FirstMatch(all, student, assignments[i].id, k) ensures r[i].score == all[k].grade {
        FindOwn(all, student, assignments[i].id, k);
      }
    }
  }

  /** Whether the upload service stored the file, and where. */
  datatype Upload = Uploaded(secureUrl: string) | UploadFailed

  /** The handler's reply; `Unanswered` when saving the record rejects inside the upload callback. */
  datatype SubmitReply = Created(submission: Submission) | Error(code: nat, message: string) | Unanswered

  /**
   * `submitAssignment`: without a file, 400 before anything is uploaded;
   * `upload` is what the upload of the file returns. A failed upload is a
   * 500 and stores nothing; otherwise a new submission with the returned
   * URL is validated, stored and returned with 201. Returns the reply and
   * the submissions collection afterwards.
   */
  function SubmitAssignment(assignmentId: Option<Id>, student: Id, hasFile: bool, upload: Upload,
                            store: seq<Submission>): (SubmitReply, seq<Submission>)
  {
    if !hasFile then (Error(400, "No file uploaded."), store)
    else if upload.UploadFailed? then (Error(500, "Failed to upload to Cloudinary."), store)
    else
      match NewSubmission(Draft(assignmentId, Some(student), Some(upload.secureUrl), None))
      case Success(sub) => (Created(sub), store + [sub])
      case Failure(_) => (Unanswered, store)
  }

  /**
   * A record is stored only after a successful upload of a submission for
   * an assignment id that casts to an ObjectId: exactly one, pending, by the
   * requesting student, pointing at the uploaded file; in every other case
   * (a rejected save included) the collection is unchanged. Without a file the upload's outcome
   * plays no part.
   */
  lemma SubmitAssignmentSpec(assignmentId: Option<Id>, student: Id, hasFile: bool, upload: Upload,
                             store: seq<Submission>)
    ensures var (reply, after) := SubmitAssignment(assignmentId, student, hasFile, upload, store);
      && (!hasFile ==> reply == Error(400, "No file uploaded.") && after == store
                       && SubmitAssignment(assignmentId, student, hasFile, UploadFailed, store) == (reply, after))
      && (hasFile && upload.UploadFailed? ==> reply.Error? && reply.code == 500 && after == store)
      && (reply.Created? <==>
            hasFile && upload.Uploaded? && upload.secureUrl != []
            && assignmentId.Some? && IsObjectId(assignmentId.value) && IsObjectId(student))
      && (reply.Created? ==>
            && after == store + [reply.submission]
            && reply.submission.fileUrl == upload.secureUrl
            && reply.submission.studentId == student
            && reply.submission.assignmentId == assignmentId.value
            && reply.submission.status == Pending)
      && (!reply.Created? ==> after == store)
  {
  }
}
