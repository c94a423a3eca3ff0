/**
 * The Submission record: its status enumeration and default, its required
 * fields, and the shapes of its `matchedWith` and `results` entries.
 */
module SubmissionModel {
  import opened Wrappers

  /** Identifiers of stored documents, compared as their string form. */
  type Id = string

  predicate IsHexDigit(c: char) {
    '0' <= c <= '9' || 'a' <= c <= 'f' || 'A' <= c <= 'F'
  }

  /** What an `ObjectId` field accepts from a string: exactly 24 hexadecimal digits. */
  predicate IsObjectId(s: string) {
    |s| == 24 && forall c :: c in s ==> IsHexDigit(c)
  }

  /** The only values the schema admits for `status`. */
  datatype Status = Pending | Checked | Flagged | Evaluated | Late

  function StatusName(s: Status): string {
    match s
    case Pending => "pending"
    case Checked => "checked"
    case Flagged => "flagged"
    case Evaluated => "evaluated"
    case Late => "late"
  }

  /** The enumeration validator: a stored status string is accepted only if it names a `Status`. */
  function ParseStatus(name: string): (r: Option<Status>)
    ensures r.Some? ==> StatusName(r.value) == name
  {
    if name == "pending" then Some(Pending)
    else if name == "checked" then Some(Checked)
    else if name == "flagged" then Some(Flagged)
    else if name == "evaluated" then Some(Evaluated)
    else if name == "late" then Some(Late)
    else None
  }

  /** Every status round-trips through its stored name, so the five names are distinct. */
  lemma StatusNameRoundTrip(s: Status)
    ensures ParseStatus(StatusName(s)) == Some(s)
  {
  }

  /** The status of a submission created without one. */
  const DefaultStatus: Status := Pending

  /** A `matchedWith` entry: another student and the similarity with their submission. */
  datatype Match = Match(student: Id, similarity: real)

  /** A `results` entry: the evaluation of one question. */
  datatype QuestionResult = QuestionResult(
    question: int,
    score: real,
    similarity: real,
    topic: string,
    studentAnswer: string,
    referenceAnswer: string)

  datatype Submission = Submission(
    assignmentId: Id,
    studentId: Id,
    fileUrl: string,
    status: Status,
    grade: Option<real>,
    plagiarismScore: Option<real>,
    matchedWith: seq<Match>,
    results: seq<QuestionResult>)

  /** The fields a caller supplies when creating a submission; absent ones are `None`. */
  datatype Draft = Draft(
    assignmentId: Option<Id>,
    studentId: Option<Id>,
    fileUrl: Option<string>,
    status: Option<string>)

  datatype ValidationError =
    | MissingAssignmentId | MissingStudentId | MissingFileUrl
    | AssignmentIdCast | StudentIdCast  // the id does not cast to an ObjectId
    | InvalidStatus

  /**
   * Schema validation of a new document: the three required fields must be
   * present (a required string must also be non-empty), the two ids must
   * cast to ObjectIds, a given status must be one of the enumeration, and a
   * missing status becomes `pending`.
   */
  function NewSubmission(d: Draft): (r: Result<Submission, ValidationError>)
    ensures r.Success? <==>
      d.assignmentId.Some? && d.studentId.Some? && d.fileUrl.Some? && d.fileUrl.value != []
      && IsObjectId(d.assignmentId.value) && IsObjectId(d.studentId.value)
      && (d.status.None? || ParseStatus(d.status.value).Some?)
    ensures r.Success? ==>
      r.value.assignmentId == d.assignmentId.value && r.value.studentId == d.studentId.value
      && r.value.fileUrl == d.fileUrl.value
      && r.value.status == (if d.status.None? then Pending else ParseStatus(d.status.value).value)
      && r.value.grade.None? && r.value.plagiarismScore.None?
      && r.value.matchedWith == [] && r.value.results == []
  {
    if d.assignmentId.None? then Failure(MissingAssignmentId)
    else if d.studentId.None? then Failure(MissingStudentId)
    else if d.fileUrl.None? || d.fileUrl.value == [] then Failure(MissingFileUrl)
    else if !IsObjectId(d.assignmentId.value) then Failure(AssignmentIdCast)
    else if !IsObjectId(d.studentId.value) then Failure(StudentIdCast)
    else
      var status := if d.status.None? then Some(DefaultStatus) else ParseStatus(d.status.value);
      if status.None? then Failure(InvalidStatus)
      else Success(Submission(d.assignmentId.value, d.studentId.value, d.fileUrl.value,
                              status.value, None, None, [], []))
  }
}
