/**
 * The student's assignments page: the submissions looked up by assignment,
 * the status shown for each assignment, and the page state the file
 * selection and the upload update (the chosen files, one shared upload
 * progress, the error and success messages). The requests are replaced by
 * their outcomes, passed in.
 */
module StudentAssignments {
  import opened Wrappers
  import opened Seqs
  import opened SubmissionModel
  import opened DashboardData

  function SubmissionEntry(s: SubmissionView): (Id, SubmissionView) {
    (s.assignmentId, s)
  }

  /** `submissions.forEach(sub => map[sub.assignmentId] = sub)`. */
  method SubmissionsMap(subs: seq<SubmissionView>) returns (m: map<Id, SubmissionView>)
    ensures m == LastWins(Map(SubmissionEntry, subs))
    ensures forall id :: id in m <==> exists s :: s in subs && s.assignmentId == id
    ensures forall id :: id in m ==> m[id] in subs && m[id].assignmentId == id
  {
    m := map[];
    var i := 0;
    assert subs[..0] == [];
    while i < |subs|
      invariant 0 <= i <= |subs|
      invariant m == LastWins(Map(SubmissionEntry, subs[..i]))
      invariant forall id :: id in m <==> exists s :: s in subs[..i] && s.assignmentId == id
      invariant forall id :: id in m ==> m[id] in subs[..i] && m[id].assignmentId == id
    {
      SubmissionsStep(subs, i, m);
      m := m[subs[i].assignmentId := subs[i]];
      i := i + 1;
    }
    assert subs[..|subs|] == subs;
  }

  /** Entering one more submission keeps the map the last-wins map of the submissions seen so far. */
  lemma SubmissionsStep(subs: seq<SubmissionView>, i: nat, m: map<Id, SubmissionView>)
    requires i < |subs|
    requires m == LastWins(Map(SubmissionEntry, subs[..i]))
    requires forall id :: id in m <==> exists s :: s in subs[..i] && s.assignmentId == id
    requires forall id :: id in m ==> m[id] in subs[..i] && m[id].assignmentId == id
    ensures var m' := m[subs[i].assignmentId := subs[i]];
      && m' == LastWins(Map(SubmissionEntry, subs[..i + 1]))
      && (forall id :: id in m' <==> exists s :: s in subs[..i + 1] && s.assignmentId == id)
      && (forall id :: id in m' ==> m'[id] in subs[..i + 1] && m'[id].assignmentId == id)
  {
    SubmissionsStepMap(subs, i, m);
    assert subs[..i + 1] == subs[..i] + [subs[i]];
  }

  lemma SubmissionsStepMap(subs: seq<SubmissionView>, i: nat, m: map<Id, SubmissionView>)
    requires i < |subs|
    requires m == LastWins(Map(SubmissionEntry, subs[..i]))
    ensures m[subs[i].assignmentId := subs[i]] == LastWins(Map(SubmissionEntry, subs[..i + 1]))
  {
    var es := Map(SubmissionEntry, subs[..i + 1]);
    assert subs[..i + 1][..i] == subs[..i];
    assert es[..i] == Map(SubmissionEntry, subs[..i]);
    assert es[i] == SubmissionEntry(subs[i]);
  }

  /** Where several submissions share an assignment, the map holds the last of them. */
  lemma SubmissionsMapLast(subs: seq<SubmissionView>, j: nat)
    requires j < |subs|
    requires forall k :: j < k < |subs| ==> subs[k].assignmentId != subs[j].assignmentId
    ensures var m := LastWins(Map(SubmissionEntry, subs));
      subs[j].assignmentId in m && m[subs[j].assignmentId] == subs[j]
  {
    LastWinsValue(Map(SubmissionEntry, subs), j);
  }

  /** `getSubmissionStatus`: the backend status of the assignment's submission mapped to a display status. */
  function SubmissionStatus(submissions: map<Id, SubmissionView>, id: Id): (r: string)
    ensures r in {"pending", "submitted", "graded", "flagged", "late"}
    ensures id !in submissions ==> r == "pending"
    ensures r == "submitted" <==> id in submissions && submissions[id].status in {"submitted", "checked"}
    ensures r == "graded" <==> id in submissions && submissions[id].status == "evaluated"
    ensures r == "flagged" <==> id in submissions && submissions[id].status == "flagged"
    ensures r == "late" <==> id in submissions && submissions[id].status == "late"
  {
    if id !in submissions then "pending"
    else
      match submissions[id].status
      case "submitted" => "submitted"
      case "checked" => "submitted"
      case "evaluated" => "graded"
      case "flagged" => "flagged"
      case "late" => "late"
      case _ => "pending"
  }

  /** Upload controls are shown for the display statuses pending, flagged and late. */
  predicate ShowsUpload(status: string) {
    status in {"pending", "flagged", "late"}
  }

  /**
   * An assignment offers an upload exactly when it has no submission, or
   * its submission is neither submitted, checked nor evaluated.
   */
  lemma ShowsUploadSpec(submissions: map<Id, SubmissionView>, id: Id)
    ensures ShowsUpload(SubmissionStatus(submissions, id)) <==>
      id !in submissions || submissions[id].status !in {"submitted", "checked", "evaluated"}
  {
  }

  /** What a request to the two list endpoints gives: both lists, or a failure. */
  datatype Fetch = Fetched(assignments: seq<AssignmentView>, submissions: seq<SubmissionView>) | FetchFailed

  /** How the submit request ends: accepted, or rejected with the server's message if it sent one. */
  datatype UploadOutcome = Accepted | Rejected(message: Option<string>)

  const LoadError: string := "Failed to load data. Please try again."
  const UploadError: string := "Upload failed. Please try again."
  const UploadSuccess: string := "Assignment submitted successfully!"

  /** `err.response?.data?.message || "Upload failed. Please try again."`. */
  function UploadErrorText(message: Option<string>): (r: string)
    ensures r != []
    ensures message.Some? && message.value != [] ==> r == message.value
  {
    if message.Some? && message.value != [] then message.value else UploadError
  }

  /** The page's state. A selection set to `None` is the `null` a successful upload leaves. */
  class AssignmentsPage {
    var assignments: seq<AssignmentView>
    var submissions: map<Id, SubmissionView>
    var selectedFiles: map<Id, Option<string>>
    var uploadProgress: int
    var error: Option<string>
    var success: Option<string>

    constructor ()
      ensures assignments == [] && submissions == map[] && selectedFiles == map[]
      ensures uploadProgress == 0 && error == None && success == None
    {
      assignments := [];
      submissions := map[];
      selectedFiles := map[];
      uploadProgress := 0;
      error := None;
      success := None;
    }

    /** A file is chosen for the assignment. */
    predicate HasFile(id: Id)
      reads this
    {
      id in selectedFiles && selectedFiles[id].Some?
    }

    /** The submit button's `disabled`: no file chosen, or an upload under way or finished. */
    predicate SubmitDisabled(id: Id)
      reads this
    {
      !HasFile(id) || uploadProgress > 0
    }

    /** `fetchData`: on success both lists are replaced and the error cleared; on failure only the error is set. */
    method ApplyFetch(f: Fetch)
      modifies this
      ensures f.Fetched? ==>
        && assignments == f.assignments
        && submissions == LastWins(Map(SubmissionEntry, f.submissions))
        && error == None
      ensures f.FetchFailed? ==> assignments == old(assignments) && submissions == old(submissions) && error == Some(LoadError)
      ensures selectedFiles == old(selectedFiles) && uploadProgress == old(uploadProgress) && success == old(success)
    {
      match f
      case Fetched(list, subs) =>
        var m := SubmissionsMap(subs);
        assignments := list;
        submissions := m;
        error := None;
      case FetchFailed =>
        error := Some(LoadError);
    }

    /**
     * `handleFileSelect`: choosing a file records it for that assignment
     * only and resets the progress; an empty choice changes nothing.
     */
    method HandleFileSelect(id: Id, file: Option<string>)
      modifies this
      ensures file.None? ==> unchanged(this)
      ensures file.Some? ==>
        && selectedFiles == old(selectedFiles)[id := file]
        && uploadProgress == 0
        && assignments == old(assignments) && submissions == old(submissions)
        && error == old(error) && success == old(success)
      ensures file.Some? ==> HasFile(id) && !SubmitDisabled(id)
      ensures forall other :: other != id ==> (HasFile(other) <==> old(HasFile(other)))
    {
      if file.Some? {
        selectedFiles := selectedFiles[id := file];
        uploadProgress := 0;
      }
    }

    /**
     * `handleUpload`: without a chosen file nothing happens. Otherwise the
     * messages are cleared and the request made; when it is accepted the
     * progress is 100, the assignment's file is cleared, the success message
     * set and the lists fetched again; when it is rejected the progress
     * returns to 0 and the error is set, keeping the chosen file for a retry.
     */
    method HandleUpload(id: Id, outcome: UploadOutcome, refresh: Fetch)
      modifies this
      ensures !old(HasFile(id)) ==> unchanged(this)
      ensures old(HasFile(id)) && outcome.Accepted? ==>
        && uploadProgress == 100
        && selectedFiles == old(selectedFiles)[id := None]
        && success == Some(UploadSuccess)
        && (refresh.Fetched? ==>
              && assignments == refresh.assignments
              && submissions == LastWins(Map(SubmissionEntry, refresh.submissions))
              && error == None)
        && (refresh.FetchFailed? ==>
              assignments == old(assignments) && submissions == old(submissions) && error == Some(LoadError))
      ensures old(HasFile(id)) && outcome.Accepted? ==> forall a :: SubmitDisabled(a)
      ensures old(HasFile(id)) && outcome.Rejected? ==>
        && uploadProgress == 0
        && selectedFiles == old(selectedFiles)
        && error == Some(UploadErrorText(outcome.message))
        && success == None
        && assignments == old(assignments) && submissions == old(submissions)
        && !SubmitDisabled(id)
    {
      if !HasFile(id) {
        return;
      }
      uploadProgress := 10;
      error := None;
      success := None;
      match outcome
      case Accepted =>
        uploadProgress := 100;
        selectedFiles := selectedFiles[id := None];
        success := Some(UploadSuccess);
        ApplyFetch(refresh);
      case Rejected(message) =>
        uploadProgress := 0;
        error := Some(UploadErrorText(message));
    }
  }
}
