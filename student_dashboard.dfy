/**
 * The student dashboard's figures, computed from the student's submissions
 * and the assignment list: completed, pending and flagged counts, the
 * average score, the percentage per subject, the next assignments due and
 * the latest graded submissions. The status map and the per-subject totals
 * are filled by loops over the submissions.
 */
module StudentDashboard {
  import opened Wrappers
  import opened Seqs
  import opened SubmissionModel
  import opened DashboardData

  predicate IsCompleted(s: SubmissionView) {
    s.status == "checked" || s.status == "evaluated"
  }

  /** Completed assignments: the submissions whose status is "checked" or "evaluated". */
  function Completed(subs: seq<SubmissionView>): nat {
    Count(IsCompleted, subs)
  }

  /** The completed count is the "checked" count plus the "evaluated" count. */
  lemma {:induction false} CompletedSplit(subs: seq<SubmissionView>)
    ensures Completed(subs) == CountStatus(subs, "checked") + CountStatus(subs, "evaluated")
  {
    if subs != [] {
      CompletedSplit(subs[1..]);
    }
  }

  /** Flagged assignments: the submissions whose status is "flagged". */
  function Flagged(subs: seq<SubmissionView>): nat {
    CountStatus(subs, "flagged")
  }

  /** A flagged submission is never counted as completed: together they count at most every submission. */
  lemma {:induction false} CompletedFlaggedDisjoint(subs: seq<SubmissionView>)
    ensures Completed(subs) + Flagged(subs) <= |subs|
  {
    if subs != [] {
      CompletedFlaggedDisjoint(subs[1..]);
    }
  }

  /** The entry the status loop writes for a submission: its assignment id and its status. */
  function StatusEntry(s: SubmissionView): (Id, string) {
    (s.assignmentId, s.status)
  }

  /** The status map: for each assignment id, the status of the last submission for it. */
  function StatusOf(subs: seq<SubmissionView>): map<Id, string> {
    LastWins(Map(StatusEntry, subs))
  }

  /** `submissions.forEach(s => submittedAssignmentsMap.set(id, s.status))`. */
  method BuildStatusMap(subs: seq<SubmissionView>) returns (m: map<Id, string>)
    ensures m == StatusOf(subs)
  {
    ghost var es := Map(StatusEntry, subs);
    m := map[];
    var i := 0;
    while i < |subs|
      invariant 0 <= i <= |subs|
      invariant m == LastWins(es[..i])
    {
      assert es[..i + 1][..i] == es[..i];
      m := m[subs[i].assignmentId := subs[i].status];
      i := i + 1;
    }
    assert es[..|subs|] == es;
  }

  /**
   * The map has a key for every assignment that has a submission and no
   * other, and holds the status of the last submission for it.
   */
  lemma StatusOfSpec(subs: seq<SubmissionView>, j: nat)
    requires j < |subs|
    requires forall k :: j < k < |subs| ==> subs[k].assignmentId != subs[j].assignmentId
    ensures forall id :: id in StatusOf(subs) <==> exists s :: s in subs && s.assignmentId == id
    ensures subs[j].assignmentId in StatusOf(subs) && StatusOf(subs)[subs[j].assignmentId] == subs[j].status
  {
    var es := Map(StatusEntry, subs);
    forall id ensures id in StatusOf(subs) <==> exists s :: s in subs && s.assignmentId == id {
      if id in StatusOf(subs) {
        var e :| e in es && e.0 == id;
        var i :| 0 <= i < |es| && es[i] == e;
        assert subs[i] in subs && subs[i].assignmentId == id;
      }
      if s :| s in subs && s.assignmentId == id {
        var i :| 0 <= i < |subs| && subs[i] == s;
        assert es[i] in es;
      }
    }
    LastWinsValue(es, j);
  }

  /** The statuses under which an assignment still counts as pending; "" is the falsy case of `!status`. */
  const PendingStatuses: set<string> := {"", "pending", "submitted", "late"}

  /** Due in the future, and without a submission or with a pending, submitted or late one. */
  predicate IsPending(a: AssignmentView, statuses: map<Id, string>, now: int) {
    a.dueDate > now && (a.id !in statuses || statuses[a.id] in PendingStatuses)
  }

  /** Pending assignments. */
  function PendingCount(list: seq<AssignmentView>, subs: seq<SubmissionView>, now: int): nat {
    var statuses := StatusOf(subs);
    Count((a: AssignmentView) => IsPending(a, statuses, now), list)
  }

  /** An assignment without any submission is pending exactly when it is due in the future. */
  lemma PendingWithoutSubmission(a: AssignmentView, subs: seq<SubmissionView>, now: int)
    requires forall s :: s in subs ==> s.assignmentId != a.id
    ensures IsPending(a, StatusOf(subs), now) <==> a.dueDate > now
  {
  }

  /**
   * An assignment whose last submission is `subs[j]` is pending exactly when
   * it is due in the future and that submission's status is pending,
   * submitted, late or empty; an earlier submission's status plays no part.
   */
  lemma PendingByLastSubmission(a: AssignmentView, subs: seq<SubmissionView>, now: int, j: nat)
    requires j < |subs| && subs[j].assignmentId == a.id
    requires forall k :: j < k < |subs| ==> subs[k].assignmentId != a.id
    ensures IsPending(a, StatusOf(subs), now) <==> a.dueDate > now && subs[j].status in PendingStatuses
  {
    StatusOfSpec(subs, j);
  }

  /** The average score over the numerically graded submissions, 0 without any. */
  function AverageScore(subs: seq<SubmissionView>): real {
    AverageGrade(subs)
  }

  /** The subject a graded submission counts under: its assignment's subject, or "Other" when absent or empty. */
  function SubjectOf(s: SubmissionView): string {
    if s.assignment.Some? && s.assignment.value.subject != "" then s.assignment.value.subject else "Other"
  }

  /** The running total and count per subject after the submissions in order. */
  function SubjectTotals(subs: seq<SubmissionView>): map<string, (real, nat)> {
    if subs == [] then map[]
    else
      var m := SubjectTotals(subs[..|subs| - 1]);
      var s := subs[|subs| - 1];
      match s.grade
      case None => m
      case Some(g) =>
        var subject := SubjectOf(s);
        var (total, count) := if subject in m then m[subject] else (0.0, 0);
        m[subject := (total + g, count + 1)]
  }

  /** The `subjectStats` loop: add each numeric grade to its subject's total and count. */
  method BuildSubjectStats(subs: seq<SubmissionView>) returns (stats: map<string, (real, nat)>)
    ensures stats == SubjectTotals(subs)
  {
    stats := map[];
    var i := 0;
    while i < |subs|
      invariant 0 <= i <= |subs|
      invariant stats == SubjectTotals(subs[..i])
    {
      assert subs[..i + 1][..i] == subs[..i];
      var sub := subs[i];
      if sub.grade.Some? {
        var subject := SubjectOf(sub);
        if subject !in stats {
          stats := stats[subject := (0.0, 0)];
        }
        stats := stats[subject := (stats[subject].0 + sub.grade.value, stats[subject].1 + 1)];
      }
      i := i + 1;
    }
    assert subs[..|subs|] == subs;
  }

  /** The numeric grades of the submissions counted under `subject`, in order. */
  function GradesIn(subs: seq<SubmissionView>, subject: string): (gs: seq<real>)
    ensures |gs| <= |subs|
  {
    if subs == [] then []
    else
      var init := subs[..|subs| - 1];
      var s := subs[|subs| - 1];
      if s.grade.Some? && SubjectOf(s) == subject then GradesIn(init, subject) + [s.grade.value]
      else GradesIn(init, subject)
  }

  /** The grades counted under a subject are those of the graded submissions that count under it. */
  lemma {:induction false} GradesInMembers(subs: seq<SubmissionView>, subject: string)
    ensures forall g :: g in GradesIn(subs, subject) <==>
      exists s :: s in subs && s.grade == Some(g) && SubjectOf(s) == subject
  {
    if subs != [] {
      var init := subs[..|subs| - 1];
      var last := subs[|subs| - 1];
      GradesInMembers(init, subject);
      assert forall x :: x in subs <==> x in init || x == last;
    }
  }

  /**
   * A subject has an entry exactly when some submission with a numeric
   * grade counts under it, and the entry holds the sum and the number of
   * those grades.
   */
  lemma {:induction false} SubjectTotalsSpec(subs: seq<SubmissionView>, subject: string)
    ensures var gs := GradesIn(subs, subject);
      && (subject in SubjectTotals(subs) <==> gs != [])
      && (subject in SubjectTotals(subs) ==> SubjectTotals(subs)[subject] == (Sum(gs), |gs|))
  {
    if subs != [] {
      var init := subs[..|subs| - 1];
      SubjectTotalsSpec(init, subject);
      SubjectTotalsStep(init, subs[|subs| - 1], subject);
      assert init + [subs[|subs| - 1]] == subs;
    }
  }

  /** One more submission keeps the entry of `subject` equal to the sum and count of its grades. */
  lemma SubjectTotalsStep(init: seq<SubmissionView>, s: SubmissionView, subject: string)
    requires var gs := GradesIn(init, subject);
      && (subject in SubjectTotals(init) <==> gs != [])
      && (subject in SubjectTotals(init) ==> SubjectTotals(init)[subject] == (Sum(gs), |gs|))
    ensures var subs := init + [s];
      var gs := GradesIn(subs, subject);
      && (subject in SubjectTotals(subs) <==> gs != [])
      && (subject in SubjectTotals(subs) ==> SubjectTotals(subs)[subject] == (Sum(gs), |gs|))
  {
    Snoc(init, s, subject);
    if s.grade.Some? && SubjectOf(s) == subject {
      var gs := GradesIn(init, subject);
      SumSnoc(gs, s.grade.value);
    }
  }

  /** The totals and the grades after one more submission, from those before it. */
  lemma Snoc(init: seq<SubmissionView>, s: SubmissionView, subject: string)
    ensures var subs := init + [s];
      var m := SubjectTotals(init);
      && (s.grade.Some? && SubjectOf(s) == subject ==>
            && GradesIn(subs, subject) == GradesIn(init, subject) + [s.grade.value]
            && SubjectTotals(subs) == m[subject := ((if subject in m then m[subject].0 else 0.0) + s.grade.value,
                                          (if subject in m then m[subject].1 else 0) + 1)])
      && (!(s.grade.Some? && SubjectOf(s) == subject) ==>
            && GradesIn(subs, subject) == GradesIn(init, subject)
            && (subject in SubjectTotals(subs) <==> subject in m)
            && (subject in m ==> SubjectTotals(subs)[subject] == m[subject]))
  {
    var subs := init + [s];
    assert subs[..|subs| - 1] == init && subs[|subs| - 1] == s;
  }

  lemma SumSnoc(gs: seq<real>, g: real)
    ensures Sum(gs + [g]) == Sum(gs) + g
  {
    assert (gs + [g])[..|gs|] == gs;
  }

  /** `Math.round`: the nearest integer, halves rounded up. */
  function RoundHalfUp(x: real): (r: int)
    ensures x - 0.5 < r as real <= x + 0.5
  {
    (x + 0.5).Floor
  }

  /** `count ? Math.round(total / count) : 0`. */
  function Percent(total: real, count: nat): int {
    if count == 0 then 0 else RoundHalfUp(total / count as real)
  }

  /** Each subject's percentage. */
  function Performance(subs: seq<SubmissionView>): map<string, int> {
    var totals := SubjectTotals(subs);
    map subject | subject in totals :: Percent(totals[subject].0, totals[subject].1)
  }

  /** A subject is listed exactly when a submission with a numeric grade counts under it. */
  lemma PerformanceSubjects(subs: seq<SubmissionView>, subject: string)
    ensures subject in Performance(subs) <==> exists s :: s in subs && s.grade.Some? && SubjectOf(s) == subject
  {
    SubjectTotalsSpec(subs, subject);
    HasGradesIn(subs, subject);
  }

  /** Some grade counts under a subject exactly when a graded submission counts under it. */
  lemma HasGradesIn(subs: seq<SubmissionView>, subject: string)
    ensures GradesIn(subs, subject) != [] <==> exists s :: s in subs && s.grade.Some? && SubjectOf(s) == subject
  {
    var gs := GradesIn(subs, subject);
    GradesInMembers(subs, subject);
    if s :| s in subs && s.grade.Some? && SubjectOf(s) == subject {
      var g := s.grade.value;
      assert s in subs && s.grade == Some(g) && SubjectOf(s) == subject;
      assert g in gs;
    }
    if gs != [] {
      assert gs[0] in gs;
    }
  }

  /**
   * A subject's percentage is the rounded mean of the grades counted under
   * it, so it stays within any integer bounds the grades stay within.
   */
  lemma PerformancePercent(subs: seq<SubmissionView>, subject: string, lo: int, hi: int)
    requires forall s :: s in subs && s.grade.Some? ==> lo as real <= s.grade.value <= hi as real
    requires subject in Performance(subs)
    ensures var gs := GradesIn(subs, subject);
      && gs != []
      && Performance(subs)[subject] == RoundHalfUp(Sum(gs) / |gs| as real)
      && lo <= Performance(subs)[subject] <= hi
  {
    var gs := GradesIn(subs, subject);
    SubjectTotalsSpec(subs, subject);
    GradesInMembers(subs, subject);
    MeanBetween(gs, lo, hi);
  }

  /** The mean of a non-empty list of numbers within integer bounds rounds to a value within them. */
  lemma MeanBetween(gs: seq<real>, lo: int, hi: int)
    requires gs != []
    requires forall g :: g in gs ==> lo as real <= g <= hi as real
    ensures lo <= RoundHalfUp(Sum(gs) / |gs| as real) <= hi
  {
    SumBounds(gs, lo as real, hi as real);
    QuotientBounds(Sum(gs), |gs| as real, lo as real, hi as real);
  }

  /** The ids of the assignments that have a submission. */
  function SubmittedIds(subs: seq<SubmissionView>): set<Id> {
    set s | s in subs :: s.assignmentId
  }

  /** Due in the future and not submitted. */
  function OpenAssignments(list: seq<AssignmentView>, subs: seq<SubmissionView>, now: int): seq<AssignmentView> {
    var submitted := SubmittedIds(subs);
    Filter((a: AssignmentView) => a.dueDate > now && a.id !in submitted, list)
  }

  /** Upcoming assignments: the open ones in due-date order, at most 5. */
  function Upcoming(list: seq<AssignmentView>, subs: seq<SubmissionView>, now: int): seq<AssignmentView> {
    Soonest(OpenAssignments(list, subs, now), 5)
  }

  /** The open assignments are exactly those of the list due in the future without a submission. */
  lemma OpenAssignmentsSpec(list: seq<AssignmentView>, subs: seq<SubmissionView>, now: int, a: AssignmentView)
    ensures a in OpenAssignments(list, subs, now) <==>
      a in list && a.dueDate > now && forall s :: s in subs ==> s.assignmentId != a.id
  {
  }

  /**
   * At most five assignments, each open, earliest due first; an open
   * assignment is left out only when five are shown, and then it is due no
   * earlier than any shown.
   */
  lemma UpcomingSpec(list: seq<AssignmentView>, subs: seq<SubmissionView>, now: int)
    ensures var open := OpenAssignments(list, subs, now); var r := Upcoming(list, subs, now);
      && |r| <= 5
      && (forall a :: a in r ==> a in open)
      && (forall i, j :: 0 <= i < j < |r| ==> r[i].dueDate <= r[j].dueDate)
      && (forall x :: x in open && x !in r ==> |r| == 5 && forall y :: y in r ==> y.dueDate <= x.dueDate)
  {
    var open := OpenAssignments(list, subs, now);
    var r := Upcoming(list, subs, now);
    SoonestSpec(open, 5);
    forall a | a in r ensures a in open {
      assert a in multiset(r);
    }
    forall x | x in open && x !in r ensures |r| == 5 && forall y :: y in r ==> y.dueDate <= x.dueDate {
      assert x in multiset(open) - multiset(r);
    }
  }

  /** A graded submission with results: `typeof s.grade === "number" && s.results.length > 0`. */
  predicate HasFeedback(s: SubmissionView) {
    s.grade.Some? && s.resultCount > 0
  }

  function NegUpdatedAt(s: SubmissionView): real {
    -(s.updatedAt as real)
  }

  /** The submissions behind the recent feedback: newest first, at most 2. */
  function RecentGraded(subs: seq<SubmissionView>): seq<SubmissionView> {
    Take(SortBy(Filter(HasFeedback, subs), NegUpdatedAt), 2)
  }

  /** A recent-feedback card: the assignment's title, the score and the date. */
  datatype FeedbackCard = FeedbackCard(assignment: string, score: Option<real>, date: int)

  /** `s.assignmentId?.title || "Assignment"`. */
  function TitleOf(s: SubmissionView): string {
    if s.assignment.Some? && s.assignment.value.title != "" then s.assignment.value.title else "Assignment"
  }

  function CardOf(s: SubmissionView): FeedbackCard {
    FeedbackCard(TitleOf(s), s.grade, s.updatedAt)
  }

  function RecentFeedback(subs: seq<SubmissionView>): seq<FeedbackCard> {
    Map(CardOf, RecentGraded(subs))
  }

  /**
   * At most two submissions, newest first, each graded with results; such
   * a submission is left out only when two are shown, and then it is no
   * newer than either.
   */
  lemma RecentGradedSpec(subs: seq<SubmissionView>)
    ensures var chosen := RecentGraded(subs);
      && |chosen| <= 2
      && (forall s :: s in chosen ==> s in subs && HasFeedback(s))
      && (forall i, j :: 0 <= i < j < |chosen| ==> chosen[j].updatedAt <= chosen[i].updatedAt)
      && (forall x :: x in subs && HasFeedback(x) && x !in chosen ==>
            |chosen| == 2 && forall y :: y in chosen ==> x.updatedAt <= y.updatedAt)
  {
    ChosenFromGraded(subs);
    ChosenNewestFirst(subs);
    OmittedNoNewer(subs);
  }

  /** At most two are chosen, newest first. */
  lemma ChosenNewestFirst(subs: seq<SubmissionView>)
    ensures var chosen := RecentGraded(subs);
      && |chosen| <= 2
      && forall i, j :: 0 <= i < j < |chosen| ==> chosen[j].updatedAt <= chosen[i].updatedAt
  {
    Newest(Filter(HasFeedback, subs), 2);
  }

  /** Every chosen submission is one of the submissions, graded with results. */
  lemma ChosenFromGraded(subs: seq<SubmissionView>)
    ensures forall s :: s in RecentGraded(subs) ==> s in subs && HasFeedback(s)
  {
    var graded := Filter(HasFeedback, subs);
    var chosen := Take(SortBy(graded, NegUpdatedAt), 2);
    Newest(graded, 2);
    forall s | s in chosen ensures s in graded {
      assert s in multiset(chosen);
    }
  }

  /** A graded submission is left out only when two are chosen, each at least as new. */
  lemma OmittedNoNewer(subs: seq<SubmissionView>)
    ensures var chosen := RecentGraded(subs);
      forall x :: x in subs && HasFeedback(x) && x !in chosen ==>
        |chosen| == 2 && forall y :: y in chosen ==> x.updatedAt <= y.updatedAt
  {
    var graded := Filter(HasFeedback, subs);
    var chosen := Take(SortBy(graded, NegUpdatedAt), 2);
    Newest(graded, 2);
    forall x | x in subs && HasFeedback(x) && x !in chosen
      ensures |chosen| == 2 && forall y :: y in chosen ==> x.updatedAt <= y.updatedAt
    {
      assert x in graded;
      assert x in multiset(graded) - multiset(chosen);
    }
  }

  /** The first `k` of a list sorted newest first: the newest ones, in that order. */
  lemma Newest(list: seq<SubmissionView>, k: nat)
    ensures var r := Take(SortBy(list, NegUpdatedAt), k);
      && |r| == (if |list| < k then |list| else k)
      && (forall i, j :: 0 <= i < j < |r| ==> r[j].updatedAt <= r[i].updatedAt)
      && multiset(r) <= multiset(list)
      && (forall x, y :: x in multiset(list) - multiset(r) && y in r ==> x.updatedAt <= y.updatedAt)
      && (forall x :: x in list && x !in r ==> |r| == k)
  {
    var r := Take(SortBy(list, NegUpdatedAt), k);
    TopK(list, NegUpdatedAt, k);
    forall i, j | 0 <= i < j < |r| ensures r[j].updatedAt <= r[i].updatedAt {
      assert NegUpdatedAt(r[i]) <= NegUpdatedAt(r[j]);
    }
    forall x, y | x in multiset(list) - multiset(r) && y in r ensures x.updatedAt <= y.updatedAt {
      assert NegUpdatedAt(y) <= NegUpdatedAt(x);
    }
  }

  /** One card per chosen submission, in the same order, carrying its numeric grade and its date. */
  lemma RecentFeedbackSpec(subs: seq<SubmissionView>)
    ensures var chosen := RecentGraded(subs); var r := RecentFeedback(subs);
      && |r| == |chosen|
      && forall i :: 0 <= i < |r| ==>
           r[i].assignment == TitleOf(chosen[i]) && r[i].score == chosen[i].grade
           && r[i].score.Some? && r[i].date == chosen[i].updatedAt
  {
    RecentGradedSpec(subs);
    var chosen := RecentGraded(subs);
    assert forall i :: 0 <= i < |chosen| ==> chosen[i] in chosen;
  }
}
