/**
 * The teacher dashboard's figures over the recent submissions and the
 * assignment list: the number of submissions, the pending and flagged
 * counts, the average score, and the next five assignments due.
 */
module TeacherDashboard {
  import opened Seqs
  import opened DashboardData

  /** The four figures shown as cards. */
  datatype Stats = Stats(total: nat, pending: nat, flagged: nat, averageScore: real)

  function StatsOf(subs: seq<SubmissionView>): Stats {
    Stats(|subs|, CountStatus(subs, "pending"), CountStatus(subs, "flagged"), AverageGrade(subs))
  }

  /**
   * The total is the number of submissions; pending and flagged count
   * distinct submissions, so together they never exceed the total, and each
   * is 0 exactly when no submission has that status; the average is 0
   * without numeric grades and lies between bounds every grade lies within.
   */
  lemma StatsSpec(subs: seq<SubmissionView>, lo: real, hi: real)
    requires forall s :: s in subs && s.grade.Some? ==> lo <= s.grade.value <= hi
    ensures var st := StatsOf(subs);
      && st.total == |subs|
      && st.pending + st.flagged <= st.total
      && (st.pending == 0 <==> forall s :: s in subs ==> s.status != "pending")
      && (st.flagged == 0 <==> forall s :: s in subs ==> s.status != "flagged")
      && (Grades(subs) == [] ==> st.averageScore == 0.0)
      && (Grades(subs) != [] ==> lo <= st.averageScore <= hi)
  {
    CountStatusDisjoint(subs, "pending", "flagged");
    AverageGradeSpec(subs, lo, hi);
  }

  /** Assignments due after `now`. */
  function Future(list: seq<AssignmentView>, now: int): seq<AssignmentView> {
    Filter((a: AssignmentView) => a.dueDate > now, list)
  }

  /** `assignments.filter(due > now).sort(by due date).slice(0, 5)`. */
  function Upcoming(list: seq<AssignmentView>, now: int): seq<AssignmentView> {
    Soonest(Future(list, now), 5)
  }

  /**
   * At most five assignments from the list, each due after `now`, earliest
   * first; a future assignment is left out only when five are shown, and
   * then it is due no earlier than any shown.
   */
  lemma UpcomingSpec(list: seq<AssignmentView>, now: int)
    ensures var r := Upcoming(list, now);
      && |r| <= 5
      && (forall a :: a in r ==> a in list && a.dueDate > now)
      && (forall i, j :: 0 <= i < j < |r| ==> r[i].dueDate <= r[j].dueDate)
      && (forall x :: x in list && x.dueDate > now && x !in r ==>
            |r| == 5 && forall y :: y in r ==> y.dueDate <= x.dueDate)
  {
    var future := Future(list, now);
    var r := Upcoming(list, now);
    SoonestSpec(future, 5);
    forall a | a in r ensures a in future {
      assert a in multiset(r);
    }
    forall x | x in list && x.dueDate > now && x !in r
      ensures |r| == 5 && forall y :: y in r ==> y.dueDate <= x.dueDate
    {
      assert x in future;
      assert x in multiset(future) - multiset(r);
    }
  }
}
