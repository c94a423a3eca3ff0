/**
 * What the two dashboards receive and the calculations they share: the
 * submissions as listed to a dashboard, the assignments with their due
 * dates, status counts, the average of the numeric grades, and the first
 * few assignments in due-date order. Dates are timestamps; the clock is a
 * parameter `now`.
 */
module DashboardData {
  import opened Wrappers
  import opened Seqs
  import opened SubmissionModel

  /** The populated `assignmentId` reference of a submission: its title and subject. */
  datatype AssignmentRef = AssignmentRef(title: string, subject: string)

  /**
   * A submission as a dashboard lists it: `assignment` is present when the
   * assignment reference is populated, `grade` when the grade is a number,
   * `resultCount` is the length of its results (0 when absent).
   */
  datatype SubmissionView = SubmissionView(
    assignmentId: Id,
    assignment: Option<AssignmentRef>,
    status: string,
    grade: Option<real>,
    resultCount: nat,
    updatedAt: int)

  /** An assignment as a dashboard lists it. */
  datatype AssignmentView = AssignmentView(id: Id, title: string, subject: string, dueDate: int)

  /** `subs.filter(s => s.status === status).length`. */
  function CountStatus(subs: seq<SubmissionView>, status: string): (n: nat)
    ensures n <= |subs|
    ensures n == 0 <==> forall s :: s in subs ==> s.status != status
  {
    if subs == [] then 0
    else
      assert forall s :: s in subs <==> s == subs[0] || s in subs[1..];
      (if subs[0].status == status then 1 else 0) + CountStatus(subs[1..], status)
  }

  /** No submission is counted under two different statuses. */
  lemma {:induction false} CountStatusDisjoint(subs: seq<SubmissionView>, a: string, b: string)
    requires a != b
    ensures CountStatus(subs, a) + CountStatus(subs, b) <= |subs|
  {
    if subs != [] {
      CountStatusDisjoint(subs[1..], a, b);
    }
  }

  /** The numeric grades, in order: `subs.filter(s => typeof s.grade === "number")`. */
  function Grades(subs: seq<SubmissionView>): (gs: seq<real>)
    ensures |gs| <= |subs|
    ensures forall g :: g in gs <==> exists s :: s in subs && s.grade == Some(g)
  {
    if subs == [] then []
    else
      assert forall s :: s in subs <==> s == subs[0] || s in subs[1..];
      match subs[0].grade
      case Some(g) => [g] + Grades(subs[1..])
      case None => Grades(subs[1..])
  }

  /** The sum of the numeric grades over their number, or over 1 when there are none. */
  function AverageGrade(subs: seq<SubmissionView>): real {
    var gs := Grades(subs);
    Sum(gs) / (if gs == [] then 1.0 else |gs| as real)
  }

  /**
   * The average is 0 without numeric grades; otherwise it lies between any
   * bounds all the grades lie between, e.g. 0 and 100 for percentages.
   */
  lemma AverageGradeSpec(subs: seq<SubmissionView>, lo: real, hi: real)
    requires forall s :: s in subs && s.grade.Some? ==> lo <= s.grade.value <= hi
    ensures Grades(subs) == [] ==> AverageGrade(subs) == 0.0
    ensures Grades(subs) != [] ==> lo <= AverageGrade(subs) <= hi
  {
    var gs := Grades(subs);
    if gs != [] {
      SumBounds(gs, lo, hi);
      QuotientBounds(Sum(gs), |gs| as real, lo, hi);
    }
  }

  function DueDate(a: AssignmentView): real {
    a.dueDate as real
  }

  /** `list.sort((a, b) => a.dueDate - b.dueDate).slice(0, k)`. */
  function Soonest(list: seq<AssignmentView>, k: nat): seq<AssignmentView> {
    Take(SortBy(list, DueDate), k)
  }

  /**
   * At most `k` assignments, taken from `list`, earliest due first; none
   * left out is due before one that is kept, and one is left out only when
   * `k` are kept.
   */
  lemma SoonestSpec(list: seq<AssignmentView>, k: nat)
    ensures var r := Soonest(list, k);
      && |r| == (if |list| < k then |list| else k)
      && (forall i, j :: 0 <= i < j < |r| ==> r[i].dueDate <= r[j].dueDate)
      && multiset(r) <= multiset(list)
      && (forall x, y :: x in multiset(list) - multiset(r) && y in r ==> y.dueDate <= x.dueDate)
      && (forall x :: x in list && x !in r ==> |r| == k)
  {
    TopK(list, DueDate, k);
  }
}
