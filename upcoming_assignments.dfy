/**
 * The upcoming-assignments list of the dashboard: the published assignments
 * sorted by due date, nearest first, and the colour badge of a subject.
 * Due dates are timestamps; the list is a value, so sorting the copy leaves
 * the caller's list as it was.
 */
module UpcomingAssignments {
  import opened Seqs

  /** The fields of an assignment the list reads. */
  datatype Listed = Listed(title: string, subject: string, dueDate: int, status: string)

  predicate IsPublished(a: Listed) {
    a.status == "published"
  }

  function DueKey(a: Listed): real {
    a.dueDate as real
  }

  /**
   * `sortedAssignments`: exactly the published assignments, each as often as
   * in the input, in non-decreasing due-date order.
   */
  function SortedAssignments(list: seq<Listed>): (r: seq<Listed>)
    ensures multiset(r) == multiset(Filter(IsPublished, list))
    ensures forall a :: a in r <==> a in list && a.status == "published"
    ensures forall i, j :: 0 <= i < j < |r| ==> r[i].dueDate <= r[j].dueDate
  {
    var published := Filter(IsPublished, list);
    var sorted := SortBy(published, DueKey);
    assert forall a :: a in sorted <==> a in published by {
      forall a ensures a in sorted <==> a in published {
        assert a in sorted <==> a in multiset(sorted);
        assert a in published <==> a in multiset(published);
      }
    }
    assert forall i, j :: 0 <= i < j < |sorted| ==> DueKey(sorted[i]) <= DueKey(sorted[j]);
    sorted
  }

  const SubjectColors: map<string, string> := map[
    "Mathematics" := "bg-blue-100 text-blue-800",
    "History" := "bg-amber-100 text-amber-800",
    "Chemistry" := "bg-green-100 text-green-800",
    "Physics" := "bg-purple-100 text-purple-800",
    "Computer Science" := "bg-indigo-100 text-indigo-800",
    "English" := "bg-pink-100 text-pink-800",
    "Biology" := "bg-emerald-100 text-emerald-800"]

  const DefaultColor: string := "bg-gray-100 text-gray-800"

  /** `getSubjectColor`: the table's entry, or gray for a subject not in it. */
  function SubjectColor(subject: string): (c: string)
    ensures subject in SubjectColors ==> c == SubjectColors[subject]
    ensures subject !in SubjectColors ==> c == DefaultColor
    ensures c == DefaultColor <==> subject !in SubjectColors
  {
    if subject in SubjectColors && SubjectColors[subject] != "" then SubjectColors[subject]
    else DefaultColor
  }
}
