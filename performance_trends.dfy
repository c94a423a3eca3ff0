/**
 * The performance-trends view: each subject's average over its monthly
 * scores, the subjects ranked by average (highest first) on a copy, and the
 * chart colour of a subject.
 */
module PerformanceTrends {
  import opened Wrappers
  import opened Seqs

  /** One row of the performance data: a subject and its monthly scores. */
  datatype SubjectRow = SubjectRow(subject: string, scores: seq<real>)

  /** One entry of `subjectAverages`. */
  datatype SubjectAverage = SubjectAverage(subject: string, average: real)

  /**
   * `calculateAverage`: the sum over the count. For no scores the source
   * divides zero by zero, a NaN, which is `None` here.
   */
  function CalculateAverage(scores: seq<real>): (r: Option<real>)
    ensures r.None? <==> scores == []
    ensures r.Some? ==> r.value * (|scores| as real) == Sum(scores)
  {
    if scores == [] then None else Some(Sum(scores) / (|scores| as real))
  }

  /** The average lies between the lowest and the highest possible score. */
  lemma AverageBounds(scores: seq<real>, lo: real, hi: real)
    requires scores != []
    requires forall x :: x in scores ==> lo <= x <= hi
    ensures lo <= CalculateAverage(scores).value <= hi
  {
    SumBounds(scores, lo, hi);
    QuotientBounds(Sum(scores), |scores| as real, lo, hi);
  }

  /** Every row has at least one score, as all rows of the page's data do. */
  predicate Scored(rows: seq<SubjectRow>) {
    forall k :: 0 <= k < |rows| ==> rows[k].scores != []
  }

  /** `subjectAverages`: one entry per row, in the rows' order, with the row's subject and average. */
  function SubjectAverages(rows: seq<SubjectRow>): (r: seq<SubjectAverage>)
    requires Scored(rows)
    ensures |r| == |rows|
    ensures forall k :: 0 <= k < |rows| ==>
      r[k].subject == rows[k].subject && Some(r[k].average) == CalculateAverage(rows[k].scores)
  {
    if rows == [] then []
    else [SubjectAverage(rows[0].subject, CalculateAverage(rows[0].scores).value)] + SubjectAverages(rows[1..])
  }

  function NegAverage(e: SubjectAverage): real {
    -e.average
  }

  /**
   * `sortedSubjects`: the same entries, each as often, in non-increasing
   * order of average.
   */
  function SortedSubjects(averages: seq<SubjectAverage>): (r: seq<SubjectAverage>)
    ensures multiset(r) == multiset(averages)
    ensures forall i, j :: 0 <= i < j < |r| ==> r[i].average >= r[j].average
  {
    var sorted := SortBy(averages, NegAverage);
    assert forall i, j :: 0 <= i < j < |sorted| ==> NegAverage(sorted[i]) <= NegAverage(sorted[j]);
    sorted
  }

  /** The best subject heads the ranking: no subject has a higher average than the first. */
  lemma TopSubject(averages: seq<SubjectAverage>)
    requires averages != []
    ensures var r := SortedSubjects(averages);
      r != [] && forall e :: e in averages ==> e.average <= r[0].average
  {
    var r := SortedSubjects(averages);
    assert |r| == |multiset(averages)|;
    forall e | e in averages ensures e.average <= r[0].average {
      assert e in multiset(averages);
      assert e in r;
      var k :| 0 <= k < |r| && r[k] == e;
      if k > 0 {
        assert r[0].average >= r[k].average;
      }
    }
  }

  const MathematicsRow: SubjectRow := SubjectRow("Mathematics", [75.0, 82.0, 78.0, 85.0, 88.0])
  const EnglishRow: SubjectRow := SubjectRow("English", [80.0, 85.0, 82.0, 84.0, 86.0])
  const ScienceRow: SubjectRow := SubjectRow("Science", [70.0, 72.0, 82.0, 85.0, 90.0])
  const HistoryRow: SubjectRow := SubjectRow("History", [65.0, 70.0, 75.0, 72.0, 78.0])
  const ComputerScienceRow: SubjectRow := SubjectRow("Computer Science", [90.0, 85.0, 95.0, 92.0, 95.0])

  /** The page's performance data. */
  const PerformanceData: seq<SubjectRow> := [MathematicsRow, EnglishRow, ScienceRow, HistoryRow, ComputerScienceRow]

  /** The page's data has scores in every row, each between 0 and 100, so every average is a percentage. */
  lemma PerformanceDataAverages()
    ensures Scored(PerformanceData)
    ensures forall e :: e in SubjectAverages(PerformanceData) ==> 0.0 <= e.average <= 100.0
  {
    var rows := PerformanceData;
    forall k | 0 <= k < |rows| ensures 0.0 <= CalculateAverage(rows[k].scores).value <= 100.0 {
      AverageBounds(rows[k].scores, 0.0, 100.0);
    }
  }

  const ChartColors: map<string, string> := map[
    "Mathematics" := "#3B82F6",
    "English" := "#F59E0B",
    "Science" := "#10B981",
    "History" := "#8B5CF6",
    "Computer Science" := "#EC4899",
    "Biology" := "#14B8A6",
    "Physics" := "#6366F1",
    "Chemistry" := "#F43F5E"]

  const DefaultChartColor: string := "#9CA3AF"

  /** `getSubjectColor`: the table's colour, or gray for a subject not in it. */
  function SubjectColor(subject: string): (c: string)
    ensures subject in ChartColors ==> c == ChartColors[subject]
    ensures c == DefaultChartColor <==> subject !in ChartColors
  {
    if subject in ChartColors && ChartColors[subject] != "" then ChartColors[subject]
    else DefaultChartColor
  }
}
