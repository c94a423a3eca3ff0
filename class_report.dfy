/**
 * The class performance analyser: loading and cleaning the results table,
 * the overall figures, the top students and topics, the "common errors"
 * vocabulary, the frequent-terms helper, and the error page of the report.
 * TF-IDF similarity, KMeans clustering, the standard deviation and the
 * HTML rendering are not modelled.
 */
module ClassReport {
  import opened Wrappers
  import opened Strings
  import opened Seqs
  import opened StringOrder

  /** The columns the input table must have. */
  const RequiredColumns: set<string> := {"Student Name", "Score/5", "Topic", "Student Answer", "Reference Answer"}

  /** A line of the input table, each cell in its string form. */
  datatype RawRow = RawRow(name: string, score: string, topic: string, studentAnswer: string, referenceAnswer: string)

  datatype RawTable = RawTable(columns: set<string>, rows: seq<RawRow>)

  /** A cleaned line: the numeric score and the four text cells. */
  datatype Row = Row(name: string, score: real, topic: string, studentAnswer: string, referenceAnswer: string)

  // ---------------------------------------------------------------- scores

  /** The characters of `[0-9.]`. */
  predicate IsDecimalChar(c: char) { IsDigit(c) || c == '.' }

  predicate IsDot(c: char) { c == '.' }

  /** The value of a string of decimal digits. */
  function DigitsValue(ds: string): (v: nat)
    requires forall c :: c in ds ==> IsDigit(c)
  {
    if ds == [] then 0
    else
      assert forall c :: c in ds[..|ds| - 1] ==> c in ds;
      assert ds[|ds| - 1] in ds;
      assert IsDigit(ds[|ds| - 1]);
      assert ds[|ds| - 1] as int >= '0' as int;
      10 * DigitsValue(ds[..|ds| - 1]) + (ds[|ds| - 1] as int - '0' as int)
  }

  function Pow10(n: nat): (p: nat)
    ensures p >= 1
  {
    if n == 0 then 1 else 10 * Pow10(n - 1)
  }

  /**
   * `float(t)` for a string of digits and dots: at most one dot and at
   * least one digit; `None` where Python raises `ValueError`.
   */
  function ParseDecimal(t: string): (r: Option<real>)
    requires forall c :: c in t ==> IsDecimalChar(c)
    ensures r.Some? ==> r.value >= 0.0
  {
    var ip := PrefixUntil(t, IsDot);
    assert forall c :: c in ip ==> IsDigit(c) by {
      forall c | c in ip ensures IsDigit(c) {
        var k :| 0 <= k < |ip| && ip[k] == c;
        assert t[k] == c;
        assert c in t;
        assert IsDecimalChar(c) && !IsDot(c);
      }
    }
    if |ip| == |t| then
      if ip == [] then None else Some(DigitsValue(ip) as real)
    else
      var fp := t[|ip| + 1..];
      if '.' in fp || (ip == [] && fp == []) then None
      else
        assert forall c :: c in fp ==> IsDigit(c) by {
          forall c | c in fp ensures IsDigit(c) {
            var k :| 0 <= k < |fp| && fp[k] == c;
            assert t[|ip| + 1 + k] == c;
            assert c in t;
            assert IsDecimalChar(c) && c != '.';
          }
        }
        Some(DigitsValue(ip) as real + Fraction(fp))
  }

  /** The value of the digits after the dot. */
  function Fraction(fp: string): (f: real)
    requires forall c :: c in fp ==> IsDigit(c)
    ensures 0.0 <= f
  {
    DigitsValue(fp) as real / Pow10(|fp|) as real
  }

  /** A digit occurs in `t`. */
  predicate HasDigit(t: string) {
    exists k :: 0 <= k < |t| && IsDigit(t[k])
  }

  /** Two dots occur in `t`. */
  predicate HasTwoDots(t: string) {
    exists a, b :: 0 <= a < b < |t| && t[a] == '.' && t[b] == '.'
  }

  /**
   * A string of digits and dots fails to convert exactly when it has two
   * dots or no digit at all ("", ".", "1.2.3").
   */
  lemma ParseDecimalFails(t: string)
    requires forall c :: c in t ==> IsDecimalChar(c)
    ensures ParseDecimal(t).None? <==> HasTwoDots(t) || !HasDigit(t)
  {
    var ip := PrefixUntil(t, IsDot);
    assert forall k :: 0 <= k < |ip| ==> t[k] == ip[k] && ip[k] in ip && t[k] in t;
    if |ip| == |t| {
      assert !HasTwoDots(t);
      if t != [] {
        assert IsDigit(t[0]);
      }
    } else {
      var d := |ip|;
      var fp := t[d + 1..];
      assert t[d] == '.';
      assert forall m :: 0 <= m < |fp| ==> fp[m] == t[d + 1 + m] && t[d + 1 + m] in t;
      if '.' in fp {
        var m :| 0 <= m < |fp| && fp[m] == '.';
        assert t[d] == '.' && t[d + 1 + m] == '.';
      } else {
        assert !HasTwoDots(t) by {
          forall a, b | 0 <= a < b < |t| && t[a] == '.' ensures t[b] != '.' {
            assert a >= d;
            assert t[b] == fp[b - d - 1];
          }
        }
        if ip != [] {
          assert IsDigit(t[0]);
        } else if fp != [] {
          assert fp[0] in fp;
          assert IsDigit(t[d + 1]);
        } else {
          assert |t| == 1;
        }
      }
    }
  }

  /** A whole number without a dot converts to the value of its digits. */
  lemma ParseDecimalWhole(ip: string)
    requires ip != [] && forall c :: c in ip ==> IsDigit(c)
    ensures ParseDecimal(ip) == Some(DigitsValue(ip) as real)
  {
    PrefixUntilWhole(ip, IsDot);
  }

  /** `ip.fp` converts to the integer part plus the fraction `fp` over the matching power of ten. */
  lemma ParseDecimalFraction(ip: string, fp: string)
    requires forall c :: c in ip ==> IsDigit(c)
    requires forall c :: c in fp ==> IsDigit(c)
    requires ip != [] || fp != []
    ensures var r := ParseDecimal(ip + "." + fp);
      r.Some? && r.value == DigitsValue(ip) as real + DigitsValue(fp) as real / Pow10(|fp|) as real
  {
    var t := ip + "." + fp;
    SplitAtDot(ip, fp);
    ParseDecimalOfSplit(t, ip, fp);
  }

  /** In `ip.fp`, with digits on both sides, the first dot follows `ip` and `fp` is what remains. */
  lemma SplitAtDot(ip: string, fp: string)
    requires forall c :: c in ip ==> IsDigit(c)
    requires forall c :: c in fp ==> IsDigit(c)
    ensures var t := ip + "." + fp;
      && (forall c :: c in t ==> IsDecimalChar(c))
      && PrefixUntil(t, IsDot) == ip && |ip| < |t| && t[|ip| + 1..] == fp
      && '.' !in fp
  {
    var b := ['.'] + fp;
    assert ip + "." + fp == ip + b;
    PrefixUntilConcat(ip, b, IsDot);
    assert (ip + b)[|ip| + 1..] == fp;
    assert '.' !in fp by {
      assert !IsDigit('.');
    }
  }

  /** Unfolding `ParseDecimal` where the first dot follows `ip` and `fp` is the rest. */
  lemma ParseDecimalOfSplit(t: string, ip: string, fp: string)
    requires forall c :: c in t ==> IsDecimalChar(c)
    requires PrefixUntil(t, IsDot) == ip && |ip| < |t| && t[|ip| + 1..] == fp
    requires '.' !in fp && (ip != [] || fp != [])
    requires forall c :: c in ip ==> IsDigit(c)
    requires forall c :: c in fp ==> IsDigit(c)
    ensures ParseDecimal(t).Some? && ParseDecimal(t).value == DigitsValue(ip) as real + Fraction(fp)
  {
  }

  /** The digits of a numeral give back its number. */
  lemma {:induction false} DigitsValueOfNumeral(n: nat)
    ensures DigitsValue(NatToString(n)) == n
  {
    var s := NatToString(n);
    if n >= 10 {
      DigitsValueOfNumeral(n / 10);
      assert s[..|s| - 1] == NatToString(n / 10);
    }
  }

  /** A whole-number score parses back to itself. */
  lemma ParseDecimalOfNumeral(n: nat)
    ensures ParseDecimal(NatToString(n)) == Some(n as real)
  {
    var s := NatToString(n);
    DigitsValueOfNumeral(n);
    assert forall c :: c in s ==> !IsDot(c);
    PrefixUntilWhole(s, IsDot);
  }

  /**
   * The score of a cell: the first run of `[0-9.]` read as a number, 0 when
   * there is none, and `None` when that run is not a number.
   */
  function ExtractScore(cell: string): (r: Option<real>)
    ensures r.Some? ==> r.value >= 0.0
    ensures (forall c :: c in cell ==> !IsDecimalChar(c)) ==> r == Some(0.0)
  {
    var runs := Runs(cell, IsDecimalChar);
    if runs == [] then Some(0.0)
    else
      assert runs[0] in runs;
      assert runs[0][0] in cell && IsDecimalChar(runs[0][0]);
      ParseDecimal(runs[0])
  }

  /**
   * When the cell has a character of `[0-9.]`, its score is the conversion
   * of the first maximal run of them.
   */
  lemma ExtractScoreFirstRun(cell: string)
    ensures (exists k :: 0 <= k < |cell| && IsDecimalChar(cell[k])) ==>
      exists i, j ::
        && FirstRun(cell, IsDecimalChar, i, j)
        && (forall c :: c in cell[i..j] ==> IsDecimalChar(c))
        && ExtractScore(cell) == ParseDecimal(cell[i..j])
  {
    if exists k :: 0 <= k < |cell| && IsDecimalChar(cell[k]) {
      RunsFirst(cell, IsDecimalChar);
      var runs := Runs(cell, IsDecimalChar);
      var i, j :| FirstRun(cell, IsDecimalChar, i, j) && runs[0] == cell[i..j];
      assert runs[0] in runs;
    }
  }

  predicate IsQuote(c: char) { c == '"' }

  /** A text cell with its double quotes removed, stripped. */
  function CleanCell(cell: string): (r: string)
    ensures forall c :: c in r ==> c != '"' && c in cell
    ensures r == [] || (!IsPySpace(r[0]) && !IsPySpace(r[|r| - 1]))
  {
    Strip(RemoveAll(cell, IsQuote))
  }

  function CleanRow(raw: RawRow): Option<Row> {
    match ExtractScore(raw.score)
    case None => None
    case Some(score) =>
      Some(Row(CleanCell(raw.name), score, CleanCell(raw.topic),
               CleanCell(raw.studentAnswer), CleanCell(raw.referenceAnswer)))
  }

  /** The converted lines, or `None` as soon as one line fails to convert (the conversion raises). */
  function AllSome<T>(xs: seq<Option<T>>): Option<seq<T>> {
    if xs == [] then Some([])
    else
      match AllSome(xs[..|xs| - 1])
      case None => None
      case Some(init) =>
        if xs[|xs| - 1].None? then None else Some(init + [xs[|xs| - 1].value])
  }

  /** `load_data`: an empty table when a required column is missing or a score does not convert. */
  function Load(table: RawTable): seq<Row> {
    if !(RequiredColumns <= table.columns) then []
    else
      match AllSome(Map(CleanRow, table.rows))
      case None => []
      case Some(rows) => rows
  }

  /** Once a prefix fails to convert, the whole sequence does. */
  lemma {:induction false} AllSomeFailure<T>(xs: seq<Option<T>>, k: nat)
    requires k <= |xs| && AllSome(xs[..k]).None?
    ensures AllSome(xs).None?
    decreases |xs| - k
  {
    if k < |xs| {
      assert xs[..k + 1][..k] == xs[..k];
      AllSomeFailure(xs, k + 1);
    } else {
      assert xs[..k] == xs;
    }
  }

  /**
   * The conversion succeeds exactly when every line converts, and then it
   * has one line per input line, in order.
   */
  lemma {:induction false} AllSomeSpec<T>(xs: seq<Option<T>>)
    ensures AllSome(xs).Some? <==> forall i :: 0 <= i < |xs| ==> xs[i].Some?
    ensures AllSome(xs).Some? ==>
      |AllSome(xs).value| == |xs| && forall i :: 0 <= i < |xs| ==> AllSome(xs).value[i] == xs[i].value
  {
    if xs != [] {
      var init := xs[..|xs| - 1];
      AllSomeSpec(init);
      assert forall i :: 0 <= i < |init| ==> init[i] == xs[i];
    }
  }

  /** A line that does not convert makes the whole conversion fail. */
  lemma AllSomeStops<T>(xs: seq<Option<T>>, i: nat)
    requires i < |xs| && xs[i].None?
    ensures AllSome(xs).None?
  {
    assert xs[..i + 1][..i] == xs[..i];
    AllSomeFailure(xs, i + 1);
  }

  /** Converting one more line that converts extends the converted lines by it. */
  lemma AllSomeSnoc<T>(xs: seq<Option<T>>, i: nat, done: seq<T>)
    requires i < |xs| && AllSome(xs[..i]) == Some(done) && xs[i].Some?
    ensures AllSome(xs[..i + 1]) == Some(done + [xs[i].value])
  {
    assert xs[..i + 1][..i] == xs[..i];
  }

  /** `load_data` converts the table line by line into a new table. */
  method LoadData(table: RawTable) returns (rows: seq<Row>)
    ensures rows == Load(table)
  {
    if !(RequiredColumns <= table.columns) {
      return [];
    }
    ghost var all := Map(CleanRow, table.rows);
    rows := [];
    var i := 0;
    while i < |table.rows|
      invariant 0 <= i <= |table.rows|
      invariant AllSome(all[..i]) == Some(rows)
    {
      var row := CleanRow(table.rows[i]);
      assert all[i] == row;
      if row.None? {
        AllSomeStops(all, i);
        return [];
      }
      AllSomeSnoc(all, i, rows);
      rows := rows + [row.value];
      i := i + 1;
    }
    assert all[..i] == all;
  }

  // ------------------------------------------------------------ statistics

  function ScoreOf(r: Row): real { r.score }
  function NameOf(r: Row): string { r.name }
  function TopicOf(r: Row): string { r.topic }
  function StudentAnswerOf(r: Row): string { r.studentAnswer }
  function ReferenceAnswerOf(r: Row): string { r.referenceAnswer }

  function Mean(s: seq<real>): real
    requires s != []
  {
    Sum(s) / |s| as real
  }

  function MaxOf(s: seq<real>): (m: real)
    requires s != []
    ensures m in s && forall x :: x in s ==> x <= m
  {
    if |s| == 1 then s[0]
    else
      var t := MaxOf(s[1..]);
      assert forall x :: x in s ==> x == s[0] || x in s[1..];
      if s[0] >= t then s[0] else t
  }

  function MinOf(s: seq<real>): (m: real)
    requires s != []
    ensures m in s && forall x :: x in s ==> m <= x
  {
    if |s| == 1 then s[0]
    else
      var t := MinOf(s[1..]);
      assert forall x :: x in s ==> x == s[0] || x in s[1..];
      if s[0] <= t then s[0] else t
  }

  /** The mean lies between the least and the greatest value. */
  lemma MeanBounds(s: seq<real>)
    requires s != []
    ensures MinOf(s) <= Mean(s) <= MaxOf(s)
  {
    SumBounds(s, MinOf(s), MaxOf(s));
    QuotientBounds(Sum(s), |s| as real, MinOf(s), MaxOf(s));
  }

  /** A passing attempt scores at least 2.5 of 5. */
  predicate Passes(r: Row) { r.score >= 2.5 }

  datatype Overall = Overall(
    average: real, max: real, min: real, passRate: real, totalStudents: nat, totalAttempts: nat)

  /** The share of passing attempts, in percent. */
  function PassRate(rows: seq<Row>): real
    requires rows != []
  {
    Count(Passes, rows) as real / |rows| as real * 100.0
  }

  function OverallOf(rows: seq<Row>): Overall
    requires rows != []
  {
    var scores := Map(ScoreOf, rows);
    Overall(Mean(scores), MaxOf(scores), MinOf(scores), PassRate(rows),
            |Distinct(Map(NameOf, rows))|, |rows|)
  }

  /** The overall average lies between the lowest and the highest score. */
  lemma OverallAverageSpec(rows: seq<Row>)
    requires rows != []
    ensures var o := OverallOf(rows); o.min <= o.average <= o.max
  {
    MeanBounds(Map(ScoreOf, rows));
  }

  /** The pass rate is a percentage. */
  lemma PassRateSpec(rows: seq<Row>)
    requires rows != []
    ensures 0.0 <= OverallOf(rows).passRate <= 100.0
  {
    PassRateBounds(rows);
  }

  lemma PassRateBounds(rows: seq<Row>)
    requires rows != []
    ensures 0.0 <= PassRate(rows) <= 100.0
  {
    var q := Count(Passes, rows) as real / |rows| as real;
    QuotientBounds(Count(Passes, rows) as real, |rows| as real, 0.0, 1.0);
    assert 0.0 <= q <= 1.0;
  }

  /** The student count is the number of distinct names, at least one and at most the number of lines. */
  lemma StudentCountSpec(rows: seq<Row>)
    requires rows != []
    ensures var o := OverallOf(rows);
      && o.totalAttempts == |rows|
      && o.totalStudents == |Distinct(Map(NameOf, rows))|
      && 1 <= o.totalStudents <= |rows|
  {
    assert NameOf(rows[0]) in Map(NameOf, rows);
    DistinctLength(Map(NameOf, rows));
  }

  /** Removing duplicates never lengthens a sequence. */
  lemma {:induction false} DistinctLength<T(!new)>(s: seq<T>)
    ensures |Distinct(s)| <= |s|
  {
    if s != [] {
      DistinctLength(s[..|s| - 1]);
    }
  }

  /** The scores of the lines whose `key` is `k`, in order (one group of a `groupby`). */
  function GroupScores(rows: seq<Row>, key: Row -> string, k: string): (g: seq<real>)
    ensures |g| <= |rows|
    ensures (exists r :: r in rows && key(r) == k) ==> g != []
  {
    if rows == [] then []
    else
      var rest := GroupScores(rows[1..], key, k);
      assert forall r :: r in rows ==> r == rows[0] || r in rows[1..];
      if key(rows[0]) == k then [rows[0].score] + rest else rest
  }

  /** Grouping a table in two parts groups each part, in order. */
  lemma {:induction false} GroupScoresConcat(a: seq<Row>, b: seq<Row>, key: Row -> string, k: string)
    ensures GroupScores(a + b, key, k) == GroupScores(a, key, k) + GroupScores(b, key, k)
  {
    if a == [] {
      assert a + b == b;
    } else {
      assert (a + b)[0] == a[0];
      assert (a + b)[1..] == a[1..] + b;
      GroupScoresConcat(a[1..], b, key, k);
    }
  }

  /** A single line contributes its score exactly when its key is `k`. */
  lemma GroupScoresSingle(r: Row, key: Row -> string, k: string)
    ensures GroupScores([r], key, k) == if key(r) == k then [r.score] else []
  {
    assert [r][1..] == [];
  }

  /** A student's line of `top_students`. */
  datatype StudentStat = StudentStat(name: string, average: real, highest: real, attempts: nat)

  /** A topic's line of the topic table. */
  datatype TopicStat = TopicStat(topic: string, average: real, attempts: nat)

  function StudentStatOf(rows: seq<Row>, name: string): StudentStat {
    var g := GroupScores(rows, NameOf, name);
    if g == [] then StudentStat(name, 0.0, 0.0, 0)
    else StudentStat(name, Mean(g), MaxOf(g), |g|)
  }

  function TopicStatOf(rows: seq<Row>, topic: string): TopicStat {
    var g := GroupScores(rows, TopicOf, topic);
    if g == [] then TopicStat(topic, 0.0, 0) else TopicStat(topic, Mean(g), |g|)
  }

  /** One line per distinct name, in name order, as `groupby` gives them. */
  function StudentStats(rows: seq<Row>): seq<StudentStat> {
    Map((n: string) => StudentStatOf(rows, n), SortedUnique(Map(NameOf, rows)))
  }

  function TopicStats(rows: seq<Row>): seq<TopicStat> {
    Map((t: string) => TopicStatOf(rows, t), SortedUnique(Map(TopicOf, rows)))
  }

  /** Every student of the table has exactly one statistics line, with at least one attempt. */
  lemma StudentStatsSpec(rows: seq<Row>)
    ensures var st := StudentStats(rows);
      && (forall r :: r in rows ==> exists s :: s in st && s.name == r.name)
      && (forall i, j :: 0 <= i < j < |st| ==> st[i].name != st[j].name)
      && (forall s :: s in st ==> 1 <= s.attempts && s.average <= s.highest)
  {
    StudentStatsCover(rows);
    StudentStatsDistinct(rows);
    StudentStatsBounds(rows);
  }

  /** Every student with a row has a line. */
  lemma StudentStatsCover(rows: seq<Row>)
    ensures var st := StudentStats(rows);
      forall r :: r in rows ==> exists s :: s in st && s.name == r.name
  {
    var names := SortedUnique(Map(NameOf, rows));
    var st := StudentStats(rows);
    forall r | r in rows ensures exists s :: s in st && s.name == r.name {
      var i :| 0 <= i < |rows| && rows[i] == r;
      assert NameOf(rows[i]) in Map(NameOf, rows);
      var j :| 0 <= j < |names| && names[j] == r.name;
      assert st[j] in st;
    }
  }

  /** No student has two lines. */
  lemma StudentStatsDistinct(rows: seq<Row>)
    ensures var st := StudentStats(rows);
      forall i, j :: 0 <= i < j < |st| ==> st[i].name != st[j].name
  {
    var names := SortedUnique(Map(NameOf, rows));
    var st := StudentStats(rows);
    forall i, j | 0 <= i < j < |st| ensures st[i].name != st[j].name {
      StrLessIrreflexive(names[i]);
    }
  }

  /** Every line counts at least one attempt, and its average is at most its highest score. */
  lemma StudentStatsBounds(rows: seq<Row>)
    ensures forall s :: s in StudentStats(rows) ==> 1 <= s.attempts && s.average <= s.highest
  {
    var names := SortedUnique(Map(NameOf, rows));
    var st := StudentStats(rows);
    forall s | s in st ensures 1 <= s.attempts && s.average <= s.highest {
      var i :| 0 <= i < |st| && st[i] == s;
      assert names[i] in Map(NameOf, rows);
      var k :| 0 <= k < |rows| && NameOf(rows[k]) == names[i];
      assert rows[k] in rows;
      var g := GroupScores(rows, NameOf, names[i]);
      MeanBounds(g);
    }
  }

  function NegStudentAverage(s: StudentStat): real { -s.average }
  function TopicAverage(t: TopicStat): real { t.average }
  function NegTopicAverage(t: TopicStat): real { -t.average }

  /** `sort_values('Average', ascending=False).head(10)`. */
  function TopStudents(rows: seq<Row>): seq<StudentStat> {
    Take(SortBy(StudentStats(rows), NegStudentAverage), 10)
  }

  /**
   * Ten students, or all of them when there are fewer, best average first;
   * every student left out has an average no higher than any listed one.
   */
  lemma TopStudentsSpec(rows: seq<Row>)
    ensures var top := TopStudents(rows); var n := |StudentStats(rows)|;
      && |top| == (if n < 10 then n else 10)
      && (forall i, j :: 0 <= i < j < |top| ==> top[i].average >= top[j].average)
      && multiset(top) <= multiset(StudentStats(rows))
      && (forall x, y :: x in multiset(StudentStats(rows)) - multiset(top) && y in top ==> x.average <= y.average)
  {
    TopStudentsOrder(rows);
    TopStudentsCut(rows);
  }

  /** Ten lines, or all when there are fewer, highest average first. */
  lemma TopStudentsOrder(rows: seq<Row>)
    ensures var top := TopStudents(rows); var n := |StudentStats(rows)|;
      && |top| == (if n < 10 then n else 10)
      && (forall i, j :: 0 <= i < j < |top| ==> top[i].average >= top[j].average)
  {
    var top := TopStudents(rows);
    TopK(StudentStats(rows), NegStudentAverage, 10);
    assert SortedBy(top, NegStudentAverage);
  }

  /** The lines left out are students' lines with averages no higher than any kept one. */
  lemma TopStudentsCut(rows: seq<Row>)
    ensures var top := TopStudents(rows);
      && multiset(top) <= multiset(StudentStats(rows))
      && (forall x, y :: x in multiset(StudentStats(rows)) - multiset(top) && y in top ==> x.average <= y.average)
  {
    TopK(StudentStats(rows), NegStudentAverage, 10);
  }

  /** `nsmallest(3, 'Average')` and `nlargest(3, 'Average')` over the topic table. */
  function Hardest(ts: seq<TopicStat>): seq<TopicStat> {
    Take(SortBy(ts, TopicAverage), 3)
  }

  function Easiest(ts: seq<TopicStat>): seq<TopicStat> {
    Take(SortBy(ts, NegTopicAverage), 3)
  }

  function DifficultTopics(rows: seq<Row>): seq<TopicStat> {
    Hardest(TopicStats(rows))
  }

  function EasyTopics(rows: seq<Row>): seq<TopicStat> {
    Easiest(TopicStats(rows))
  }

  /** Three topics, or all when there are fewer, lowest average first; none left out is lower than a listed one. */
  lemma HardestSpec(ts: seq<TopicStat>)
    ensures var hard := Hardest(ts);
      && |hard| == (if |ts| < 3 then |ts| else 3)
      && (forall i, j :: 0 <= i < j < |hard| ==> hard[i].average <= hard[j].average)
      && multiset(hard) <= multiset(ts)
      && (forall x, y :: x in multiset(ts) - multiset(hard) && y in hard ==> y.average <= x.average)
  {
    HardestCut(ts);
  }

  lemma HardestCut(ts: seq<TopicStat>)
    ensures var hard := Hardest(ts);
      && (forall i, j :: 0 <= i < j < |hard| ==> hard[i].average <= hard[j].average)
      && multiset(hard) <= multiset(ts)
      && (forall x, y :: x in multiset(ts) - multiset(hard) && y in hard ==> y.average <= x.average)
  {
    TopK(ts, TopicAverage, 3);
  }

  /** Three topics, or all when there are fewer, highest average first; none left out is higher than a listed one. */
  lemma EasiestSpec(ts: seq<TopicStat>)
    ensures var easy := Easiest(ts);
      && |easy| == (if |ts| < 3 then |ts| else 3)
      && (forall i, j :: 0 <= i < j < |easy| ==> easy[i].average >= easy[j].average)
      && multiset(easy) <= multiset(ts)
      && (forall x, y :: x in multiset(ts) - multiset(easy) && y in easy ==> x.average <= y.average)
  {
    EasiestCut(ts);
  }

  lemma EasiestCut(ts: seq<TopicStat>)
    ensures var easy := Easiest(ts);
      && (forall i, j :: 0 <= i < j < |easy| ==> easy[i].average >= easy[j].average)
      && multiset(easy) <= multiset(ts)
      && (forall x, y :: x in multiset(ts) - multiset(easy) && y in easy ==> x.average <= y.average)
  {
    TopK(ts, NegTopicAverage, 3);
  }

  // ------------------------------------------------------- common errors

  /** What `\b[a-z]{4,}\b` matches: a whole word of at least four lower-case letters. */
  predicate IsErrorWord(w: string) {
    |w| >= 4 && forall c :: c in w ==> IsAsciiLower(c)
  }

  /** What `\b[a-z]{3,}\b` matches. */
  predicate IsTermWord(w: string) {
    |w| >= 3 && forall c :: c in w ==> IsAsciiLower(c)
  }

  /** `' '.join(cells).lower()`. */
  function JoinedLower(cells: seq<string>): string {
    Lower(Join(cells, " "))
  }

  /** The whole words of `text` that `word` accepts, in order (`re.findall` with `\b...\b`). */
  function FindWords(text: string, word: string -> bool): (ws: seq<string>)
    ensures forall w :: w in ws ==> word(w)
  {
    Filter(word, Runs(text, IsWordChar))
  }

  /**
   * A character that is not a word character ends a word: the words found
   * in `a`, such a character and `b` are those found in `a` followed by
   * those found in `b`.
   */
  lemma FindWordsSplit(a: string, c: char, b: string, word: string -> bool)
    requires !IsWordChar(c)
    ensures FindWords(a + [c] + b, word) == FindWords(a, word) + FindWords(b, word)
  {
    RunsSplit(a, c, b, IsWordChar);
    FilterConcat(word, Runs(a, IsWordChar), Runs(b, IsWordChar));
  }

  /** A text that is one whole word is found exactly when the pattern accepts it. */
  lemma FindWordsSingle(w: string, word: string -> bool)
    requires w != [] && forall c :: c in w ==> IsWordChar(c)
    ensures FindWords(w, word) == if word(w) then [w] else []
  {
    RunsSingle(w, IsWordChar);
    assert [w][1..] == [];
  }

  /** A word with its number of occurrences. */
  type Tally = (string, nat)

  function TallyCount(e: Tally): nat { e.1 }
  function NegTallyCount(e: Tally): real { -(e.1 as real) }
  function TallyWord(e: Tally): string { e.0 }

  /** The student words absent from the reference words and used more than 5 times, in `vocab` order. */
  function ErrorEntries(vocab: seq<string>, sw: seq<string>, rw: seq<string>): (es: seq<Tally>)
    ensures forall e :: e in es <==> e.0 in vocab && e.0 !in rw && e.1 == Occurrences(e.0, sw) && e.1 > 5
  {
    if vocab == [] then []
    else
      var rest := ErrorEntries(vocab[1..], sw, rw);
      assert forall w :: w in vocab <==> w == vocab[0] || w in vocab[1..];
      var n := Occurrences(vocab[0], sw);
      if vocab[0] !in rw && n > 5 then [(vocab[0], n)] + rest else rest
  }

  /** The `common_errors` dictionary over given word lists, most frequent first, at most ten. */
  function ErrorsOf(sw: seq<string>, rw: seq<string>): seq<Tally> {
    Take(SortBy(ErrorEntries(Distinct(sw), sw, rw), NegTallyCount), 10)
  }

  function CommonErrors(rows: seq<Row>): seq<Tally> {
    ErrorsOf(FindWords(JoinedLower(Map(StudentAnswerOf, rows)), IsErrorWord),
             FindWords(JoinedLower(Map(ReferenceAnswerOf, rows)), IsErrorWord))
  }

  /**
   * At most ten words are reported, by non-increasing count; a reported
   * word occurs in the student words more than five times, with its true
   * count, and never in the reference words.
   */
  lemma ErrorsOfSound(sw: seq<string>, rw: seq<string>)
    ensures var r := ErrorsOf(sw, rw);
      && |r| <= 10
      && (forall e :: e in r ==> e.0 in sw && e.0 !in rw && e.1 == Occurrences(e.0, sw) && e.1 > 5)
      && (forall i, j :: 0 <= i < j < |r| ==> r[i].1 >= r[j].1)
  {
    var entries := ErrorEntries(Distinct(sw), sw, rw);
    var r := Take(SortBy(entries, NegTallyCount), 10);
    TopK(entries, NegTallyCount, 10);
    forall e | e in r ensures e.0 in sw && e.0 !in rw && e.1 == Occurrences(e.0, sw) && e.1 > 5 {
      assert e in multiset(entries);
    }
  }

  /**
   * A word that qualifies (in the student words more than five times, never
   * in the reference words) is left out only when ten words are reported,
   * each at least as frequent.
   */
  lemma ErrorsOfComplete(sw: seq<string>, rw: seq<string>, w: string)
    requires w in sw && w !in rw && Occurrences(w, sw) > 5
    ensures var r := ErrorsOf(sw, rw);
      (w, Occurrences(w, sw)) !in r ==> |r| == 10 && forall e :: e in r ==> e.1 >= Occurrences(w, sw)
  {
    var entries := ErrorEntries(Distinct(sw), sw, rw);
    var sorted := SortBy(entries, NegTallyCount);
    var r := Take(sorted, 10);
    TopK(entries, NegTallyCount, 10);
    var x := (w, Occurrences(w, sw));
    assert x in entries;
    if x !in r {
      assert x in multiset(entries) - multiset(r);
      assert |r| < 10 ==> r == sorted;
    }
  }

  /** The common errors are whole lower-case words of at least four letters. */
  lemma CommonErrorsWords(rows: seq<Row>)
    ensures forall e :: e in CommonErrors(rows) ==> IsErrorWord(e.0)
  {
    var sw := FindWords(JoinedLower(Map(StudentAnswerOf, rows)), IsErrorWord);
    var rw := FindWords(JoinedLower(Map(ReferenceAnswerOf, rows)), IsErrorWord);
    ErrorsOfSound(sw, rw);
  }

  /** Each distinct word of `vocab` with its count in `ws`. */
  function Tallies(vocab: seq<string>, ws: seq<string>): (es: seq<Tally>)
    ensures |es| == |vocab|
    ensures forall e :: e in es <==> e.0 in vocab && e.1 == Occurrences(e.0, ws)
    ensures NoDup(vocab) ==> NoDup(es)
  {
    if vocab == [] then []
    else
      var rest := Tallies(vocab[1..], ws);
      assert forall w :: w in vocab <==> w == vocab[0] || w in vocab[1..];
      assert NoDup(vocab) ==> vocab[0] !in vocab[1..];
      [(vocab[0], Occurrences(vocab[0], ws))] + rest
  }

  /** `pd.Series(words).value_counts().index.tolist()` over a word list. */
  function TermsOf(words: seq<string>): seq<string> {
    Map(TallyWord, SortBy(Tallies(Distinct(words), words), NegTallyCount))
  }

  /** `_get_common_terms`: the topics joined, lower-cased, and cut into words of three letters or more. */
  function CommonTerms(topics: seq<string>): seq<string> {
    TermsOf(FindWords(JoinedLower(topics), IsTermWord))
  }

  /** Every line of the sorted tally is a word of the list with its count. */
  lemma SortedTallies(words: seq<string>, sorted: seq<Tally>)
    requires sorted == SortBy(Tallies(Distinct(words), words), NegTallyCount)
    ensures forall i :: 0 <= i < |sorted| ==> sorted[i].0 in words && sorted[i].1 == Occurrences(sorted[i].0, words)
  {
    var ts := Tallies(Distinct(words), words);
    forall i | 0 <= i < |sorted| ensures sorted[i].0 in words && sorted[i].1 == Occurrences(sorted[i].0, words) {
      assert sorted[i] in multiset(ts);
    }
  }

  /** Every word of the list is a term. */
  lemma TermPresent(words: seq<string>, w: string)
    requires w in words
    ensures w in TermsOf(words)
  {
    var ts := Tallies(Distinct(words), words);
    var sorted := SortBy(ts, NegTallyCount);
    var e := (w, Occurrences(w, words));
    TallyPresent(words, w);
    SortByMembers(ts, NegTallyCount);
    MapMember(TallyWord, sorted, e);
  }

  /** A word of the list has its tally line. */
  lemma TallyPresent(words: seq<string>, w: string)
    requires w in words
    ensures (w, Occurrences(w, words)) in Tallies(Distinct(words), words)
  {
    assert w in Distinct(words);
  }

  /** The terms are exactly the words of the list. */
  lemma TermsOfMembers(words: seq<string>)
    ensures forall w :: w in TermsOf(words) <==> w in words
  {
    forall w | w in TermsOf(words) ensures w in words {
      TermIsWord(words, w);
    }
    forall w | w in words ensures w in TermsOf(words) {
      TermPresent(words, w);
    }
  }

  /** Every term is a word of the list. */
  lemma TermIsWord(words: seq<string>, w: string)
    requires w in TermsOf(words)
    ensures w in words
  {
    var ts := Tallies(Distinct(words), words);
    var sorted := SortBy(ts, NegTallyCount);
    var r := Map(TallyWord, sorted);
    var i :| 0 <= i < |r| && r[i] == w;
    SortByMembers(ts, NegTallyCount);
    assert sorted[i] in sorted;
    assert sorted[i].0 in Distinct(words);
  }

  /** No term is listed twice. */
  lemma TermsOfNoDup(words: seq<string>)
    ensures NoDup(TermsOf(words))
  {
    var ts := Tallies(Distinct(words), words);
    var sorted := SortBy(ts, NegTallyCount);
    var r := Map(TallyWord, sorted);
    SortedTallies(words, sorted);
    forall i, j | 0 <= i < j < |r| ensures r[i] != r[j] {
      assert r[i] == sorted[i].0 && r[j] == sorted[j].0;
      if r[i] == r[j] {
        assert sorted[i] == (sorted[i].0, sorted[i].1);
        assert sorted[j] == (sorted[j].0, sorted[j].1);
        assert sorted[i] == sorted[j];
        RepeatedInMultiset(sorted, i, j);
        NoDupMultiset(ts, sorted[i]);
      }
    }
  }

  /** The terms come most frequent first. */
  lemma TermsOfOrdered(words: seq<string>)
    ensures var r := TermsOf(words);
      forall i, j :: 0 <= i < j < |r| ==> Occurrences(r[i], words) >= Occurrences(r[j], words)
  {
    var sorted := SortBy(Tallies(Distinct(words), words), NegTallyCount);
    var r := Map(TallyWord, sorted);
    SortedTallies(words, sorted);
    forall i, j | 0 <= i < j < |r| ensures Occurrences(r[i], words) >= Occurrences(r[j], words) {
      assert r[i] == sorted[i].0 && r[j] == sorted[j].0;
      assert SortedBy(sorted, NegTallyCount);
      assert NegTallyCount(sorted[i]) <= NegTallyCount(sorted[j]);
      assert sorted[i].1 >= sorted[j].1;
    }
  }

  /** The terms are whole lower-case words of at least three letters. */
  lemma CommonTermsWords(topics: seq<string>)
    ensures forall w :: w in CommonTerms(topics) ==> IsTermWord(w)
  {
    TermsOfMembers(FindWords(JoinedLower(topics), IsTermWord));
  }

  // --------------------------------------------------------------- report

  /** The analysis dictionary; `NoData` is the `{"error": ...}` result. */
  datatype Analysis =
    | NoData
    | Analysis(overall: Overall, topStudents: seq<StudentStat>, difficultTopics: seq<TopicStat>,
               easyTopics: seq<TopicStat>, commonErrors: seq<Tally>)

  /** `analyze_class_performance`. */
  function Analyze(rows: seq<Row>): Analysis {
    if rows == [] then NoData
    else Analysis(OverallOf(rows), TopStudents(rows), DifficultTopics(rows), EasyTopics(rows), CommonErrors(rows))
  }

  datatype Page = ErrorPage | ReportPage(analysis: Analysis)

  /** `generate_html_report`: the fixed error page for an error result; the rendering is not modelled. */
  function GenerateReport(a: Analysis): Page {
    if a.NoData? then ErrorPage else ReportPage(a)
  }

  /**
   * The analysis is the error result exactly for an empty table, and the
   * report of the error result is the fixed error page.
   */
  lemma ReportSpec(rows: seq<Row>)
    ensures Analyze(rows).NoData? <==> rows == []
    ensures GenerateReport(Analyze(rows)) == ErrorPage <==> rows == []
  {
  }

  /**
   * Loading gives the empty table when a required column is missing or a
   * score cell does not convert; otherwise one cleaned line per input line,
   * in order.
   */
  lemma LoadSpec(table: RawTable)
    ensures var rows := Load(table);
      && (!(RequiredColumns <= table.columns) ==> rows == [])
      && ((exists i :: 0 <= i < |table.rows| && CleanRow(table.rows[i]).None?) ==> rows == [])
      && (RequiredColumns <= table.columns && (forall i :: 0 <= i < |table.rows| ==> CleanRow(table.rows[i]).Some?) ==>
            |rows| == |table.rows| && forall i :: 0 <= i < |rows| ==> Some(rows[i]) == CleanRow(table.rows[i]))
  {
    AllSomeSpec(Map(CleanRow, table.rows));
  }
}
