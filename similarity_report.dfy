/**
 * The similarity report's banding: a plagiarism score (a percentage) falls
 * in a severity level that picks the report's colours and messages, and
 * each matched source's similarity picks the colour of its badge.
 */
module SimilarityReport {

  datatype Level = Low | Moderate | High

  /** `getSeverity`'s `{ level, color }`. */
  datatype Severity = Severity(level: Level, color: string)

  /** Low is below 20, moderate from 20 to below 50, high from 50 up. */
  function GetSeverity(score: real): (r: Severity)
    ensures r.level == Low <==> score < 20.0
    ensures r.level == Moderate <==> 20.0 <= score < 50.0
    ensures r.level == High <==> 50.0 <= score
    ensures r.color == (match r.level case Low => "green" case Moderate => "amber" case High => "red")
  {
    if score < 20.0 then Severity(Low, "green")
    else if score < 50.0 then Severity(Moderate, "amber")
    else Severity(High, "red")
  }

  /** Levels in increasing order of concern. */
  function LevelRank(level: Level): nat {
    match level
    case Low => 0
    case Moderate => 1
    case High => 2
  }

  /** A higher score never gets a lower severity. */
  lemma SeverityMonotone(s: real, t: real)
    requires s <= t
    ensures LevelRank(GetSeverity(s).level) <= LevelRank(GetSeverity(t).level)
  {
  }

  /** `getSimilarityColors`: green below 30, amber from 30 to below 70, red from 70 up. */
  function GetSimilarityColors(similarity: real): (r: string)
    ensures r == "bg-green-100 text-green-800" <==> similarity < 30.0
    ensures r == "bg-amber-100 text-amber-800" <==> 30.0 <= similarity < 70.0
    ensures r == "bg-red-100 text-red-800" <==> 70.0 <= similarity
  {
    if similarity < 30.0 then "bg-green-100 text-green-800"
    else if similarity < 70.0 then "bg-amber-100 text-amber-800"
    else "bg-red-100 text-red-800"
  }

  /** The badge band of a similarity, 0 for green up to 2 for red. */
  function ColorRank(colors: string): nat {
    if colors == "bg-green-100 text-green-800" then 0
    else if colors == "bg-amber-100 text-amber-800" then 1
    else 2
  }

  /** A higher similarity never gets a lower badge colour. */
  lemma SimilarityColorsMonotone(s: real, t: real)
    requires s <= t
    ensures ColorRank(GetSimilarityColors(s)) <= ColorRank(GetSimilarityColors(t))
  {
  }

  /** The summary's heading for each level. */
  function Heading(level: Level): (h: string)
    ensures h == "High similarity detected - potential plagiarism" <==> level == High
  {
    match level
    case Low => "Low similarity detected"
    case Moderate => "Moderate similarity detected"
    case High => "High similarity detected - potential plagiarism"
  }

  const ReviewAdvice: string := " Review is strongly recommended."

  /** The sentence under the heading; the score's own formatting is passed in as text. */
  function Summary(scoreText: string, level: Level): string {
    "This document has a " + scoreText + "% similarity score with existing sources."
      + (if level == High then ReviewAdvice else "")
  }

  /**
   * The review advice ends the summary exactly at the high level, that is
   * for a score of 50 or more, and the warning heading goes with it.
   */
  lemma ReviewAdviceOnlyWhenHigh(scoreText: string, score: real)
    ensures var level := GetSeverity(score).level;
      var s := Summary(scoreText, level);
      var base := "This document has a " + scoreText + "% similarity score with existing sources.";
      && (score >= 50.0 ==> s == base + ReviewAdvice)
      && (score < 50.0 ==> s == base)
      && (Heading(level) == "High similarity detected - potential plagiarism" <==> score >= 50.0)
  {
  }
}
