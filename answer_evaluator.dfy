/**
 * The digital answer evaluator demo: a sample question fills the form, and
 * a delayed mock evaluation scores the answer by looking for key phrases,
 * chosen by the first topic phrase the question mentions. Letters are
 * compared after lower-casing.
 */
module AnswerEvaluator {
  import opened Wrappers
  import opened Strings
  import Seqs

  /** A key point of the rubric and whether the answer mentions it. */
  datatype KeyPoint = KeyPoint(text: string, present: bool)

  datatype EvalResult = EvalResult(score: int, feedback: string, keyPoints: seq<KeyPoint>, suggestions: seq<string>)

  /** The rubric the question selects. */
  datatype Rubric = Photosynthesis | Quadratic | IndustrialRevolution | General

  /** The first topic phrase the lower-cased question contains, in this order. */
  function RubricOf(question: string): (r: Rubric)
    ensures r == Photosynthesis <==> Contains(Lower(question), "photosynthesis")
    ensures r == Quadratic <==> !Contains(Lower(question), "photosynthesis") && Contains(Lower(question), "solve for x")
    ensures r == IndustrialRevolution <==>
      !Contains(Lower(question), "photosynthesis") && !Contains(Lower(question), "solve for x")
      && Contains(Lower(question), "industrial revolution")
  {
    var q := Lower(question);
    if Contains(q, "photosynthesis") then Photosynthesis
    else if Contains(q, "solve for x") then Quadratic
    else if Contains(q, "industrial revolution") then IndustrialRevolution
    else General
  }

  /** The score the rubric gives the answer. */
  function Score(rubric: Rubric, answer: string): (score: int)
    ensures var a := Lower(answer);
      && (rubric == Photosynthesis ==> (score == 85 <==> Contains(a, "light") && Contains(a, "oxygen")))
      && (rubric == Quadratic ==>
            (score == 90 <==> Contains(a, "quadratic formula") && (Contains(a, "x = 1/3") || Contains(a, "x = -2"))))
      && (rubric == IndustrialRevolution ==> (score == 80 <==> Contains(a, "england") && Contains(a, "urbanization")))
      && (rubric == General ==> (score == 75 <==> |answer| > 100))
    ensures rubric == Photosynthesis ==> score in {85, 65}
    ensures rubric == Quadratic ==> score in {90, 70}
    ensures rubric == IndustrialRevolution ==> score in {80, 60}
    ensures rubric == General ==> score in {75, 60}
  {
    var a := Lower(answer);
    match rubric
    case Photosynthesis => if Contains(a, "light") && Contains(a, "oxygen") then 85 else 65
    case Quadratic =>
      if Contains(a, "quadratic formula") && (Contains(a, "x = 1/3") || Contains(a, "x = -2")) then 90 else 70
    case IndustrialRevolution => if Contains(a, "england") && Contains(a, "urbanization") then 80 else 60
    case General => if |answer| > 100 then 75 else 60
  }

  /** The rubric's key points, each marked by whether the lower-cased answer has its phrases. */
  function KeyPoints(rubric: Rubric, answer: string): (ks: seq<KeyPoint>)
    ensures rubric == General <==> ks == []
    ensures rubric != General ==> |ks| == 4
  {
    var a := Lower(answer);
    match rubric
    case Photosynthesis => [
      KeyPoint("Conversion of light energy to chemical energy", Contains(a, "energy")),
      KeyPoint("Use of carbon dioxide and water as reactants", Contains(a, "carbon dioxide") && Contains(a, "water")),
      KeyPoint("Production of glucose and oxygen", Contains(a, "glucose") && Contains(a, "oxygen")),
      KeyPoint("Role in the food chain/web", Contains(a, "food chain"))]
    case Quadratic => [
      KeyPoint("Proper identification as a quadratic equation", Contains(a, "quadratic")),
      KeyPoint("Correct application of the quadratic formula", Contains(a, "quadratic formula") || Contains(a, "√(b² - 4ac)")),
      KeyPoint("Solution x = 1/3", Contains(a, "x = 1/3") || Contains(a, "x = 0.333")),
      KeyPoint("Solution x = -2", Contains(a, "x = -2"))]
    case IndustrialRevolution => [
      KeyPoint("Timeframe of the Industrial Revolution", Contains(a, "18th century")),
      KeyPoint("Major causes (technological, social, economic)", Contains(a, "technological") || Contains(a, "population growth")),
      KeyPoint("Discussion of urbanization", Contains(a, "urbanization")),
      KeyPoint("Impact on working conditions", Contains(a, "working conditions"))]
    case General => []
  }

  /** The higher of the rubric's two marks. */
  function TopMark(rubric: Rubric): int {
    match rubric
    case Photosynthesis => 85
    case Quadratic => 90
    case IndustrialRevolution => 80
    case General => 75
  }

  /** The feedback praises a score above the rubric's threshold (80, 80, 75); the general rubric never does. */
  predicate Praises(rubric: Rubric, score: int) {
    match rubric
    case Photosynthesis => score > 80
    case Quadratic => score > 80
    case IndustrialRevolution => score > 75
    case General => false
  }

  function Feedback(rubric: Rubric, score: int): string {
    match rubric
    case Photosynthesis =>
      if Praises(rubric, score) then "Good explanation of the photosynthesis process and its importance!"
      else "Your answer covers some key aspects of photosynthesis but could be more detailed."
    case Quadratic =>
      if Praises(rubric, score) then "Excellent work solving this quadratic equation with clear steps!"
      else "You have the right approach, but check your calculations and final answers."
    case IndustrialRevolution =>
      if Praises(rubric, score) then "Good analysis of the key causes and effects of the Industrial Revolution!"
      else "Your answer provides a basic overview but lacks some important details."
    case General => "Your answer provides some relevant information."
  }

  function Suggestions(rubric: Rubric): seq<string> {
    match rubric
    case Photosynthesis => [
      "Include the chemical equation: 6CO₂ + 6H₂O + light → C₆H₁₂O₆ + 6O₂",
      "Mention the role of chlorophyll in capturing light energy",
      "Discuss the light-dependent and light-independent reactions"]
    case Quadratic => [
      "Show the factorization method as an alternative approach",
      "Verify your answers by substituting them back into the original equation",
      "Check for calculation errors in your arithmetic"]
    case IndustrialRevolution => [
      "Include specific technological innovations like the steam engine",
      "Discuss social class changes that resulted from industrialization",
      "Compare the Industrial Revolution in England to its spread in other countries"]
    case General => ["Provide more specific details", "Use examples to support your answer"]
  }

  /** `!question.trim() || !answer.trim()`. */
  predicate IsBlank(s: string) {
    JsTrim(s) == []
  }

  /**
   * The mock evaluation: nothing for a blank question or answer; otherwise
   * the selected rubric's score of the answer, with its feedback, key points
   * and suggestions.
   */
  function Evaluate(question: string, answer: string): (r: Option<EvalResult>)
    ensures r.None? <==> IsBlank(question) || IsBlank(answer)
    ensures r.Some? ==>
      && r.value.score == Score(RubricOf(question), answer)
      && r.value.feedback == Feedback(RubricOf(question), r.value.score)
      && r.value.keyPoints == KeyPoints(RubricOf(question), answer)
  {
    if IsBlank(question) || IsBlank(answer) then None
    else
      var rubric := RubricOf(question);
      var score := Score(rubric, answer);
      Some(EvalResult(score, Feedback(rubric, score), KeyPoints(rubric, answer), Suggestions(rubric)))
  }

  /**
   * Every score lies between 60 and 90, and the feedback of the three topic
   * rubrics praises an answer exactly when it earned the rubric's higher
   * mark.
   */
  lemma ScoreMarks(rubric: Rubric, answer: string)
    ensures 60 <= Score(rubric, answer) <= 90
    ensures rubric != General ==> (Praises(rubric, Score(rubric, answer)) <==> Score(rubric, answer) == TopMark(rubric))
  {
    var score := Score(rubric, answer);
    match rubric
    case Photosynthesis => assert score in {85, 65};
    case Quadratic => assert score in {90, 70};
    case IndustrialRevolution => assert score in {80, 60};
    case General => assert score in {75, 60};
  }

  /** The heading over the score. */
  function ScoreLabel(score: int): string {
    if score >= 90 then "Excellent"
    else if score >= 80 then "Good"
    else if score >= 70 then "Satisfactory"
    else "Needs Improvement"
  }

  /** The position of a heading on the scale from "Needs Improvement" (0) to "Excellent" (3). */
  function LabelRank(heading: string): (rank: nat)
    ensures rank <= 3
  {
    if heading == "Excellent" then 3 else if heading == "Good" then 2 else if heading == "Satisfactory" then 1 else 0
  }

  /**
   * The heading follows the thresholds 90, 80 and 70, each heading exactly
   * on its band, and a higher score never gets a lower heading.
   */
  lemma ScoreLabelSpec(a: int, b: int)
    ensures ScoreLabel(a) == "Excellent" <==> a >= 90
    ensures ScoreLabel(a) == "Good" <==> 80 <= a < 90
    ensures ScoreLabel(a) == "Satisfactory" <==> 70 <= a < 80
    ensures ScoreLabel(a) == "Needs Improvement" <==> a < 70
    ensures LabelRank(ScoreLabel(a)) == (if a >= 90 then 3 else if a >= 80 then 2 else if a >= 70 then 1 else 0)
    ensures a <= b ==> LabelRank(ScoreLabel(a)) <= LabelRank(ScoreLabel(b))
  {
  }

  /** A sample question of the demo. */
  datatype SampleQuestion = SampleQuestion(id: string, text: string, subject: string)

  const SampleQuestions: seq<SampleQuestion> := [
    SampleQuestion("q1", "Explain how photosynthesis works and why it is important for life on Earth.", "Biology"),
    SampleQuestion("q2", "Solve for x: 3x² + 5x - 2 = 0", "Mathematics"),
    SampleQuestion("q3", "Discuss the causes and effects of the Industrial Revolution in England.", "History")]

  const SampleAnswers: map<string, string> := map[
    "q1" := "Photosynthesis is the process where plants convert light energy into chemical energy. They use sunlight, water, and carbon dioxide to create glucose and oxygen. This process is vital because it produces oxygen for animals to breathe and provides energy for the food chain.",
    "q2" := "To solve for x, I'll use the quadratic formula: x = (-b ± √(b² - 4ac)) / 2a\nWhere a=3, b=5, c=-2\nx = (-5 ± √(25 - 4(3)(-2))) / 2(3)\nx = (-5 ± √(25 + 24)) / 6\nx = (-5 ± √49) / 6\nx = (-5 ± 7) / 6\nSo x = 1/3 or x = -2",
    "q3" := "The Industrial Revolution began in England in the late 18th century. It was caused by several factors including agricultural improvements, population growth, and technological innovations. Effects included urbanization, poor working conditions, and economic growth as manufacturing increased."]

  /** The first sample question with the id. */
  function FindSample(samples: seq<SampleQuestion>, id: string): (r: Option<SampleQuestion>)
    ensures r.None? <==> forall q :: q in samples ==> q.id != id
    ensures r.Some? ==> r.value in samples && r.value.id == id
  {
    Seqs.FindFirst((q: SampleQuestion) => q.id == id, samples)
  }

  /** The evaluator's state. */
  datatype EvaluatorState = EvaluatorState(question: string, answer: string, isLoading: bool, result: Option<EvalResult>)

  /**
   * `selectSampleQuestion`: an unknown id changes nothing; a known one
   * fills in its question and sample answer and clears the result.
   */
  function SelectSample(st: EvaluatorState, id: string): (r: EvaluatorState)
    ensures (forall q :: q in SampleQuestions ==> q.id != id) ==> r == st
    ensures FindSample(SampleQuestions, id).Some? ==>
      && r.question == FindSample(SampleQuestions, id).value.text
      && r.answer == (if id in SampleAnswers then SampleAnswers[id] else "")
      && r.result == None && r.isLoading == st.isLoading
  {
    match FindSample(SampleQuestions, id)
    case None => st
    case Some(q) => st.(question := q.text, answer := if id in SampleAnswers then SampleAnswers[id] else "", result := None)
  }

  /**
   * The start of `handleEvaluate`: for a blank question or answer nothing
   * happens; otherwise the form is loading, the old result is cleared, and
   * the question and answer of this call are what the delayed evaluation
   * scores.
   */
  function StartEvaluate(st: EvaluatorState): (r: Option<(EvaluatorState, (string, string))>)
    ensures r.None? <==> IsBlank(st.question) || IsBlank(st.answer)
    ensures r.Some? ==> r.value.0 == st.(isLoading := true, result := None) && r.value.1 == (st.question, st.answer)
  {
    if IsBlank(st.question) || IsBlank(st.answer) then None
    else Some((st.(isLoading := true, result := None), (st.question, st.answer)))
  }

  /** The delayed end: loading stops and the request's evaluation is shown. */
  function CompleteEvaluate(st: EvaluatorState, request: (string, string)): (r: EvaluatorState)
    requires !IsBlank(request.0) && !IsBlank(request.1)
    ensures !r.isLoading && r.result.Some? && r.result == Evaluate(request.0, request.1)
    ensures r.question == st.question && r.answer == st.answer
  {
    st.(isLoading := false, result := Evaluate(request.0, request.1))
  }
}
