/**
 * The practice page: choosing a subject and topic, generating a sample
 * multiple-choice question after a delay, picking an option, checking it,
 * and the attempt counters (total, correct, current streak).
 */
module Practice {
  import opened Wrappers
  import opened Seqs

  /** The counters shown on the page. */
  datatype Stats = Stats(total: nat, correct: nat, streak: nat)

  /** The counters after a check, from those before it. */
  function Record(prev: Stats, isCorrect: bool): (r: Stats)
    ensures r.total == prev.total + 1
    ensures isCorrect ==> r.correct == prev.correct + 1 && r.streak == prev.streak + 1
    ensures !isCorrect ==> r.correct == prev.correct && r.streak == 0
  {
    if isCorrect then Stats(prev.total + 1, prev.correct + 1, prev.streak + 1)
    else Stats(prev.total + 1, prev.correct, 0)
  }

  /** The streak never exceeds the correct answers, nor these the attempts. */
  predicate Consistent(s: Stats) {
    s.streak <= s.correct <= s.total
  }

  /** Every check keeps the counters consistent. */
  lemma RecordConsistent(prev: Stats, isCorrect: bool)
    requires Consistent(prev)
    ensures Consistent(Record(prev, isCorrect))
  {
  }

  /** The counters after checking answers with the given outcomes, starting from zero. */
  function StatsAfter(outcomes: seq<bool>): Stats {
    if outcomes == [] then Stats(0, 0, 0)
    else Record(StatsAfter(outcomes[..|outcomes| - 1]), outcomes[|outcomes| - 1])
  }

  function IsTrue(b: bool): bool { b }

  /** From zero, the counters are the number of checks and the number of correct ones, hence consistent. */
  lemma {:induction false} StatsAfterCounts(outcomes: seq<bool>)
    ensures var s := StatsAfter(outcomes);
      s.total == |outcomes| && s.correct == Count(IsTrue, outcomes) && Consistent(s)
  {
    if outcomes != [] {
      var init := outcomes[..|outcomes| - 1];
      var last := outcomes[|outcomes| - 1];
      StatsAfterCounts(init);
      assert outcomes == init + [last];
      CountConcat(IsTrue, init, [last]);
      assert [last][1..] == [];
    }
  }

  /**
   * The streak is the length of the run of correct answers at the end: the
   * last `streak` checks were correct, and the one before them, if any, was
   * not.
   */
  lemma {:induction false} StatsAfterStreak(outcomes: seq<bool>)
    ensures var n := StatsAfter(outcomes).streak;
      && n <= |outcomes|
      && (forall i :: |outcomes| - n <= i < |outcomes| ==> outcomes[i])
      && (n == |outcomes| || !outcomes[|outcomes| - n - 1])
  {
    if outcomes != [] {
      var init := outcomes[..|outcomes| - 1];
      StatsAfterStreak(init);
      assert forall i :: 0 <= i < |init| ==> init[i] == outcomes[i];
    }
  }

  /** A practice question: its text, its options as (id, text), the id of the right option and the explanation. */
  datatype PracticeQuestion = PracticeQuestion(
    text: string,
    options: seq<(string, string)>,
    correctAnswer: string,
    explanation: string)

  /** The subjects offered, each with its topics. */
  const SubjectsAndTopics: map<string, seq<string>> := map[
    "Mathematics" := ["Algebra", "Geometry", "Calculus", "Trigonometry"],
    "Science" := ["Physics", "Chemistry", "Biology", "Earth Science"],
    "English" := ["Grammar", "Vocabulary", "Literature", "Writing"]]

  /** `subject ? subjectsAndTopics[subject] || [] : []`. */
  function CurrentTopics(subject: string): (r: seq<string>)
    ensures r != [] <==> subject in SubjectsAndTopics
    ensures subject in SubjectsAndTopics ==> r == SubjectsAndTopics[subject]
  {
    if subject == "" then []
    else if subject in SubjectsAndTopics then SubjectsAndTopics[subject]
    else []
  }

  const AlgebraQuestion: PracticeQuestion := PracticeQuestion(
    "Solve for x: 2x + 5 = 13",
    [("a", "3"), ("b", "4"), ("c", "5"), ("d", "6")], "b",
    "To solve for x, subtract 5 from both sides: 2x = 8, then divide both sides by 2: x = 4")

  const PhysicsQuestion: PracticeQuestion := PracticeQuestion(
    "What is the SI unit of force?",
    [("a", "Watt"), ("b", "Joule"), ("c", "Newton"), ("d", "Pascal")], "c",
    "The Newton (N) is the SI unit of force, defined as the force needed to accelerate 1 kilogram of mass at 1 meter per second squared.")

  function GenericQuestion(subject: string, topic: string): PracticeQuestion {
    PracticeQuestion(
      "Sample " + subject + " question about " + topic,
      [("a", "Option A"), ("b", "Option B"), ("c", "Option C"), ("d", "Option D")], "a",
      "This is a sample explanation for the correct answer.")
  }

  /** The question shown for a subject and topic; the question's `Date.now()` id is not modelled. */
  function SampleQuestion(subject: string, topic: string): PracticeQuestion {
    if subject == "Mathematics" && topic == "Algebra" then AlgebraQuestion
    else if subject == "Science" && topic == "Physics" then PhysicsQuestion
    else GenericQuestion(subject, topic)
  }

  /** The right answer is one of the options. */
  predicate Answerable(q: PracticeQuestion) {
    exists k :: 0 <= k < |q.options| && q.options[k].0 == q.correctAnswer
  }

  /** Every question the page can show has four options, one of them the right answer. */
  lemma SampleQuestionAnswerable(subject: string, topic: string)
    ensures var q := SampleQuestion(subject, topic);
      |q.options| == 4 && Answerable(q)
  {
    var q := SampleQuestion(subject, topic);
    if subject == "Mathematics" && topic == "Algebra" {
      assert q.options[1].0 == q.correctAnswer;
    } else if subject == "Science" && topic == "Physics" {
      assert q.options[2].0 == q.correctAnswer;
    } else {
      assert q.options[0].0 == q.correctAnswer;
    }
  }

  /** The page's state. */
  class PracticeSession {
    var subject: string
    var topic: string
    var difficulty: string
    var isGenerating: bool
    var currentQuestion: Option<PracticeQuestion>
    var selectedAnswer: Option<string>
    var isAnswerChecked: bool
    var stats: Stats

    /** An option is chosen only while a question is shown, and the counters are consistent. */
    predicate Valid()
      reads this
    {
      && (selectedAnswer.Some? ==> currentQuestion.Some?)
      && Consistent(stats)
    }

    constructor ()
      ensures Valid()
      ensures subject == "" && topic == "" && difficulty == "medium"
      ensures !isGenerating && currentQuestion == None && selectedAnswer == None && !isAnswerChecked
      ensures stats == Stats(0, 0, 0)
    {
      subject := "";
      topic := "";
      difficulty := "medium";
      isGenerating := false;
      currentQuestion := None;
      selectedAnswer := None;
      isAnswerChecked := false;
      stats := Stats(0, 0, 0);
    }

    /** The generate button is enabled. */
    predicate CanGenerate()
      reads this
    {
      subject != "" && topic != "" && !isGenerating
    }

    /** Choosing a subject clears the topic, so nothing can be generated until a topic is chosen again. */
    method SelectSubject(s: string)
      requires Valid()
      modifies this
      ensures Valid()
      ensures subject == s && topic == ""
      ensures !CanGenerate()
      ensures difficulty == old(difficulty) && isGenerating == old(isGenerating)
      ensures currentQuestion == old(currentQuestion) && selectedAnswer == old(selectedAnswer)
      ensures isAnswerChecked == old(isAnswerChecked) && stats == old(stats)
    {
      subject := s;
      topic := "";
    }

    method SelectTopic(t: string)
      requires Valid()
      modifies this
      ensures Valid()
      ensures topic == t
      ensures subject == old(subject) && difficulty == old(difficulty) && isGenerating == old(isGenerating)
      ensures currentQuestion == old(currentQuestion) && selectedAnswer == old(selectedAnswer)
      ensures isAnswerChecked == old(isAnswerChecked) && stats == old(stats)
    {
      topic := t;
    }

    /**
     * `generateQuestion`: without a subject and a topic nothing happens;
     * otherwise the question, the chosen option and the checked flag are
     * cleared, and the subject and topic of this call are returned as the
     * request the delayed completion serves.
     */
    method StartGeneration() returns (request: Option<(string, string)>)
      requires Valid()
      modifies this
      ensures Valid()
      ensures old(subject) == "" || old(topic) == "" ==> request == None && unchanged(this)
      ensures old(subject) != "" && old(topic) != "" ==>
        && request == Some((subject, topic))
        && isGenerating && currentQuestion == None && selectedAnswer == None && !isAnswerChecked
        && subject == old(subject) && topic == old(topic) && difficulty == old(difficulty)
        && stats == old(stats)
    {
      if subject == "" || topic == "" {
        return None;
      }
      isGenerating := true;
      currentQuestion := None;
      selectedAnswer := None;
      isAnswerChecked := false;
      request := Some((subject, topic));
    }

    /** The delayed completion: the question for the subject and topic of its request is shown. */
    method CompleteGeneration(request: (string, string))
      requires Valid()
      modifies this
      ensures Valid()
      ensures !isGenerating && currentQuestion == Some(SampleQuestion(request.0, request.1))
      ensures subject == old(subject) && topic == old(topic) && difficulty == old(difficulty)
      ensures selectedAnswer == old(selectedAnswer) && isAnswerChecked == old(isAnswerChecked)
      ensures stats == old(stats)
    {
      isGenerating := false;
      currentQuestion := Some(SampleQuestion(request.0, request.1));
    }

    /** Clicking an option of the shown question chooses it, unless the answer is already checked. */
    method SelectOption(id: string)
      requires Valid() && currentQuestion.Some?
      modifies this
      ensures Valid()
      ensures old(isAnswerChecked) ==> unchanged(this)
      ensures !old(isAnswerChecked) ==>
        && selectedAnswer == Some(id)
        && subject == old(subject) && topic == old(topic) && difficulty == old(difficulty)
        && isGenerating == old(isGenerating) && currentQuestion == old(currentQuestion)
        && isAnswerChecked == old(isAnswerChecked) && stats == old(stats)
    {
      if !isAnswerChecked {
        selectedAnswer := Some(id);
      }
    }

    /**
     * `checkAnswer`: without a chosen option nothing happens; otherwise the
     * answer is marked checked and the counters record whether the chosen
     * option is the right one.
     */
    method CheckAnswer()
      requires Valid()
      modifies this
      ensures Valid()
      ensures old(selectedAnswer).None? ==> unchanged(this)
      ensures old(selectedAnswer).Some? ==>
        && isAnswerChecked
        && stats == Record(old(stats), old(selectedAnswer).value == old(currentQuestion).value.correctAnswer)
        && subject == old(subject) && topic == old(topic) && difficulty == old(difficulty)
        && isGenerating == old(isGenerating) && currentQuestion == old(currentQuestion)
        && selectedAnswer == old(selectedAnswer)
    {
      if selectedAnswer.None? {
        return;
      }
      isAnswerChecked := true;
      stats := Record(stats, selectedAnswer.value == currentQuestion.value.correctAnswer);
      RecordConsistent(old(stats), old(selectedAnswer).value == old(currentQuestion).value.correctAnswer);
    }
  }
}
