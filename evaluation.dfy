/**
 * The answer-evaluation script: the non-blank answer lines of both files,
 * the count check, and one result record per question. The NLP
 * preprocessing (tokenising, stop words, lemmatising), the sentence
 * embedding and its cosine similarity, and the stop-word list are
 * parameters.
 */
module Evaluation {
  import opened Wrappers
  import opened Strings
  import opened Seqs
  import opened StringOrder
  import opened SubmissionModel

  predicate HasText(line: string) {
    Strip(line) != []
  }

  /** `[line.strip() for line in f if line.strip()]`. */
  function AnswerLines(lines: seq<string>): seq<string> {
    Map(Strip, Filter(HasText, lines))
  }

  /**
   * Every answer is a non-blank line stripped of its surrounding whitespace,
   * and every non-blank line gives an answer.
   */
  lemma AnswerLinesSpec(lines: seq<string>)
    ensures var r := AnswerLines(lines);
      && |r| <= |lines|
      && (forall a :: a in r ==> a != [] && !IsPySpace(a[0]) && !IsPySpace(a[|a| - 1]))
      && (forall l :: l in lines && HasText(l) ==> Strip(l) in r)
  {
    var kept := Filter(HasText, lines);
    StrippedAnswers(kept);
    forall l | l in lines && HasText(l) ensures Strip(l) in Map(Strip, kept) {
      assert l in kept;
      var i :| 0 <= i < |kept| && kept[i] == l;
      assert Map(Strip, kept)[i] == Strip(l);
    }
  }

  /**
   * The answers of two stretches of lines are the answers of the first
   * followed by those of the second: answers keep the order of their lines.
   */
  lemma AnswerLinesConcat(a: seq<string>, b: seq<string>)
    ensures AnswerLines(a + b) == AnswerLines(a) + AnswerLines(b)
  {
    FilterConcat(HasText, a, b);
    MapConcat(Strip, Filter(HasText, a), Filter(HasText, b));
  }

  /** One line gives its stripped text as one answer when it has text, and no answer otherwise. */
  lemma AnswerLinesSingle(l: string)
    ensures AnswerLines([l]) == if HasText(l) then [Strip(l)] else []
  {
    assert [l][1..] == [];
  }

  /** Stripping non-blank lines gives non-empty answers with no surrounding whitespace. */
  lemma StrippedAnswers(kept: seq<string>)
    requires forall l :: l in kept ==> HasText(l)
    ensures forall a :: a in Map(Strip, kept) ==> a != [] && !IsPySpace(a[0]) && !IsPySpace(a[|a| - 1])
  {
    forall l | HasText(l) ensures IsUnpadded(Strip(l)) {
      StrippedLine(l);
    }
    MapKeeps(Strip, HasText, IsUnpadded, kept);
  }

  predicate IsUnpadded(a: string) {
    a != [] && !IsPySpace(a[0]) && !IsPySpace(a[|a| - 1])
  }

  lemma StrippedLine(l: string)
    requires HasText(l)
    ensures var a := Strip(l); a != [] && !IsPySpace(a[0]) && !IsPySpace(a[|a| - 1])
  {
  }

  /** Whitespace-only lines are ignored wherever they are, e.g. a final empty line. */
  lemma {:induction false} BlankLinesIgnored(before: seq<string>, blank: string, after: seq<string>)
    requires !HasText(blank)
    ensures AnswerLines(before + [blank] + after) == AnswerLines(before + after)
  {
    FilterConcat(HasText, before + [blank], after);
    FilterConcat(HasText, before, [blank]);
    FilterConcat(HasText, before, after);
    assert Filter(HasText, [blank]) == [];
    assert Filter(HasText, before) + [] == Filter(HasText, before);
  }

  /** The topic words of a preprocessed reference answer: its distinct words that are not stop words, sorted. */
  function Keywords(cleanRef: string, stopWords: set<string>): (ks: seq<string>)
    ensures Ascending(ks)
    ensures forall w :: w in ks <==> w in Words(cleanRef) && w !in stopWords
  {
    SortedUnique(NonStop(Words(cleanRef), stopWords))
  }

  function NonStop(ws: seq<string>, stopWords: set<string>): (r: seq<string>)
    ensures forall w :: w in r <==> w in ws && w !in stopWords
  {
    if ws == [] then []
    else if ws[0] in stopWords then NonStop(ws[1..], stopWords)
    else [ws[0]] + NonStop(ws[1..], stopWords)
  }

  /** `", ".join(sorted(keywords)[:3]) or "General"`. */
  function Topic(cleanRef: string, stopWords: set<string>): string {
    var joined := Join(Take(Keywords(cleanRef, stopWords), 3), ", ");
    if joined == [] then "General" else joined
  }

  /**
   * The topic is "General" when the reference has no keyword, and otherwise
   * the first three keywords in sorted order (fewer if there are fewer),
   * joined by ", ".
   */
  lemma TopicSpec(cleanRef: string, stopWords: set<string>)
    ensures var ks := Keywords(cleanRef, stopWords);
      && (ks == [] ==> Topic(cleanRef, stopWords) == "General")
      && (ks != [] ==> Topic(cleanRef, stopWords) == Join(ks[..if |ks| < 3 then |ks| else 3], ", "))
  {
    var ks := Keywords(cleanRef, stopWords);
    var top := Take(ks, 3);
    assert forall w :: w in top ==> w in ks;
    assert forall w :: w in ks ==> w in Words(cleanRef);
    JoinEmpty(top, ", ");
  }

  /** The cosine similarity of the embeddings of two preprocessed answers; not modelled. */
  type Similarity = (string, string) -> real

  function Min(a: real, b: real): real {
    if a <= b then a else b
  }

  /**
   * The record for question `idx`: a score of 0 and the topic "Error" when
   * either answer preprocesses to nothing, otherwise the similarity times 5
   * capped at 5, the similarity in percent, and the reference's topic. The
   * answers are stored as read, not preprocessed.
   */
  function Grade(idx: int, stud: string, ref: string, preprocess: string -> string,
                 similarity: Similarity, stopWords: set<string>): QuestionResult
  {
    var cleanStud := preprocess(stud);
    var cleanRef := preprocess(ref);
    if cleanStud == [] || cleanRef == [] then
      QuestionResult(idx, 0.0, 0.0, "Error", stud, ref)
    else
      var score := similarity(cleanStud, cleanRef);
      QuestionResult(idx, Min(score * 5.0, 5.0), score * 100.0, Topic(cleanRef, stopWords), stud, ref)
  }

  /**
   * The score never exceeds 5; the error record has score 0 and topic
   * "Error"; otherwise the score is five times the similarity, cut at 5.
   */
  lemma GradeSpec(idx: int, stud: string, ref: string, preprocess: string -> string,
                  similarity: Similarity, stopWords: set<string>)
    ensures var g := Grade(idx, stud, ref, preprocess, similarity, stopWords);
      && g.question == idx && g.studentAnswer == stud && g.referenceAnswer == ref
      && g.score <= 5.0
      && (preprocess(stud) == [] || preprocess(ref) == [] ==> g.score == 0.0 && g.similarity == 0.0 && g.topic == "Error")
      && (preprocess(stud) != [] && preprocess(ref) != [] ==>
            var s := similarity(preprocess(stud), preprocess(ref));
            && g.similarity == s * 100.0
            && (s * 5.0 <= 5.0 ==> g.score == s * 5.0)
            && (s * 5.0 > 5.0 ==> g.score == 5.0)
            && g.topic == Topic(preprocess(ref), stopWords))
  {
  }

  datatype EvalError = MismatchInNumberOfAnswers

  /**
   * `evaluate`: both files' answers, then one record per question, numbered
   * from 1, pairing the k-th student answer with the k-th reference answer.
   * Different numbers of answers fail with no records.
   */
  method Evaluate(studentLines: seq<string>, referenceLines: seq<string>, preprocess: string -> string,
                  similarity: Similarity, stopWords: set<string>)
    returns (r: Result<seq<QuestionResult>, EvalError>)
    ensures var students := AnswerLines(studentLines); var refs := AnswerLines(referenceLines);
      && (r.Failure? <==> |students| != |refs|)
      && (r.Failure? ==> r.error == MismatchInNumberOfAnswers)
      && (r.Success? ==>
            && |r.value| == |students|
            && forall k :: 0 <= k < |students| ==>
                 r.value[k] == Grade(k + 1, students[k], refs[k], preprocess, similarity, stopWords))
  {
    var students := AnswerLines(studentLines);
    var refs := AnswerLines(referenceLines);
    if |students| != |refs| {
      return Failure(MismatchInNumberOfAnswers);
    }
    var results := GradeAll(students, refs, preprocess, similarity, stopWords);
    return Success(results);
  }

  /** The loop of `evaluate`: one record per pair of answers, numbered from 1. */
  method GradeAll(students: seq<string>, refs: seq<string>, preprocess: string -> string,
                  similarity: Similarity, stopWords: set<string>)
    returns (results: seq<QuestionResult>)
    requires |students| == |refs|
    ensures |results| == |students|
    ensures forall k :: 0 <= k < |students| ==>
      results[k] == Grade(k + 1, students[k], refs[k], preprocess, similarity, stopWords)
  {
    results := [];
    var k := 0;
    while k < |students|
      invariant 0 <= k <= |students|
      invariant |results| == k
      invariant forall m :: 0 <= m < k ==> results[m] == Grade(m + 1, students[m], refs[m], preprocess, similarity, stopWords)
    {
      var g := Grade(k + 1, students[k], refs[k], preprocess, similarity, stopWords);
      results := results + [g];
      k := k + 1;
    }
  }
}
