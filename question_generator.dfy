/**
 * The question generator form: toggling question types in and out of the
 * selection, and the guarded request whose answer replaces the generated
 * questions. The request itself is replaced by its outcome.
 */
module QuestionGenerator {
  import opened Wrappers
  import opened Seqs
  import opened QuestionParser

  /** `handleQuestionTypeToggle`: a selected type is filtered out, any other appended. */
  function ToggleType(types: seq<string>, t: string): seq<string> {
    if t in types then Filter((x: string) => x != t, types) else types + [t]
  }

  /**
   * Toggling flips whether `t` is selected and leaves every other type as it
   * was; an absent type goes to the end, a present one is removed with the
   * others kept in order; a selection without duplicates keeps none.
   */
  lemma ToggleTypeSpec(types: seq<string>, t: string)
    ensures var r := ToggleType(types, t);
      && (t in r <==> t !in types)
      && (forall x :: x != t ==> (x in r <==> x in types))
      && (t !in types ==> r == types + [t])
      && (t in types ==> r == Filter((x: string) => x != t, types))
      && (NoDup(types) ==> NoDup(r))
  {
    var r := ToggleType(types, t);
    if NoDup(types) {
      if t in types {
        NoDupFilter(types, (x: string) => x != t);
      } else {
        forall i, j | 0 <= i < j < |r| ensures r[i] != r[j] {
          if j == |types| {
            assert r[i] in types;
          }
        }
      }
    }
  }

  /** Toggling a type that is not selected twice gives the selection back. */
  lemma ToggleTwice(types: seq<string>, t: string)
    requires t !in types
    ensures ToggleType(ToggleType(types, t), t) == types
  {
    var once := types + [t];
    var keep := (x: string) => x != t;
    FilterConcat(keep, types, [t]);
    FilterAllKept(types, keep);
    assert [t][1..] == [];
    assert Filter(keep, [t]) == [];
  }

  /** Filtering keeps a list without duplicates free of them. */
  lemma {:induction false} NoDupFilter(s: seq<string>, p: string -> bool)
    requires NoDup(s)
    ensures NoDup(Filter(p, s))
  {
    if s != [] {
      assert NoDup(s[1..]);
      NoDupFilter(s[1..], p);
      var rest := Filter(p, s[1..]);
      assert s[0] !in s[1..];
      if p(s[0]) {
        var r := [s[0]] + rest;
        forall i, j | 0 <= i < j < |r| ensures r[i] != r[j] {
          if i == 0 {
            assert r[j] in rest;
          } else {
            assert r[i] == rest[i - 1] && r[j] == rest[j - 1];
          }
        }
      }
    }
  }

  /** A filter that keeps every element keeps the list. */
  lemma {:induction false} FilterAllKept(s: seq<string>, p: string -> bool)
    requires forall x :: x in s ==> p(x)
    ensures Filter(p, s) == s
  {
    if s != [] {
      assert forall x :: x in s[1..] ==> x in s;
      FilterAllKept(s[1..], p);
      assert s[0] in s;
      assert s == [s[0]] + s[1..];
    }
  }

  /** The request body sent to the question endpoint. */
  datatype GenerateBody = GenerateBody(topic: string, difficulty: string, questionTypes: seq<string>, numQuestions: int)

  /** The form's state. */
  datatype GeneratorForm = GeneratorForm(
    topic: string,
    difficultyLevel: string,
    questionTypes: seq<string>,
    numberOfQuestions: int,
    isGenerating: bool,
    generatedQuestions: seq<Question>)

  const InitialForm: GeneratorForm := GeneratorForm("", "medium", ["Conceptual"], 5, false, [])

  /**
   * The start of `handleGenerateQuestions`: with an empty topic or no type
   * selected nothing is sent; otherwise the generated questions are cleared,
   * the form is marked generating and the body to send is returned.
   */
  function StartGenerate(form: GeneratorForm): (r: Option<(GeneratorForm, GenerateBody)>)
    ensures r.None? <==> form.topic == "" || form.questionTypes == []
    ensures r.Some? ==>
      && r.value.0 == form.(isGenerating := true, generatedQuestions := [])
      && r.value.1 == GenerateBody(form.topic, form.difficultyLevel, form.questionTypes, form.numberOfQuestions)
  {
    if form.topic == "" || form.questionTypes == [] then None
    else Some((form.(isGenerating := true, generatedQuestions := []),
               GenerateBody(form.topic, form.difficultyLevel, form.questionTypes, form.numberOfQuestions)))
  }

  /**
   * The end of the request: the answer's questions on success, none on
   * failure (the earlier clearing stands); generating is over either way.
   */
  function FinishGenerate(form: GeneratorForm, answer: Option<seq<Question>>): (r: GeneratorForm)
    ensures !r.isGenerating
    ensures answer.Some? ==> r.generatedQuestions == answer.value
    ensures answer.None? ==> r.generatedQuestions == form.generatedQuestions
    ensures r.topic == form.topic && r.questionTypes == form.questionTypes
  {
    match answer
    case Some(qs) => form.(isGenerating := false, generatedQuestions := qs)
    case None => form.(isGenerating := false)
  }

  /**
   * A whole generation: the questions shown afterwards are exactly the
   * answer's, or none when the request failed, never those of an earlier
   * generation; and the form is not left generating.
   */
  lemma GenerateSpec(form: GeneratorForm, answer: Option<seq<Question>>)
    requires StartGenerate(form).Some?
    ensures var after := FinishGenerate(StartGenerate(form).value.0, answer);
      && !after.isGenerating
      && after.generatedQuestions == (if answer.Some? then answer.value else [])
      && after.topic == form.topic && after.questionTypes == form.questionTypes
  {
  }
}
