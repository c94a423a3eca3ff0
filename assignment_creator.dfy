/**
 * The assignment builder's section list: sections with an id, a title, an
 * expanded flag and the questions picked from the question bank, and the
 * handlers that compute a new list from the old one.
 */
module AssignmentCreator {
  import opened Wrappers
  import opened Strings
  import opened Seqs

  /** A question of the bank; options and answers are not used by the section handlers. */
  datatype BankQuestion = BankQuestion(id: string, kind: string, text: string, difficulty: string, subject: string)

  datatype Section = Section(id: int, title: string, expanded: bool, questions: seq<BankQuestion>)

  const QuestionBank: seq<BankQuestion> := [
    BankQuestion("q1", "multiple-choice", "What is the capital of France?", "easy", "Geography"),
    BankQuestion("q2", "multiple-choice", "What is the value of π (pi) to two decimal places?", "medium", "Mathematics"),
    BankQuestion("q3", "true-false", "The Great Wall of China is visible from space with the naked eye.", "medium", "Geography"),
    BankQuestion("q4", "short-answer", "What is the chemical symbol for gold?", "easy", "Chemistry"),
    BankQuestion("q5", "short-answer", "Who wrote \"Romeo and Juliet\"?", "easy", "Literature"),
    BankQuestion("q6", "essay", "Discuss the causes and effects of climate change.", "hard", "Environmental Science"),
    BankQuestion("q7", "coding", "Write a function that returns the factorial of a given number.", "medium", "Computer Science")]

  /** The list the page starts with. */
  const InitialSections: seq<Section> := [Section(1, "Section 1", true, [])]

  /** No two sections share an id. */
  predicate DistinctIds(sections: seq<Section>) {
    forall i, j :: 0 <= i < j < |sections| ==> sections[i].id != sections[j].id
  }

  /** `Math.max(...sections.map(s => s.id))` of a non-empty list. */
  function MaxId(sections: seq<Section>): (m: int)
    requires sections != []
    ensures forall s :: s in sections ==> s.id <= m
    ensures exists s :: s in sections && s.id == m
  {
    if |sections| == 1 then
      assert sections[0] in sections;
      sections[0].id
    else
      var rest := MaxId(sections[1..]);
      assert forall s :: s in sections <==> s == sections[0] || s in sections[1..];
      if sections[0].id >= rest then sections[0].id else rest
  }

  /** The id `addSection` gives: one more than the largest id, or 1 for an empty list. */
  function NewSectionId(sections: seq<Section>): (id: int)
    ensures forall s :: s in sections ==> s.id < id
    ensures sections == [] ==> id == 1
  {
    if |sections| > 0 then MaxId(sections) + 1 else 1
  }

  /** `addSection`: an expanded, empty section titled after its new id, added at the end. */
  function AddSection(sections: seq<Section>): (r: seq<Section>)
    ensures |r| == |sections| + 1 && r[..|sections|] == sections
    ensures var id := NewSectionId(sections);
      r[|sections|] == Section(id, "Section " + IntToString(id), true, [])
  {
    var id := NewSectionId(sections);
    sections + [Section(id, "Section " + IntToString(id), true, [])]
  }

  /** `removeSection`: the sections whose id differs, in their order. */
  function RemoveSection(sections: seq<Section>, id: int): seq<Section> {
    Filter((s: Section) => s.id != id, sections)
  }

  function Toggled(s: Section, id: int): Section {
    if s.id == id then s.(expanded := !s.expanded) else s
  }

  /** `toggleSection`: flip `expanded` of the sections with the id. */
  function ToggleSection(sections: seq<Section>, id: int): seq<Section> {
    Map((s: Section) => Toggled(s, id), sections)
  }

  /** The first bank question with the id. */
  function FindQuestion(bank: seq<BankQuestion>, questionId: string): (r: Option<BankQuestion>)
    ensures r.None? <==> forall q :: q in bank ==> q.id != questionId
    ensures r.Some? ==> r.value in bank && r.value.id == questionId
  {
    FindFirst((q: BankQuestion) => q.id == questionId, bank)
  }

  function WithQuestion(s: Section, id: int, q: BankQuestion): Section {
    if s.id == id then s.(questions := s.questions + [q]) else s
  }

  /** `addQuestionToSection`: a question not in the bank changes nothing; otherwise it is appended to the sections with the id. */
  function AddQuestionToSection(sections: seq<Section>, sectionId: int, questionId: string): seq<Section> {
    match FindQuestion(QuestionBank, questionId)
    case None => sections
    case Some(q) => Map((s: Section) => WithQuestion(s, sectionId, q), sections)
  }

  /** `questions.filter((_, index) => index !== questionIndex)`. */
  function RemoveAtIndex(qs: seq<BankQuestion>, index: int): (r: seq<BankQuestion>)
    ensures |r| <= |qs|
  {
    if qs == [] then []
    else (if index == 0 then [] else [qs[0]]) + RemoveAtIndex(qs[1..], index - 1)
  }

  /** Filtering on the index drops exactly the element at a valid index, and nothing otherwise. */
  lemma {:induction false} RemoveAtIndexSpec(qs: seq<BankQuestion>, index: int)
    ensures 0 <= index < |qs| ==> RemoveAtIndex(qs, index) == qs[..index] + qs[index + 1..]
    ensures !(0 <= index < |qs|) ==> RemoveAtIndex(qs, index) == qs
  {
    if qs != [] {
      RemoveAtIndexSpec(qs[1..], index - 1);
      if index == 0 {
        assert qs[1..] == qs[..0] + qs[1..];
      } else if 0 < index < |qs| {
        assert qs[..index] == [qs[0]] + qs[1..][..index - 1];
        assert qs[index + 1..] == qs[1..][index..];
      } else {
        assert qs == [qs[0]] + qs[1..];
      }
    }
  }

  function WithoutQuestion(s: Section, id: int, index: int): Section {
    if s.id == id then s.(questions := RemoveAtIndex(s.questions, index)) else s
  }

  /** `removeQuestionFromSection`: drop the question at the index from the sections with the id. */
  function RemoveQuestionFromSection(sections: seq<Section>, sectionId: int, index: int): seq<Section> {
    Map((s: Section) => WithoutQuestion(s, sectionId, index), sections)
  }

  /** `sections.reduce((total, s) => total + s.questions.length, 0)`. */
  function TotalQuestions(sections: seq<Section>): nat {
    if sections == [] then 0 else |sections[0].questions| + TotalQuestions(sections[1..])
  }

  lemma {:induction false} TotalQuestionsConcat(a: seq<Section>, b: seq<Section>)
    ensures TotalQuestions(a + b) == TotalQuestions(a) + TotalQuestions(b)
  {
    if a != [] {
      assert (a + b)[0] == a[0];
      assert (a + b)[1..] == a[1..] + b;
      TotalQuestionsConcat(a[1..], b);
    } else {
      assert a + b == b;
    }
  }

  /** The number of sections with the id. */
  function CountId(sections: seq<Section>, id: int): nat {
    if sections == [] then 0 else (if sections[0].id == id then 1 else 0) + CountId(sections[1..], id)
  }

  /** With distinct ids, at most one section has a given id. */
  lemma {:induction false} CountIdDistinct(sections: seq<Section>, id: int)
    requires DistinctIds(sections)
    ensures CountId(sections, id) <= 1
    ensures CountId(sections, id) == 1 <==> exists s :: s in sections && s.id == id
  {
    if sections != [] {
      assert DistinctIds(sections[1..]);
      CountIdDistinct(sections[1..], id);
      if sections[0].id == id {
        assert forall s :: s in sections[1..] ==> s.id != id;
      }
      assert forall s :: s in sections <==> s == sections[0] || s in sections[1..];
    }
  }

  /**
   * The new section's id is fresh, so distinct ids stay distinct; the
   * sections before it and the number of questions are unchanged.
   */
  lemma AddSectionSpec(sections: seq<Section>)
    ensures DistinctIds(sections) ==> DistinctIds(AddSection(sections))
    ensures TotalQuestions(AddSection(sections)) == TotalQuestions(sections)
  {
    var r := AddSection(sections);
    var n := |sections|;
    assert forall i :: 0 <= i < n ==> r[i] == sections[i] && sections[i] in sections;
    var last := r[n];
    TotalQuestionsConcat(sections, [last]);
    assert [last][1..] == [];
  }

  /**
   * Removing a section leaves no section with that id and keeps every other
   * section, in order; distinct ids stay distinct.
   */
  lemma RemoveSectionSpec(sections: seq<Section>, id: int)
    ensures var r := RemoveSection(sections, id);
      && (forall s :: s in r <==> s in sections && s.id != id)
      && (DistinctIds(sections) ==> DistinctIds(r))
      && (forall a, b :: a + b == sections ==> r == RemoveSection(a, id) + RemoveSection(b, id))
  {
    var r := RemoveSection(sections, id);
    var keep := (s: Section) => s.id != id;
    forall a, b | a + b == sections ensures r == RemoveSection(a, id) + RemoveSection(b, id) {
      FilterConcat(keep, a, b);
    }
    if DistinctIds(sections) {
      DistinctFilter(sections, keep);
    }
  }

  /** Keeping some sections of a list with distinct ids keeps the ids distinct. */
  lemma {:induction false} DistinctFilter(sections: seq<Section>, keep: Section -> bool)
    requires DistinctIds(sections)
    ensures DistinctIds(Filter(keep, sections))
  {
    if sections != [] {
      var head := sections[0];
      var tail := sections[1..];
      assert DistinctIds(tail);
      DistinctFilter(tail, keep);
      var rest := Filter(keep, tail);
      if keep(head) {
        HeadIdFresh(sections);
        ConsDistinct(head, rest);
      }
    }
  }

  /** The first section's id occurs in none of the later sections. */
  lemma HeadIdFresh(sections: seq<Section>)
    requires DistinctIds(sections) && sections != []
    ensures forall s :: s in sections[1..] ==> s.id != sections[0].id
  {
    forall s | s in sections[1..] ensures s.id != sections[0].id {
      var j :| 0 <= j < |sections| - 1 && sections[1..][j] == s;
      assert sections[j + 1] == s;
    }
  }

  /** A section whose id no section of a distinct list has can go in front of it. */
  lemma ConsDistinct(a: Section, rest: seq<Section>)
    requires DistinctIds(rest)
    requires forall s :: s in rest ==> s.id != a.id
    ensures DistinctIds([a] + rest)
  {
    var r := [a] + rest;
    forall i, j | 0 <= i < j < |r| ensures r[i].id != r[j].id {
      assert r[j] == rest[j - 1];
      if i == 0 {
        assert r[j] in rest;
      } else {
        assert r[i] == rest[i - 1];
      }
    }
  }

  /**
   * Toggling flips `expanded` of the sections with the id and nothing else
   * (ids, titles and questions stay), so toggling twice restores the list.
   */
  lemma ToggleSectionSpec(sections: seq<Section>, id: int)
    ensures var r := ToggleSection(sections, id);
      && |r| == |sections|
      && (forall i :: 0 <= i < |r| ==>
            && r[i].id == sections[i].id && r[i].title == sections[i].title
            && r[i].questions == sections[i].questions
            && (r[i].expanded <==> (sections[i].expanded != (sections[i].id == id))))
      && ToggleSection(r, id) == sections
  {
    var r := ToggleSection(sections, id);
    var rr := ToggleSection(r, id);
    assert forall i :: 0 <= i < |rr| ==> rr[i] == sections[i];
  }

  /**
   * A question not in the bank leaves the list unchanged. A bank question is
   * appended to the end of the matching sections' questions only; with
   * distinct ids the total grows by one exactly when a section has the id.
   */
  lemma AddQuestionSpec(sections: seq<Section>, sectionId: int, questionId: string)
    ensures var r := AddQuestionToSection(sections, sectionId, questionId);
      && ((forall q :: q in QuestionBank ==> q.id != questionId) ==> r == sections)
      && |r| == |sections|
      && (forall i :: 0 <= i < |r| ==>
            && r[i].id == sections[i].id && r[i].title == sections[i].title && r[i].expanded == sections[i].expanded
            && (sections[i].id != sectionId ==> r[i].questions == sections[i].questions))
      && (FindQuestion(QuestionBank, questionId).Some? ==>
            forall i :: 0 <= i < |r| && sections[i].id == sectionId ==>
              r[i].questions == sections[i].questions + [FindQuestion(QuestionBank, questionId).value])
      && TotalQuestions(r) == TotalQuestions(sections) +
           (if FindQuestion(QuestionBank, questionId).Some? then CountId(sections, sectionId) else 0)
  {
    match FindQuestion(QuestionBank, questionId)
    case None =>
    case Some(q) =>
      AddQuestionWith(sections, sectionId, q);
  }

  /** Appending `q` to the sections with the id, and only to them. */
  lemma AddQuestionWith(sections: seq<Section>, sectionId: int, q: BankQuestion)
    ensures var r := Map((s: Section) => WithQuestion(s, sectionId, q), sections);
      && |r| == |sections|
      && (forall i :: 0 <= i < |r| ==>
            && r[i].id == sections[i].id && r[i].title == sections[i].title && r[i].expanded == sections[i].expanded
            && r[i].questions == (if sections[i].id == sectionId then sections[i].questions + [q] else sections[i].questions))
      && TotalQuestions(r) == TotalQuestions(sections) + CountId(sections, sectionId)
  {
    AddQuestionTotal(sections, sectionId, q);
  }

  lemma {:induction false} AddQuestionTotal(sections: seq<Section>, sectionId: int, q: BankQuestion)
    ensures TotalQuestions(Map((s: Section) => WithQuestion(s, sectionId, q), sections))
      == TotalQuestions(sections) + CountId(sections, sectionId)
  {
    if sections != [] {
      var f := (s: Section) => WithQuestion(s, sectionId, q);
      AddQuestionTotal(sections[1..], sectionId, q);
      assert Map(f, sections)[1..] == Map(f, sections[1..]);
    }
  }

  /**
   * Only the matching sections change, and in them only the question at
   * the index goes, the others keeping their order; an index outside the
   * list changes nothing.
   */
  lemma RemoveQuestionSpec(sections: seq<Section>, sectionId: int, index: int)
    ensures var r := RemoveQuestionFromSection(sections, sectionId, index);
      && |r| == |sections|
      && forall i :: 0 <= i < |r| ==>
           && r[i].id == sections[i].id && r[i].title == sections[i].title && r[i].expanded == sections[i].expanded
           && (sections[i].id != sectionId ==> r[i].questions == sections[i].questions)
           && (sections[i].id == sectionId && 0 <= index < |sections[i].questions| ==>
                 r[i].questions == sections[i].questions[..index] + sections[i].questions[index + 1..])
           && (sections[i].id == sectionId && !(0 <= index < |sections[i].questions|) ==>
                 r[i].questions == sections[i].questions)
  {
    forall i | 0 <= i < |sections| {
      RemoveAtIndexSpec(sections[i].questions, index);
    }
  }

  /** `types[type] || type`. */
  function QuestionTypeDisplay(kind: string): (display: string)
    ensures kind == "multiple-choice" ==> display == "Multiple Choice"
    ensures kind == "true-false" ==> display == "True/False"
    ensures kind == "short-answer" ==> display == "Short Answer"
    ensures kind == "essay" ==> display == "Essay"
    ensures kind == "coding" ==> display == "Coding Problem"
    ensures kind !in {"multiple-choice", "true-false", "short-answer", "essay", "coding"} ==> display == kind
  {
    var types := map[
      "multiple-choice" := "Multiple Choice",
      "true-false" := "True/False",
      "short-answer" := "Short Answer",
      "essay" := "Essay",
      "coding" := "Coding Problem"];
    if kind in types && types[kind] != "" then types[kind] else kind
  }
}
