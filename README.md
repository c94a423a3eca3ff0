# Smart-Check-AI scoring and dashboard logic in Dafny

This project models the logic core of Smart-Check-AI, a grading assistant for teachers and students.
The model covers these parts:

- **Plagiarism service.** Threshold validation, text preprocessing and the download loop. The pair loop reports every pair of documents with a flag.
- **Stand-alone plagiarism script.** Text cleaning and the token filter. It selects the files with enough text and reports only the pairs at or above the threshold, under the files' original indices.
- **Answer-evaluation script.** Non-blank answer lines and the count check. It builds one result per question: score, similarity and topic keywords.
- **Class performance analyser.** Loading and cleaning the results table, and the overall figures. It also finds the top students and topics, the common-error vocabulary, the frequent terms and the error page.
- **Question-generation handler.** It parses the markdown the language model returns into question records.
- **Student handlers.** Assignments joined with the student's submissions, and the creation of a submission after the upload.
- **Submission record.** Its status enumeration and its entries.
- **Student and teacher dashboards.** Counts, averages, percentage per subject, upcoming assignments and recent feedback.
- **Student pages.** The assignments page, with submission status, file selection and upload state. The practice page, with question, answer check and attempt counters.
- **Teacher tools.** The assignment builder's section list and the question generator's type selection.
- **Demo evaluator.** The key-phrase scoring of the digital answer evaluator.
- **Colour and severity bands.** These belong to the similarity report, the weak-points view, the upcoming-assignments list and the performance trends.

How the model is organised:

- Each core source file has its own module, named after it.
- Shared helpers live in their own modules:
  - `Wrappers`: Option and Result;
  - `Strings`: Python and JavaScript string operations;
  - `StringOrder`: Python's string order and `sorted(set(...))`;
  - `Seqs`: filter, map, sort, top-k and last-write-wins maps;
  - `Pairs`: the `i < j` pair order of both plagiarism loops.

How the source maps to Dafny:

- Code that builds results in loops, such as the pair loops, the file loops, the evaluation loop and the dashboard maps, becomes methods with loop invariants. Each method is proved equal to a specification function, and its properties are lemmas about that function.
- React state changed step by step becomes a class whose methods update its fields. This is the practice page and the upload state of the assignments page.
- Handlers that compute a new value from the old one become functions.

What is taken as given:

- Similarity scores (TF-IDF cosine, sentence embeddings) and the NLP preprocessing are uninterpreted parameters.
- Dates are integer timestamps, and the clock is a parameter.
- Requests, uploads and database queries are replaced by their outcomes, passed in.

## Model

| member | source | states |
|---|---|---|
| AnswerEvaluator.RubricOf | frontend/src/components/evaluation/DigitalAnswerEvaluator.jsx:57-116 | the rubric is chosen by the first of "photosynthesis", "solve for x", "industrial revolution" that the lower-cased question contains, each case as an if-and-only-if |
| AnswerEvaluator.Score | frontend/src/components/evaluation/DigitalAnswerEvaluator.jsx:58-117 | for each rubric the higher mark is given exactly when the answer has the rubric's phrases (or, for the general rubric, more than 100 characters), and the score is one of the rubric's two marks |
| AnswerEvaluator.KeyPoints | frontend/src/components/evaluation/DigitalAnswerEvaluator.jsx:60-119 | the general rubric has no key points and each topic rubric has four |
| AnswerEvaluator.Evaluate | frontend/src/components/evaluation/DigitalAnswerEvaluator.jsx:43-128 | no result exactly when the question or the answer is blank after trimming; otherwise the rubric's score, the feedback for that score and the rubric's key points |
| AnswerEvaluator.ScoreMarks | frontend/src/components/evaluation/DigitalAnswerEvaluator.jsx:57-121 | every score lies between 60 and 90, and a topic rubric's feedback praises the answer exactly when it got the rubric's higher mark |
| AnswerEvaluator.LabelRank | frontend/src/components/evaluation/DigitalAnswerEvaluator.jsx:215-221 | every heading has a rank on the four-step scale |
| AnswerEvaluator.ScoreLabelSpec | frontend/src/components/evaluation/DigitalAnswerEvaluator.jsx:215-221 | "Excellent" exactly from 90, "Good" exactly from 80 to below 90, "Satisfactory" exactly from 70 to below 80 and "Needs Improvement" exactly below 70, and a higher score never gets a lower heading |
| AnswerEvaluator.FindSample | frontend/src/components/evaluation/DigitalAnswerEvaluator.jsx:35 | no sample exactly when none has the id; otherwise a sample with that id |
| AnswerEvaluator.SelectSample | frontend/src/components/evaluation/DigitalAnswerEvaluator.jsx:34-41 | an unknown id leaves the form unchanged; a known one sets its question text and sample answer (empty when it has none) and clears the result |
| AnswerEvaluator.StartEvaluate | frontend/src/components/evaluation/DigitalAnswerEvaluator.jsx:43-47 | nothing happens exactly when the question or the answer is blank; otherwise loading starts, the result is cleared and the current question and answer are the request |
| AnswerEvaluator.CompleteEvaluate | frontend/src/components/evaluation/DigitalAnswerEvaluator.jsx:49-128 | loading stops and the result is the evaluation of the request, leaving the form's text alone |
| AssignmentCreator.MaxId | frontend/src/components/questions/AssignmentCreator.jsx:117 | the largest section id: no section's id is larger, and some section has it |
| AssignmentCreator.NewSectionId | frontend/src/components/questions/AssignmentCreator.jsx:116-118 | the new id is larger than every existing id, and is 1 when there are no sections |
| AssignmentCreator.AddSection | frontend/src/components/questions/AssignmentCreator.jsx:115-129 | the sections are kept as they were and one is appended, with the new id, the title "Section <id>", expanded and without questions |
| AssignmentCreator.AddSectionSpec | frontend/src/components/questions/AssignmentCreator.jsx:115-176 | adding a section keeps the ids distinct and leaves the question total unchanged |
| AssignmentCreator.RemoveSectionSpec | frontend/src/components/questions/AssignmentCreator.jsx:132-134 | exactly the sections with another id remain, distinct ids stay distinct, and removal distributes over concatenation |
| AssignmentCreator.DistinctFilter | frontend/src/components/questions/AssignmentCreator.jsx:132-134 | keeping some of the sections keeps their ids distinct |
| AssignmentCreator.ToggleSectionSpec | frontend/src/components/questions/AssignmentCreator.jsx:106-112 | same length; only the matching sections flip their expanded flag, everything else is kept; toggling twice restores the sections |
| AssignmentCreator.FindQuestion | frontend/src/components/questions/AssignmentCreator.jsx:138 | no question exactly when none of the bank has the id; otherwise a bank question with that id |
| AssignmentCreator.AddQuestionSpec | frontend/src/components/questions/AssignmentCreator.jsx:137-176 | an unknown question changes nothing; otherwise the matching sections get the question appended, others are unchanged, and the total grows by the number of matching sections |
| AssignmentCreator.AddQuestionWith | frontend/src/components/questions/AssignmentCreator.jsx:141-148 | every section keeps its id, title and flag; the sections with the id get the question appended, the others keep their questions, and the total grows by the number of sections with the id |
| AssignmentCreator.AddQuestionTotal | frontend/src/components/questions/AssignmentCreator.jsx:140-176 | appending a question to every section with the id raises the total by the number of such sections |
| AssignmentCreator.RemoveAtIndex | frontend/src/components/questions/AssignmentCreator.jsx:157 | the filtered questions are never more than before |
| AssignmentCreator.RemoveAtIndexSpec | frontend/src/components/questions/AssignmentCreator.jsx:157 | a valid index drops exactly that question; any other index keeps the list as it was |
| AssignmentCreator.RemoveQuestionSpec | frontend/src/components/questions/AssignmentCreator.jsx:152-162 | only the matching sections change, and in them exactly the question at the index is dropped when the index is valid |
| AssignmentCreator.TotalQuestionsConcat | frontend/src/components/questions/AssignmentCreator.jsx:176 | the question total of two runs of sections is the sum of their totals |
| AssignmentCreator.CountIdDistinct | frontend/src/components/questions/AssignmentCreator.jsx:116-150 | with distinct ids, at most one section has a given id, and exactly one when some section has it |
| AssignmentCreator.QuestionTypeDisplay | frontend/src/components/questions/AssignmentCreator.jsx:164-174 | each of the five known kinds gets its display name and any other kind is shown as it is |
| ClassReport.ParseDecimal | backend/python/allStudentPerformanceReport.py:28-29 | a run of digits and dots that converts to a float gives a non-negative number |
| ClassReport.ParseDecimalFails | backend/python/allStudentPerformanceReport.py:29 | a run of digits and dots fails to convert exactly when it has two dots or no digit |
| ClassReport.ParseDecimalWhole | backend/python/allStudentPerformanceReport.py:29 | digits without a dot convert to the number they spell |
| ClassReport.ParseDecimalFraction | backend/python/allStudentPerformanceReport.py:29 | digits, a dot and digits convert to the whole part plus the fraction over the matching power of ten |
| ClassReport.DigitsValueOfNumeral | backend/python/allStudentPerformanceReport.py:28-29 | reading back the decimal digits of a natural number gives that number |
| ClassReport.ParseDecimalOfNumeral | backend/python/allStudentPerformanceReport.py:28-29 | a score cell holding a plain whole number converts to exactly that number |
| ClassReport.ExtractScore | backend/python/allStudentPerformanceReport.py:25-31 | a converted score is never negative, and a cell without any digit or dot scores 0 |
| ClassReport.ExtractScoreFirstRun | backend/python/allStudentPerformanceReport.py:25-31 | when the cell has a digit or a dot, its score is the conversion of the first maximal run of digits and dots |
| ClassReport.CleanCell | backend/python/allStudentPerformanceReport.py:34-40 | the cleaned text has no double quote, only characters of the cell, and no leading or trailing whitespace |
| ClassReport.AllSomeSpec | backend/python/allStudentPerformanceReport.py:25-31 | the conversion of the lines succeeds exactly when every line converts, and then keeps one converted line per input line, in order |
| ClassReport.AllSomeStops | backend/python/allStudentPerformanceReport.py:29-46 | one line whose score does not convert makes the whole load fail |
| ClassReport.LoadData | backend/python/allStudentPerformanceReport.py:13-46 | the line-by-line loader returns exactly the table that the load specification gives |
| ClassReport.LoadSpec | backend/python/allStudentPerformanceReport.py:19-46 | a missing required column or an unconvertible score gives an empty table; otherwise one cleaned line per input line, in order |
| ClassReport.MaxOf | backend/python/allStudentPerformanceReport.py:56 | the maximum is a score and no score exceeds it |
| ClassReport.MinOf | backend/python/allStudentPerformanceReport.py:57 | the minimum is a score and no score is below it |
| ClassReport.MeanBounds | backend/python/allStudentPerformanceReport.py:55-57 | the mean lies between the minimum and the maximum |
| ClassReport.OverallAverageSpec | backend/python/allStudentPerformanceReport.py:54-57 | the overall average lies between the lowest and the highest score |
| ClassReport.PassRateSpec | backend/python/allStudentPerformanceReport.py:58 | the pass rate is between 0 and 100 |
| ClassReport.PassRateBounds | backend/python/allStudentPerformanceReport.py:58 | the share of attempts scoring 2.5 or more, times 100, is between 0 and 100 |
| ClassReport.StudentCountSpec | backend/python/allStudentPerformanceReport.py:59-60 | attempts are the number of lines, students the number of distinct names, between 1 and the number of lines |
| ClassReport.GroupScores | backend/python/allStudentPerformanceReport.py:66-76 | a group is never larger than the table and is non-empty for a key that occurs |
| ClassReport.GroupScoresConcat | backend/python/allStudentPerformanceReport.py:66 | grouping a table in two parts groups each part and keeps their order |
| ClassReport.GroupScoresSingle | backend/python/allStudentPerformanceReport.py:66 | a single line contributes its score exactly when its key matches |
| ClassReport.StudentStatsSpec | backend/python/allStudentPerformanceReport.py:65-68 | every student with a line has one statistics line, no two lines share a name, and each has at least one attempt and an average no higher than the best score |
| ClassReport.StudentStatsCover | backend/python/allStudentPerformanceReport.py:65-67 | every student with a line has a statistics line |
| ClassReport.StudentStatsDistinct | backend/python/allStudentPerformanceReport.py:65-67 | no two statistics lines share a name |
| ClassReport.StudentStatsBounds | backend/python/allStudentPerformanceReport.py:65-68 | each statistics line counts at least one attempt and its average is at most its highest score |
| ClassReport.TopStudentsSpec | backend/python/allStudentPerformanceReport.py:65-72 | ten students, or all of them when there are fewer, highest average first, taken from the statistics lines, and no student left out has a higher average than one kept |
| ClassReport.TopStudentsOrder | backend/python/allStudentPerformanceReport.py:69-70 | ten students, or all of them when there are fewer, highest average first |
| ClassReport.TopStudentsCut | backend/python/allStudentPerformanceReport.py:69-70 | the kept students come from the statistics lines and every one left out has an average no higher than any kept |
| ClassReport.HardestSpec | backend/python/allStudentPerformanceReport.py:82 | three topics, or all of them when there are fewer, lowest average first, taken from the topic table, and no topic left out has a lower average than one kept |
| ClassReport.EasiestSpec | backend/python/allStudentPerformanceReport.py:83 | three topics, or all of them when there are fewer, highest average first, taken from the topic table, and no topic left out has a higher average than one kept |
| ClassReport.FindWords | backend/python/allStudentPerformanceReport.py:118-147 | every word found satisfies the word pattern |
| ClassReport.FindWordsSplit | backend/python/allStudentPerformanceReport.py:118-119 | a character that is not a word character ends a word: the words found in a text, such a character and another text are those found in the first text followed by those found in the second, so every whole word is found, in order, and none is glued across the separator |
| ClassReport.FindWordsSingle | backend/python/allStudentPerformanceReport.py:147 | a text that is one whole word is found, once, exactly when the pattern accepts it |
| ClassReport.ErrorEntries | backend/python/allStudentPerformanceReport.py:121-128 | exactly the student words not used in the references and used more than five times, each with its count |
| ClassReport.ErrorsOfSound | backend/python/allStudentPerformanceReport.py:125-141 | at most ten entries, each a student word absent from the references with its count above five, most frequent first |
| ClassReport.ErrorsOfComplete | backend/python/allStudentPerformanceReport.py:125-141 | a qualifying word is left out only when ten entries are kept, each at least as frequent |
| ClassReport.CommonErrorsWords | backend/python/allStudentPerformanceReport.py:115-141 | every common error is a lower-case word of at least four letters |
| ClassReport.Tallies | backend/python/allStudentPerformanceReport.py:121-148 | one tally per vocabulary word, pairing each word with its count, and without repeats when the vocabulary has none |
| ClassReport.SortedTallies | backend/python/allStudentPerformanceReport.py:148 | every line of the sorted tally is a word of the list with its count |
| ClassReport.TallyPresent | backend/python/allStudentPerformanceReport.py:148 | every word of the list has its tally line |
| ClassReport.TermPresent | backend/python/allStudentPerformanceReport.py:148 | every word of the list is among the terms |
| ClassReport.TermIsWord | backend/python/allStudentPerformanceReport.py:148 | every term is a word of the list |
| ClassReport.TermsOfMembers | backend/python/allStudentPerformanceReport.py:148 | the terms are exactly the words of the list |
| ClassReport.TermsOfNoDup | backend/python/allStudentPerformanceReport.py:148 | no term is listed twice |
| ClassReport.TermsOfOrdered | backend/python/allStudentPerformanceReport.py:148 | the terms come most frequent first |
| ClassReport.CommonTermsWords | backend/python/allStudentPerformanceReport.py:144-148 | every common term is a lower-case word of at least three letters |
| ClassReport.ReportSpec | backend/python/allStudentPerformanceReport.py:150-159 | the analysis is the error result, and the page the error page, exactly when the table is empty (see also lines 50-51) |
| DashboardData.CountStatus | frontend/src/pages/teacher/Dashboard.jsx:61-66 | never more than the submissions, and 0 exactly when no submission has the status |
| DashboardData.CountStatusDisjoint | frontend/src/pages/teacher/Dashboard.jsx:61-66 | the pending and the flagged counts together never exceed the number of submissions |
| DashboardData.Grades | frontend/src/pages/teacher/Dashboard.jsx:69 | exactly the numeric grades of the submissions, never more of them than submissions |
| DashboardData.AverageGradeSpec | frontend/src/pages/teacher/Dashboard.jsx:67-71 | the average is 0 when no grade is a number (the divisor falls back to 1), and otherwise lies within any bounds of the grades |
| DashboardData.SoonestSpec | frontend/src/pages/teacher/Dashboard.jsx:106-109 | the first k assignments by due date: min(k, count) of them, earliest first, taken from the list, none left out is due earlier than one kept, and one is left out only when k are kept |
| Evaluation.AnswerLinesSpec | backend/python/evaluation.py:32-33 | no more answers than lines, none empty or beginning or ending with whitespace, and every line with text contributes its stripped form |
| Evaluation.AnswerLinesConcat | backend/python/evaluation.py:32-33 | the answers of two stretches of lines are those of the first followed by those of the second, so answers keep the order of their lines |
| Evaluation.AnswerLinesSingle | backend/python/evaluation.py:32-33 | one line gives exactly its stripped text when it has text and no answer otherwise; with the previous row this fixes the answers as the stripped lines with text, one per such line, in file order |
| Evaluation.StrippedAnswers | backend/python/evaluation.py:32-33 | stripping lines that have text gives non-empty answers without surrounding whitespace |
| Evaluation.StrippedLine | backend/python/evaluation.py:32 | stripping a line with text gives a non-empty answer without surrounding whitespace |
| Evaluation.BlankLinesIgnored | backend/python/evaluation.py:32-33 | a blank line anywhere in the file does not change the answers |
| Evaluation.Keywords | backend/python/evaluation.py:52-53 | the keywords are exactly the words of the cleaned reference that are not stop words, in ascending order |
| Evaluation.NonStop | backend/python/evaluation.py:52 | exactly the words that are not stop words |
| Evaluation.TopicSpec | backend/python/evaluation.py:52-53 | the topic is "General" when there is no keyword, and otherwise the first three keywords in sorted order joined by ", " |
| Evaluation.GradeSpec | backend/python/evaluation.py:40-62 | a grade keeps its number and both answers; an empty preprocessed answer gives score 0, similarity 0 and topic "Error"; otherwise the similarity is the cosine value times 100, the score is five times it capped at 5, and the topic comes from the reference |
| Evaluation.Evaluate | backend/python/evaluation.py:29-62 | a different number of student and reference answers is the mismatch error; otherwise one grade per answer pair, numbered from 1 |
| Evaluation.GradeAll | backend/python/evaluation.py:38-62 | one grade per answer pair, numbered from 1 |
| Pairs.RowShape | backend/python/check_plagiarism.py:63 | one pass of the inner loop visits `(i, lo)` up to `(i, hi - 1)`, in that order |
| Pairs.PairsBelowCount | backend/python/check_plagiarism.py:62-63 | the first i passes of the outer loop visit i(2n - i - 1)/2 pairs |
| Pairs.PairsBelowMembers | backend/python/check_plagiarism.py:62-63 | the first i passes visit exactly the pairs whose first index is below i and below the second, which is below n |
| Pairs.PairsBelowOrdered | backend/python/check_plagiarism.py:62-63 | the pairs come in lexicographic order |
| Pairs.AllPairsSpec | backend/python/check_plagiarism.py:62-63 | the two loops visit exactly the n(n - 1)/2 pairs i < j < n, each once, in lexicographic order (the same loops are at backend/python/server.py lines 80-81) |
| PerformanceTrends.CalculateAverage | frontend/src/components/feedback/PerformanceTrends.jsx:31-33 | no average (a NaN in the source) exactly for no scores; otherwise the average times the count is the sum |
| PerformanceTrends.AverageBounds | frontend/src/components/feedback/PerformanceTrends.jsx:31-33 | the average of scores within bounds lies within the same bounds |
| PerformanceTrends.SubjectAverages | frontend/src/components/feedback/PerformanceTrends.jsx:35-38 | one entry per subject row, in order, with the row's subject and the average of its scores |
| PerformanceTrends.SortedSubjects | frontend/src/components/feedback/PerformanceTrends.jsx:41 | the same entries, each as often, in non-increasing order of average |
| PerformanceTrends.TopSubject | frontend/src/components/feedback/PerformanceTrends.jsx:41 | the first ranked subject has the highest average of all |
| PerformanceTrends.PerformanceDataAverages | frontend/src/components/feedback/PerformanceTrends.jsx:3-38 | every row of the page's data has scores, and every subject average is between 0 and 100 |
| PerformanceTrends.SubjectColor | frontend/src/components/feedback/PerformanceTrends.jsx:188-201 | a listed subject gets its chart colour, and the gray default is given exactly to unlisted subjects |
| PlagiarismScript.CollapseSpaceSpec | backend/python/check_plagiarism.py:26 | every whitespace run becomes one space where the run stood: the result holds only spaces and non-whitespace characters of the text, never two spaces in a row, every non-whitespace character of the text in order, the same words as the text, is empty only for the empty text, and starts (ends) with a space exactly when the text starts (ends) with whitespace |
| PlagiarismScript.WordsCollapse | backend/python/check_plagiarism.py:26 | collapsing the whitespace runs leaves the words of the text unchanged, so no two words are joined and no word is split |
| PlagiarismScript.CollapseSpaceEnds | backend/python/check_plagiarism.py:26 | the collapsed text is empty exactly for the empty text, and its first (last) character is a space exactly when the text's first (last) character is whitespace |
| PlagiarismScript.CollapseNonSpace | backend/python/check_plagiarism.py:26 | a stretch without whitespace passes through collapsing unchanged |
| PlagiarismScript.CollapseRemoveAll | backend/python/check_plagiarism.py:26 | collapsing whitespace changes nothing but whitespace |
| PlagiarismScript.CollapseStartsWith | backend/python/check_plagiarism.py:26 | a text starting with a non-space character keeps that first character |
| PlagiarismScript.CleanTextSpec | backend/python/check_plagiarism.py:24-28 | the cleaned text holds only lower-case word characters and spaces, neither begins nor ends with a space, and keeps every word character of the lower-cased text, in order |
| PlagiarismScript.CleanTextKeepsWords | backend/python/check_plagiarism.py:24-28 | cleaning removes no word character of the lower-cased text and reorders none |
| PlagiarismScript.TokenizeSpec | backend/python/check_plagiarism.py:35-37 | exactly the tokens longer than two characters are kept, and keeping distributes over concatenation |
| PlagiarismScript.JoinPagesWords | backend/python/check_plagiarism.py:18 | the words of the pages joined by spaces are the words of each page, page after page, so no word of one page is glued to a word of the next, and a page without text adds none |
| PlagiarismScript.ExtractTextSpec | backend/python/check_plagiarism.py:14-22 | a file that cannot be read gives the empty text; a readable one gives lower-case word characters and spaces, no space at either end, and every word character of its joined pages, in order |
| PlagiarismScript.ExtractedSelection | backend/python/check_plagiarism.py:49-53 | a file takes part exactly when it can be read and its cleaned text is longer than 100 characters; an unreadable file never takes part |
| PlagiarismScript.SelectionSpec | backend/python/check_plagiarism.py:46-53 | the kept texts are the files' texts at the recorded indices, in increasing index order, and an index is recorded exactly when its text is non-empty and longer than 100 characters |
| PlagiarismScript.SelectionShape | backend/python/check_plagiarism.py:46-53 | one recorded index per kept text, each text the file's text at its index, indices increasing |
| PlagiarismScript.SelectionMembers | backend/python/check_plagiarism.py:49-53 | an index is recorded exactly when its file's text is substantial, and every recorded index is a file's |
| PlagiarismScript.SelectFiles | backend/python/check_plagiarism.py:46-53 | the loop over the files yields exactly the kept texts and their indices |
| PlagiarismScript.GatedMembers | backend/python/check_plagiarism.py:62-70 | a match is reported exactly for a visited pair whose percentage reaches the threshold, with the pair's original file indices |
| PlagiarismScript.GatedSnoc | backend/python/check_plagiarism.py:64-70 | visiting one more pair appends its match exactly when its percentage reaches the threshold |
| PlagiarismScript.ReportRow | backend/python/check_plagiarism.py:63-70 | one pass of the inner loop appends the matches of row i to the matches found so far |
| PlagiarismScript.ReportMatches | backend/python/check_plagiarism.py:60-70 | the nested loops report the matches of all pairs i < j, in loop order |
| PlagiarismScript.CheckFiles | backend/python/check_plagiarism.py:39-76 | the script's main flow returns exactly the outcome: the matches, or the error that ends it with status 1 |
| PlagiarismScript.OutcomeSpec | backend/python/check_plagiarism.py:39-76 | the script fails exactly when two files are kept and the vectorizer finds no term or the threshold is not a number, the vocabulary error first; fewer than two kept files print an empty list; every printed match reaches the given threshold, or 75 when none is given |
| PlagiarismScript.RunSpec | backend/python/check_plagiarism.py:44-70 | with fewer than two kept texts nothing is reported; each match names two substantial files, first index lower, at or above the threshold (75 by default); and a pair of kept texts is reported exactly when its percentage reaches the threshold |
| PlagiarismScript.RunMatchesValid | backend/python/check_plagiarism.py:44-70 | each match names two substantial files, first index lower, with a percentage at or above the threshold |
| PlagiarismScript.RunReportsExactly | backend/python/check_plagiarism.py:62-70 | with two or more kept texts, a pair is reported exactly when its percentage reaches the threshold |
| PlagiarismScript.Injective | backend/python/check_plagiarism.py:53 | recorded indices are increasing, so two positions with the same recorded index are the same |
| PlagiarismServer.ValidateThreshold | backend/python/server.py:18-24 | a missing threshold is 75; a given one is accepted exactly when it is between 0 and 100 and then kept as it is; otherwise the request fails with status 422 |
| PlagiarismServer.KeptWordsSpec | backend/python/server.py:43-47 | the kept words are exactly the words of the lower-cased, punctuation-free text that are not among the eight stop words, and none holds punctuation or an upper-case letter |
| PlagiarismServer.PreprocessTextSpec | backend/python/server.py:40-50 | the preprocessed text has no punctuation, digit or upper-case letter, and no leading or trailing whitespace |
| PlagiarismServer.StopWordSurvivesDigitRemoval | backend/python/server.py:46-50 | stop words are removed before digits, so the word "in1" comes out as the stop word "in" |
| PlagiarismServer.SingleWordLosesOnlyDigits | backend/python/server.py:40-50 | a text that is one lower-case word without punctuation, not a stop word, preprocesses to that word with its digits removed |
| PlagiarismServer.DownloadSpec | backend/python/server.py:57-70 | the download succeeds exactly when every file is fetched and yields text, and then keeps one preprocessed text per URL, in order; otherwise it fails with the error of the first unusable file |
| PlagiarismServer.FetchTexts | backend/python/server.py:57-70 | the download loop returns exactly the download specification's result |
| PlagiarismServer.PrependNothing | backend/python/server.py:67 | prepending no texts leaves a download result as it is |
| PlagiarismServer.PrependTwice | backend/python/server.py:67 | prepending texts in two steps is prepending them at once |
| PlagiarismServer.ReportSnoc | backend/python/server.py:87-92 | comparing one more pair appends its entry |
| PlagiarismServer.ReportShape | backend/python/server.py:80-92 | one entry per compared pair, in the pairs' order |
| PlagiarismServer.CompareRow | backend/python/server.py:81-92 | one pass of the inner loop appends the entries of row i |
| PlagiarismServer.ComparePairs | backend/python/server.py:77-92 | the nested loops produce one entry for each pair i < j, in loop order |
| PlagiarismServer.ReportPairs | backend/python/server.py:80-89 | the entries name exactly the pairs i < j, each once, in loop order |
| PlagiarismServer.ReportEntries | backend/python/server.py:82-91 | each entry carries the pair's similarity and is flagged exactly when the similarity reaches the cut |
| PlagiarismServer.CheckPlagiarism | backend/python/server.py:52-99 | the endpoint returns exactly the response specification's result |
| PlagiarismServer.RespondErrors | backend/python/server.py:20-99 | an out-of-range threshold is a 422 error; otherwise the response succeeds exactly when every file is usable and the texts have a term; an unusable file fails with the first unusable file's error, and usable files without any term fail with status 500 |
| PlagiarismServer.NoFilesIsInternalError | backend/python/server.py:72-99 | a request with a valid threshold and no files ends in the internal-error response (status 500), since the vectorizer has no text to learn from |
| PlagiarismServer.RespondPairs | backend/python/server.py:80-92 | a successful response lists exactly the pairs i < j of the files, once each, in loop order |
| PlagiarismServer.RespondFlags | backend/python/server.py:77-91 | each reported pair carries its similarity and is flagged exactly when the similarity reaches the threshold divided by 100 |
| Practice.Record | frontend/src/pages/student/Practice.jsx:86-98 | a check adds one to the total; a correct answer also adds one to the correct count and the streak, a wrong one resets the streak |
| Practice.RecordConsistent | frontend/src/pages/student/Practice.jsx:86-98 | a check keeps the streak at most the correct count, and that at most the total |
| Practice.StatsAfterCounts | frontend/src/pages/student/Practice.jsx:86-98 | from zero, the total is the number of checks and the correct count the number of correct ones (see also lines 12-16) |
| Practice.StatsAfterStreak | frontend/src/pages/student/Practice.jsx:86-98 | the streak is the length of the run of correct answers that ends the session |
| Practice.CurrentTopics | frontend/src/pages/student/Practice.jsx:18-22 | a subject of the table gets its topics, and the list is empty exactly for a subject not in the table (or none) (see also line 101) |
| Practice.SampleQuestionAnswerable | frontend/src/pages/student/Practice.jsx:35-77 | every generated question has four options and its correct answer is one of them |
| Practice.PracticeSession.constructor | frontend/src/pages/student/Practice.jsx:5-16 | a new session has no subject or topic, medium difficulty, no question, no answer and zero counters |
| Practice.PracticeSession.SelectSubject | frontend/src/pages/student/Practice.jsx:148-151 | choosing a subject clears the topic (so nothing can be generated) and leaves the rest unchanged |
| Practice.PracticeSession.SelectTopic | frontend/src/pages/student/Practice.jsx:165 | choosing a topic changes only the topic |
| Practice.PracticeSession.StartGeneration | frontend/src/pages/student/Practice.jsx:24-30 | without a subject and a topic nothing changes; otherwise generation starts and the question, the answer and the checked flag are cleared |
| Practice.PracticeSession.CompleteGeneration | frontend/src/pages/student/Practice.jsx:32-78 | generation stops and the question for the requested subject and topic is shown |
| Practice.PracticeSession.SelectOption | frontend/src/pages/student/Practice.jsx:217 | once the answer is checked nothing changes; before, the option becomes the selected answer |
| Practice.PracticeSession.CheckAnswer | frontend/src/pages/student/Practice.jsx:81-99 | with no selected answer nothing changes; otherwise the answer is marked checked and the counters record whether it was correct |
| QuestionGenerator.ToggleTypeSpec | frontend/src/components/questions/QuestionGenerator.jsx:21-27 | toggling flips whether the type is selected, leaves other types alone, appends a new type at the end, removes every copy of a selected one, and keeps a list without repeats without repeats |
| QuestionGenerator.ToggleTwice | frontend/src/components/questions/QuestionGenerator.jsx:21-27 | toggling an unselected type twice restores the list |
| QuestionGenerator.NoDupFilter | frontend/src/components/questions/QuestionGenerator.jsx:23 | removing a type from a list without repeats keeps it without repeats |
| QuestionGenerator.FilterAllKept | frontend/src/components/questions/QuestionGenerator.jsx:23 | filtering a list whose members all pass leaves it unchanged |
| QuestionGenerator.StartGenerate | frontend/src/components/questions/QuestionGenerator.jsx:29-40 | nothing is sent exactly when the topic is empty or no type is selected; otherwise generation starts, old questions are cleared and the request carries the form's fields |
| QuestionGenerator.FinishGenerate | frontend/src/components/questions/QuestionGenerator.jsx:41-48 | generation stops; a reply replaces the questions and a failure leaves them |
| QuestionGenerator.GenerateSpec | frontend/src/components/questions/QuestionGenerator.jsx:29-48 | after a request the form is idle and shows the reply's questions, or none when the request failed |
| QuestionParser.Capture | backend/controllers/teacherController.js:29-31 | a capture exists exactly when the text contains the marker, and it holds no stop character |
| QuestionParser.CaptureSpan | backend/controllers/teacherController.js:29-31 | when the marker occurs, the capture is the piece of the text that starts at its first occurrence, after the whitespace that follows it, holds no stop character and ends at a stop character or at the end of the text |
| QuestionParser.SkipThenPrefix | backend/controllers/teacherController.js:29-31 | the skipped characters are whitespace, the capture is the slice of the text that follows them, and it ends at a stop character or at the end |
| QuestionParser.ParseChunk | backend/controllers/teacherController.js:28-41 | a piece becomes a question exactly when it has all three markers; each field is trimmed and on one line |
| QuestionParser.ParseChunks | backend/controllers/teacherController.js:26-42 | never more questions than pieces, and exactly the questions of the pieces that parse |
| QuestionParser.ParseChunksConcat | backend/controllers/teacherController.js:26-42 | parsing distributes over concatenation of the pieces |
| QuestionParser.ParseChunksSingle | backend/controllers/teacherController.js:28-42 | a single piece gives its question when it parses and nothing otherwise |
| QuestionParser.GenerateQuestionsSpec | backend/controllers/teacherController.js:6-49 | no reply is the generation failure, an empty markdown text is the invalid-format failure, and otherwise the questions are the parsed pieces of the markdown cut at every "---", the pieces joining back to the text |
| StudentAssignments.SubmissionsMap | frontend/src/pages/student/Assignments.jsx:41-45 | the loop builds the last-wins map of the submissions by assignment id: an id is a key exactly when some submission has it, and its value is a submission for that id |
| StudentAssignments.SubmissionsStep | frontend/src/pages/student/Assignments.jsx:43-45 | entering one more submission keeps the map the last-wins map of the submissions seen so far |
| StudentAssignments.SubmissionsMapLast | frontend/src/pages/student/Assignments.jsx:43-45 | an id maps to its last submission in the list |
| StudentAssignments.SubmissionStatus | frontend/src/pages/student/Assignments.jsx:119-138 | no submission shows "pending"; "submitted" and "checked" show "submitted", "evaluated" shows "graded", "flagged" and "late" show themselves, and anything else shows "pending" |
| StudentAssignments.ShowsUploadSpec | frontend/src/pages/student/Assignments.jsx:119-138 | the upload controls are shown exactly when there is no submission or its status is not submitted, checked or evaluated (see also line 297) |
| StudentAssignments.UploadErrorText | frontend/src/pages/student/Assignments.jsx:112-114 | the error text is never empty: the server's message when it has one, else the fixed fallback |
| StudentAssignments.AssignmentsPage.constructor | frontend/src/pages/student/Assignments.jsx:13-18 | the page starts with no assignments, no submissions, no files, progress 0 and no messages |
| StudentAssignments.AssignmentsPage.ApplyFetch | frontend/src/pages/student/Assignments.jsx:22-56 | a successful fetch replaces the assignments and the submission map and clears the error; a failed one only sets the load error |
| StudentAssignments.AssignmentsPage.HandleFileSelect | frontend/src/pages/student/Assignments.jsx:62-70 | picking a file records it for the assignment, resets the progress and enables its submit button; nothing else changes, and no picked file does nothing |
| StudentAssignments.AssignmentsPage.HandleUpload | frontend/src/pages/student/Assignments.jsx:72-116 | without a file nothing happens; an accepted upload sets progress 100, clears the file, shows the success message, refreshes the data and disables every submit button; a rejected one resets the progress, keeps the file and shows the error (see also lines 325-327) |
| StudentController.SubmissionsOf | backend/controllers/studentController.js:22-24 | exactly the student's own submissions |
| StudentController.Find | backend/controllers/studentController.js:27 | no submission exactly when none is for the assignment; otherwise one for it |
| StudentController.FindOwn | backend/controllers/studentController.js:22-27 | the submission found for an assignment is the student's first one for it |
| StudentController.GetAssignmentsSpec | backend/controllers/studentController.js:13-33 | one entry per assignment, in order, each "submitted" exactly when the student has a submission for it and otherwise "pending" with no score, the score being the first such submission's grade |
| StudentController.SubmitAssignmentSpec | backend/controllers/studentController.js:43-70 | no file is the 400 error and a failed upload a 500 error, both leaving the store; a submission is created exactly when the upload gives a URL and the assignment id is given and, like the student's id, is 24 hexadecimal digits; otherwise the save rejects, nothing is stored and no reply is sent; a created submission is appended with the URL, the student, the assignment and status pending |
| SubmissionModel.ParseStatus | backend/models/submissionModel.js:16-20 | a parsed status names the text it was parsed from |
| SubmissionModel.StatusNameRoundTrip | backend/models/submissionModel.js:16-20 | every status of the enumeration parses back from its name |
| SubmissionModel.NewSubmission | backend/models/submissionModel.js:3-44 | a document is accepted exactly when the assignment, the student and a non-empty file URL are given, both ids are 24 hexadecimal digits, and the status, if any, is one of the five; it then keeps those fields, defaults the status to pending and starts with no grade, no score, no matches and no results |
| TeacherDashboard.StatsSpec | frontend/src/pages/teacher/Dashboard.jsx:60-71 | the total is the number of submissions, pending and flagged never exceed it and are 0 exactly when no submission has that status, and the average is 0 without grades and otherwise within the grades' bounds |
| TeacherDashboard.UpcomingSpec | frontend/src/pages/teacher/Dashboard.jsx:104-109 | at most five assignments, all from the list and due after now, earliest first, and a future assignment is left out only when five due no later are shown |
| StudentDashboard.CompletedSplit | frontend/src/pages/student/Dashboard.jsx:55-57 | the completed count is the number of checked plus the number of evaluated submissions |
| StudentDashboard.CompletedFlaggedDisjoint | frontend/src/pages/student/Dashboard.jsx:55-80 | completed and flagged together never exceed the number of submissions |
| StudentDashboard.BuildStatusMap | frontend/src/pages/student/Dashboard.jsx:59-65 | the loop builds exactly the last-wins map from assignment id to status |
| StudentDashboard.StatusOfSpec | frontend/src/pages/student/Dashboard.jsx:59-65 | an id is a key exactly when some submission is for it, and it maps to the status of its last submission |
| StudentDashboard.PendingWithoutSubmission | frontend/src/pages/student/Dashboard.jsx:67-77 | an assignment without a submission is pending exactly when it is due after now |
| StudentDashboard.PendingByLastSubmission | frontend/src/pages/student/Dashboard.jsx:67-77 | an assignment with submissions is pending exactly when it is due after now and its last submission is pending, submitted or late |
| StudentDashboard.BuildSubjectStats | frontend/src/pages/student/Dashboard.jsx:88-97 | the loop builds exactly the per-subject totals |
| StudentDashboard.GradesIn | frontend/src/pages/student/Dashboard.jsx:89-96 | never more grades than submissions |
| StudentDashboard.GradesInMembers | frontend/src/pages/student/Dashboard.jsx:89-96 | exactly the numeric grades of the submissions in the subject ("Other" when the assignment has none) |
| StudentDashboard.SubjectTotalsSpec | frontend/src/pages/student/Dashboard.jsx:88-97 | a subject has an entry exactly when it has a numeric grade, and the entry is the sum and the number of its grades |
| StudentDashboard.SubjectTotalsStep | frontend/src/pages/student/Dashboard.jsx:89-96 | one more submission keeps every subject's entry the sum and count of its grades |
| StudentDashboard.Snoc | frontend/src/pages/student/Dashboard.jsx:89-96 | a graded submission adds its grade to its subject's entry (creating it when absent); any other leaves the entry |
| StudentDashboard.SumSnoc | frontend/src/pages/student/Dashboard.jsx:94 | adding one more grade adds it to the sum |
| StudentDashboard.RoundHalfUp | frontend/src/pages/student/Dashboard.jsx:102 | Math.round: the nearest integer, halves rounded up |
| StudentDashboard.PerformanceSubjects | frontend/src/pages/student/Dashboard.jsx:99-104 | a subject is listed exactly when one of its submissions has a numeric grade |
| StudentDashboard.HasGradesIn | frontend/src/pages/student/Dashboard.jsx:89-96 | a subject has grades exactly when one of its submissions has a numeric grade |
| StudentDashboard.PerformancePercent | frontend/src/pages/student/Dashboard.jsx:99-104 | a listed subject's percent is its rounded mean grade, and within any bounds of the grades |
| StudentDashboard.MeanBetween | frontend/src/pages/student/Dashboard.jsx:102 | the rounded mean of grades within integer bounds stays within those bounds |
| StudentDashboard.OpenAssignmentsSpec | frontend/src/pages/student/Dashboard.jsx:105-112 | an assignment is open exactly when it is listed, due after now and has no submission |
| StudentDashboard.UpcomingSpec | frontend/src/pages/student/Dashboard.jsx:108-114 | at most five open assignments, earliest first, and an open one is left out only when five due no later are shown |
| StudentDashboard.RecentGradedSpec | frontend/src/pages/student/Dashboard.jsx:117-122 | at most two graded submissions with results, newest first, and a graded one is left out only when two no older are shown |
| StudentDashboard.ChosenNewestFirst | frontend/src/pages/student/Dashboard.jsx:121-122 | at most two, newest first |
| StudentDashboard.ChosenFromGraded | frontend/src/pages/student/Dashboard.jsx:117-120 | every chosen submission has a numeric grade and results |
| StudentDashboard.OmittedNoNewer | frontend/src/pages/student/Dashboard.jsx:121-122 | a graded submission left out is no newer than both shown |
| StudentDashboard.Newest | frontend/src/pages/student/Dashboard.jsx:121-122 | the first k by update time, newest first: min(k, count) of them, taken from the list, none left out newer than one kept, one left out only when k are kept |
| StudentDashboard.RecentFeedbackSpec | frontend/src/pages/student/Dashboard.jsx:123-128 | one card per chosen submission, with its title, its grade and its update time |
| UpcomingAssignments.SortedAssignments | frontend/src/components/dashboard/UpcomingAssignments.jsx:6-10 | exactly the published assignments, each as often as in the input, in non-decreasing due-date order |
| UpcomingAssignments.SubjectColor | frontend/src/components/dashboard/UpcomingAssignments.jsx:21-32 | a listed subject gets its badge colours, and the gray default is given exactly to unlisted subjects |
| WeakPoints.BandOf | frontend/src/components/feedback/WeakPointsAnalysis.jsx:132-144 | green from 85, blue from 70, amber from 50 and red below, each as an if-and-only-if |
| WeakPoints.MasteryColor | frontend/src/components/feedback/WeakPointsAnalysis.jsx:132-137 | the bar is green from 85, blue from 70, amber from 50 and red below, each as an if-and-only-if |
| WeakPoints.MasteryTextColor | frontend/src/components/feedback/WeakPointsAnalysis.jsx:139-144 | the text is green from 85, blue from 70, amber from 50 and red below, each as an if-and-only-if |
| WeakPoints.SameBand | frontend/src/components/feedback/WeakPointsAnalysis.jsx:132-144 | for every level the bar colour and the text colour come from the same band |
| WeakPoints.BandMonotone | frontend/src/components/feedback/WeakPointsAnalysis.jsx:132-144 | a higher mastery level never falls in a lower band |
| SimilarityReport.GetSeverity | frontend/src/components/plagiarism/SimilarityReport.jsx:4-8 | low below 20, moderate from 20 to below 50, high from 50, each as an if-and-only-if, coloured green, amber and red |
| SimilarityReport.SeverityMonotone | frontend/src/components/plagiarism/SimilarityReport.jsx:4-8 | a higher score never gets a lower severity |
| SimilarityReport.GetSimilarityColors | frontend/src/components/plagiarism/SimilarityReport.jsx:33-37 | a source's badge is green below 30, amber from 30 to below 70 and red from 70, each as an if-and-only-if |
| SimilarityReport.SimilarityColorsMonotone | frontend/src/components/plagiarism/SimilarityReport.jsx:33-37 | a higher similarity never gets a lower badge colour |
| SimilarityReport.Heading | frontend/src/components/plagiarism/SimilarityReport.jsx:51-55 | the warning heading is shown exactly at the high level |
| SimilarityReport.ReviewAdviceOnlyWhenHigh | frontend/src/components/plagiarism/SimilarityReport.jsx:51-59 | the review advice ends the summary, and the warning heading is shown, exactly for a score of 50 or more |
| Seqs.Filter | frontend/src/components/dashboard/UpcomingAssignments.jsx:7 | the kept elements are exactly the input's elements that pass the test, each at most as often as in the input |
| Seqs.FindFirst | frontend/src/components/questions/AssignmentCreator.jsx:138 | nothing is found exactly when no element passes; otherwise an element of the input that passes |
| Seqs.FindFirstAt | backend/controllers/studentController.js:27 | the element found is the one at the first position that passes |
| Seqs.SortBy | frontend/src/components/dashboard/UpcomingAssignments.jsx:8-10 | the result is in non-decreasing key order and is a permutation of the input |
| Seqs.TopK | backend/python/allStudentPerformanceReport.py:69-70 | the first k of a sorted copy are sorted, drawn from the input, no left-out element has a lower key than a kept one, and something is left out only when k elements are kept |
| Seqs.LastWinsValue | frontend/src/pages/student/Assignments.jsx:43-45 | when a key is written several times the map keeps the last write |
| Strings.Lower | backend/python/server.py:43 | same length, and each character is lower-cased in place |
| Strings.StripSpec | backend/python/evaluation.py:32-33 | the stripped text is a slice of the input with only whitespace before and after it |
| Strings.JsTrimSpec | backend/controllers/teacherController.js:35-37 | the trimmed text is a slice of the input with only JavaScript whitespace before and after it |
| Strings.Words | backend/python/server.py:47 | every word is non-empty and made of non-space characters of the text |
| Strings.WordsSplit | backend/python/server.py:47 | every whitespace character separates words: the words of a text, a whitespace character and another text are the words of the first text followed by those of the second |
| Strings.WordsSingle | backend/python/server.py:47 | a non-empty text without whitespace is exactly one word, itself |
| Strings.WordsSpaces | backend/python/server.py:47 | leading whitespace adds no word |
| Strings.WordsConcat | backend/python/server.py:47 | the words, put back together, are exactly the non-whitespace characters of the text, in order |
| Strings.TrimRemoveAll | backend/python/server.py:50 | trimming loses only characters that a later removal drops anyway |
| Strings.RemoveAllNested | backend/python/check_plagiarism.py:25-28 | removing some characters and then a wider class is removing the wider class |
| Strings.RunsSplit | backend/python/allStudentPerformanceReport.py:118-119 | a character outside the class separates runs: the runs of a text, such a character and another text are the runs of the first followed by those of the second |
| Strings.RunsSingle | backend/python/allStudentPerformanceReport.py:147 | a non-empty text made only of class characters is exactly one run, itself |
| Strings.RunsFirst | backend/python/allStudentPerformanceReport.py:28 | when some character is in the class, the first run found is the first maximal run of the text |
| Strings.IndexOf | backend/controllers/teacherController.js:29-31 | the index found is the first place the marker occurs, and none is found exactly when it occurs nowhere |
| Strings.SplitOn | backend/controllers/teacherController.js:26-27 | splitting on `---` gives at least one piece and no piece contains the separator |
| Strings.SplitOnJoin | backend/controllers/teacherController.js:26-27 | joining the pieces back with the separator gives the text |
| Strings.IntToString | frontend/src/components/questions/AssignmentCreator.jsx:124 | the decimal text of a number is non-empty and starts with a minus sign exactly for a negative number |
| StringOrder.SortedUnique | backend/python/evaluation.py:53 | the sorted keyword list is in strictly ascending order and holds exactly the keywords |
| StringOrder.AscendingUnique | backend/python/evaluation.py:53 | two strictly ascending lists with the same members are equal, so the sorted keyword list is determined by the keyword set |

## Left out

- Similarity computation: TF-IDF vectors and cosine similarity, sentence embeddings, NLTK tokenising, stop words and lemmatising are parameters of the model, not definitions.
- KMeans clustering, the standard deviation and `similarity_stats` of the class analyser, and the HTML of its report: only the error page is modelled.
- PlagiarismScript.Outcome: reading the input JSON (a missing `files` key, input that is not JSON) is I/O and not modelled; whether the vectorizer finds a term is a parameter, like the similarity.
- PDF text extraction, HTTP downloads, file reads, stdin/stdout JSON, Cloudinary upload streams, Mongoose queries and the database connection: I/O, replaced by their results or outcomes.
- Authentication (JWT signing and verification, the user lookup): a wrapper over a library and the database.
- React rendering, routing, `axios`, `localStorage`, `setTimeout` delays, upload progress events, the `isLoading` flags and the timed clearing of the success message: UI and timing, not logic.
- The canned demo components (feedback generator, handwriting recogniser, plagiarism check by file name): fixed templates.
- Floating-point numbers are modelled as exact reals: `round(..., 2)`, `round(..., 4)` and `toFixed` are not applied.
- Evaluation.GradeSpec: the score and the similarity are stated before `round(..., 2)`.
- PlagiarismServer.RespondFlags: the reported similarity is the unrounded value, and the flag is decided on the same unrounded value, as the service does.
- PlagiarismScript.RunSpec: the reported percentage is not rounded to two places.
- Character classes are ASCII-only for lower-casing, `\w`, `\d` and `[a-z]`. Python's Unicode `lower()` and `isalnum`, and JavaScript's `toLowerCase`, are not modelled beyond ASCII.
- Strings are sequences of characters: JavaScript's UTF-16 lengths are not modelled.
- The tie order of the sorts (`sorted`, `sort_values`, `Array.prototype.sort`) is not claimed: the model states sortedness and permutation only.
- Invalid dates, which give `NaN` comparisons in JavaScript, are not modelled: every date is a timestamp.
- The key order of `Object.entries` over a JavaScript object is not modelled: the per-subject figures are maps.
- The recent-feedback text and `formatDate` on the student dashboard are formatting only.
- The practice page's difficulty setter and the question generator's form inputs (`handleInputChange`) only copy a field.
- The question's `Date.now()` id on the practice page depends on the clock.
- UpcomingAssignments.SubjectColor: inherited keys of a JavaScript object (`constructor`, `toString`) would hit the prototype, which is not modelled.
- PerformanceTrends.SubjectColor: the same for its colour table.
- AssignmentCreator.QuestionTypeDisplay: a kind named like an inherited key of a JavaScript object (`constructor`, `toString`) would return the prototype's member instead of the kind; the model treats such a kind as unknown and shows it as it is.
- Practice.CurrentTopics: a subject named like an inherited object key would give the prototype's member rather than an empty list; the model gives the empty list.
- StudentDashboard.BuildSubjectStats: a subject named like an inherited object key (`constructor`) would find the prototype's member already present, so the source would add to it instead of starting a fresh total; the model starts every subject at zero.
- AnswerEvaluator.KeyPoints: the contract states only how many key points each rubric has. Each point's presence test is defined in the function, and `AnswerEvaluator.Evaluate` ties the result to it.
- PerformanceTrends.CalculateAverage: the average of no scores is `NaN` in the source and `None` here.
- QuestionParser.GenerateQuestions: the client connects to the generation service before the handler's `try` (backend/controllers/teacherController.js:5); a failed connection is an unhandled rejection that sends no reply, which the model does not represent: it starts once the client is connected.
- SubmissionModel.NewSubmission: only the 24-hexadecimal-digit form of an id string is taken as an `ObjectId`; the 12-character strings that some versions of the driver also accept are not modelled.
- The `submitAssignment` handler's outer error response on an unexpected failure is I/O.
- The handlers imported by the teacher routes but missing from `backend/controllers/teacherController.js` (plagiarism and evaluation aggregation, answer-key upload, submission listing) are not part of this model.
- The score wiring between the plagiarism check page and the similarity report (one stores `score`, the other reads `plagiarismScore`) is not modelled: the report takes the score as a number.
