/**
 * The guards a student passes before a quiz starts: the exam must exist,
 * a student who already took an exam that forbids retakes is turned away,
 * and an exam without questions cannot start.
 */
module Quiz {
  import opened Sorting
  import opened Store
  import ExamCreation
  import QuestionParser
  import opened Seqs

  /** Why a quiz did not start, or the questions it starts with. */
  datatype StartOutcome =
    | ExamNotFound
    | RetakeDenied
    | NoQuestions
    | Started(exam: Exam, questions: seq<QuestionDoc>)

  /** The question documents of exam `examId`, in write order
      (`where('examId', '==', examId)`). */
  function QuestionsOf(docs: seq<QuestionDoc>, examId: string): seq<QuestionDoc> {
    if docs == [] then []
    else
      var last := docs[|docs| - 1];
      QuestionsOf(docs[..|docs| - 1], examId) + (if last.examId == examId then [last] else [])
  }

  /** The filter keeps exactly the documents of the exam. */
  lemma {:induction false} QuestionsOfMembers(docs: seq<QuestionDoc>, examId: string)
    ensures forall d :: d in QuestionsOf(docs, examId) <==> d in docs && d.examId == examId
  {
    if docs != [] {
      var front := docs[..|docs| - 1];
      QuestionsOfMembers(front, examId);
      assert docs == front + [docs[|docs| - 1]];
    }
  }

  function ByOrder(q: QuestionDoc): int {
    q.order
  }

  /** `getExamQuestions(examId)`: the exam's questions by ascending `order`. */
  function ExamQuestions(db: Db, examId: string): (r: seq<QuestionDoc>)
    ensures multiset(r) == multiset(QuestionsOf(db.questions, examId))
    ensures SortedBy(r, ByOrder)
    ensures forall i :: 0 <= i < |r| ==> r[i].examId == examId && r[i] in db.questions
  {
    var of := QuestionsOf(db.questions, examId);
    var r := SortBy(of, ByOrder);
    QuestionsOfMembers(db.questions, examId);
    forall i | 0 <= i < |r| ensures r[i] in of {
      assert r[i] in multiset(of);
    }
    r
  }

  /** `startQuiz` up to the point where the quiz begins; `hasTakenExam` is
      what the student's score history says. The guards are tried in the
      source's order. */
  function StartQuiz(db: Db, examId: string, hasTakenExam: bool): (r: StartOutcome)
    ensures r == ExamNotFound <==> examId !in db.exams
    ensures r == RetakeDenied <==> examId in db.exams && hasTakenExam && !db.exams[examId].allowRetake
    ensures r == NoQuestions <==>
      && examId in db.exams && !(hasTakenExam && !db.exams[examId].allowRetake)
      && (forall i :: 0 <= i < |db.questions| ==> db.questions[i].examId != examId)
    ensures r.Started? ==>
      && examId in db.exams && r.exam == db.exams[examId]
      && r.questions != []
      && r.questions == ExamQuestions(db, examId)
  {
    if examId !in db.exams then ExamNotFound
    else
      var exam := db.exams[examId];
      if hasTakenExam && !exam.allowRetake then RetakeDenied
      else
        var questions := ExamQuestions(db, examId);
        NoQuestionsIff(db, examId);
        if |questions| == 0 then NoQuestions else Started(exam, questions)
  }

  lemma NoQuestionsIff(db: Db, examId: string)
    ensures ExamQuestions(db, examId) == [] <==>
      forall i :: 0 <= i < |db.questions| ==> db.questions[i].examId != examId
  {
    var r := ExamQuestions(db, examId);
    var of := QuestionsOf(db.questions, examId);
    QuestionsOfMembers(db.questions, examId);
    if r == [] {
      assert |of| == 0;
      forall i | 0 <= i < |db.questions| ensures db.questions[i].examId != examId {
        assert db.questions[i] !in of;
      }
    } else {
      assert r[0] in multiset(of);
    }
  }

  /** Appending a numbered batch of exam `examId` appends it to that exam's
      questions. */
  lemma {:induction false} QuestionsOfBatch(docs: seq<QuestionDoc>, examId: string, qs: seq<QuestionParser.Question>)
    ensures QuestionsOf(docs + ExamCreation.NumberQuestions(examId, qs), examId)
         == QuestionsOf(docs, examId) + ExamCreation.NumberQuestions(examId, qs)
  {
    var batch := ExamCreation.NumberQuestions(examId, qs);
    if qs == [] {
      assert docs + batch == docs;
    } else {
      var front := ExamCreation.NumberQuestions(examId, qs[..|qs| - 1]);
      var last := ExamCreation.QuestionDocOf(examId, qs[|qs| - 1], |qs| - 1);
      assert batch == front + [last];
      QuestionsOfBatch(docs, examId, qs[..|qs| - 1]);
      var all := docs + front;
      assert docs + batch == all + [last];
      QuestionsOfSnoc(all, last, examId);
      ConcatAssoc(QuestionsOf(docs, examId), front, [last]);
    }
  }

  lemma QuestionsOfSnoc(docs: seq<QuestionDoc>, last: QuestionDoc, examId: string)
    ensures QuestionsOf(docs + [last], examId) == QuestionsOf(docs, examId) + (if last.examId == examId then [last] else [])
  {
    assert (docs + [last])[..|docs|] == docs;
  }

  lemma {:induction false} QuestionsOfNone(docs: seq<QuestionDoc>, examId: string)
    requires forall i :: 0 <= i < |docs| ==> docs[i].examId != examId
    ensures QuestionsOf(docs, examId) == []
  {
    if docs != [] {
      QuestionsOfNone(docs[..|docs| - 1], examId);
    }
  }

  /** An exam just created from a draft, under an id no earlier question
      used, starts for a student who has not taken it, with exactly the
      questions that were added, in the order they were added. */
  lemma CreatedExamStarts(db: Db, chatId: string)
    requires ExamCreation.Finish(db, chatId).1.Created?
    requires var examId := ExamCreation.Finish(db, chatId).1.examId;
      forall i :: 0 <= i < |db.questions| ==> db.questions[i].examId != examId
    ensures var r := ExamCreation.Finish(db, chatId);
      var draft := db.userStates[chatId].data.draft;
      StartQuiz(r.0, r.1.examId, false)
        == Started(ExamCreation.ExamOf(draft, |draft.questions.value|),
                   ExamCreation.NumberQuestions(draft.examId, draft.questions.value))
  {
    var r := ExamCreation.Finish(db, chatId);
    var draft := db.userStates[chatId].data.draft;
    var batch := ExamCreation.NumberQuestions(draft.examId, draft.questions.value);
    QuestionsOfBatch(db.questions, draft.examId, draft.questions.value);
    QuestionsOfNone(db.questions, draft.examId);
    assert QuestionsOf(r.0.questions, draft.examId) == batch;
    SortBySorted(batch, ByOrder);
    assert ExamQuestions(r.0, draft.examId) == batch;
  }
}
