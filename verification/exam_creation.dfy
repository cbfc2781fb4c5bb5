/**
 * Finishing the authoring of an exam: the questions collected in the
 * admin's `awaiting_questions` state become one exam document and one
 * question document per question, numbered from 1 in the order they were
 * added, all written in one batch; the admin's state is then cleared.
 */
module ExamCreation {
  import opened Wrappers
  import opened Store
  import QuestionParser

  /** What the admin is told: the exam was cancelled, or created with this
      many questions. */
  datatype FinishOutcome = Cancelled | Created(examId: string, questionCount: nat)

  /** The draft the admin's state holds when there is something to create:
      a state document in `awaiting_questions` whose payload has a
      non-empty `questions` list. `None` covers every refusal: no state
      document, another state, or a missing or empty list. */
  function PendingDraft(db: Db, chatId: string): (r: Option<ExamDraft>)
    ensures r.Some? <==>
      && chatId in db.userStates
      && db.userStates[chatId].state == AwaitingQuestions
      && db.userStates[chatId].data.Draft?
      && db.userStates[chatId].data.draft.questions.Some?
      && |db.userStates[chatId].data.draft.questions.value| > 0
    ensures r.Some? ==> r.value == db.userStates[chatId].data.draft
  {
    if chatId !in db.userStates then None
    else
      var userState := db.userStates[chatId];
      if userState.state != AwaitingQuestions || !userState.data.Draft? then None
      else
        var draft := userState.data.draft;
        if draft.questions.None? || |draft.questions.value| == 0 then None
        else Some(draft)
  }

  /** The exam document written for a draft with `n` questions. */
  function ExamOf(draft: ExamDraft, n: nat): Exam {
    Exam(draft.examId, draft.allowRetake, draft.time, draft.categoryName, n)
  }

  /** The question document for the question at 0-based position `index`. */
  function QuestionDocOf(examId: string, q: QuestionParser.Question, index: nat): QuestionDoc {
    QuestionDoc(examId, q.questionText, q.options, q.correctOptionIndex, index + 1)
  }

  /** The question documents of the batch: every question, in the order it
      was added, carrying the exam id and its 1-based position as `order`. */
  function NumberQuestions(examId: string, qs: seq<QuestionParser.Question>): (docs: seq<QuestionDoc>)
    ensures |docs| == |qs|
    ensures forall i :: 0 <= i < |qs| ==> docs[i] == QuestionDocOf(examId, qs[i], i)
  {
    if qs == [] then []
    else NumberQuestions(examId, qs[..|qs| - 1]) + [QuestionDocOf(examId, qs[|qs| - 1], |qs| - 1)]
  }

  /** The database after `finishAddingQuestions(chatId)`, and what the
      admin is told. */
  function Finish(db: Db, chatId: string): (r: (Db, FinishOutcome))
    ensures r.0.userStates == db.userStates - {chatId}
    ensures r.0.categories == db.categories
    ensures PendingDraft(db, chatId).None? ==> r.1 == Cancelled && r.0.exams == db.exams && r.0.questions == db.questions
    ensures PendingDraft(db, chatId).Some? ==>
      var draft := PendingDraft(db, chatId).value;
      var qs := draft.questions.value;
      && r.1 == Created(draft.examId, |qs|)
      && r.0.exams == db.exams[draft.examId := ExamOf(draft, |qs|)]
      && r.0.questions == db.questions + NumberQuestions(draft.examId, qs)
  {
    match PendingDraft(db, chatId)
    case None => (db.(userStates := db.userStates - {chatId}), Cancelled)
    case Some(draft) =>
      var qs := draft.questions.value;
      var written := db.(exams := db.exams[draft.examId := ExamOf(draft, |qs|)],
                         questions := db.questions + NumberQuestions(draft.examId, qs));
      (written.(userStates := db.userStates - {chatId}), Created(draft.examId, |qs|))
  }

  /** `finishAddingQuestions(chatId)`: the guard, then the batch built one
      question at a time, committed, and the state cleared. */
  method FinishAddingQuestions(db: Db, chatId: string) returns (result: Db, outcome: FinishOutcome)
    ensures (result, outcome) == Finish(db, chatId)
  {
    var pending := PendingDraft(db, chatId);
    if pending.None? {
      result := db.(userStates := db.userStates - {chatId});
      outcome := Cancelled;
      return;
    }
    var draft := pending.value;
    var questions := draft.questions.value;
    var exam := ExamOf(draft, |questions|);
    var batch: seq<QuestionDoc> := [];
    for index := 0 to |questions|
      invariant batch == NumberQuestions(draft.examId, questions[..index])
    {
      assert questions[..index + 1][..index] == questions[..index];
      batch := batch + [QuestionDocOf(draft.examId, questions[index], index)];
    }
    assert questions[..|questions|] == questions;
    result := db.(exams := db.exams[draft.examId := exam], questions := db.questions + batch);
    result := result.(userStates := db.userStates - {chatId});
    outcome := Created(draft.examId, |questions|);
  }

  /** A created exam records as many questions as were written for it, and
      the written questions are numbered 1 to n in the order they were
      added, each carrying the exam id and the question's own fields. */
  lemma CreatedExamIsNumbered(db: Db, chatId: string)
    requires Finish(db, chatId).1.Created?
    ensures var r := Finish(db, chatId);
      var examId := r.1.examId;
      var n := r.1.questionCount;
      var qs := db.userStates[chatId].data.draft.questions.value;
      && n == |qs| && n > 0
      && examId in r.0.exams
      && r.0.exams[examId].questionCount == n
      && |r.0.questions| == |db.questions| + n
      && r.0.questions[..|db.questions|] == db.questions
      && (forall i :: 0 <= i < n ==>
            var doc := r.0.questions[|db.questions| + i];
            && doc.examId == examId
            && doc.order == i + 1
            && doc.questionText == qs[i].questionText
            && doc.options == qs[i].options
            && doc.correctOptionIndex == qs[i].correctOptionIndex)
  {
    var r := Finish(db, chatId);
    var draft := PendingDraft(db, chatId).value;
    var batch := NumberQuestions(draft.examId, draft.questions.value);
    assert r.0.questions == db.questions + batch;
    forall i | 0 <= i < r.1.questionCount
      ensures r.0.questions[|db.questions| + i] == batch[i]
    {
    }
  }
}
