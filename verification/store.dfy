/**
 * The documents of the bot's Firestore database that the exam engine reads
 * and writes, as plain values. Collections keyed by a chosen document id
 * are maps; the `questions` collection, whose ids are generated, is a
 * sequence in write order; `categories` is the listing of its documents.
 */
module Store {
  import opened Wrappers
  import QuestionParser

  /** The `state` strings the engine tests for. */
  const AwaitingQuestions: string := "awaiting_questions"
  const TakingExam: string := "taking_exam"

  /** The fields of a timed quiz in progress. `lastQuestionTimestamp` is in
      milliseconds; `0` stands for a missing (falsy) timestamp. */
  datatype Session = Session(
    examId: string,
    currentQuestionIndex: int,
    score: int,
    lastQuestionTimestamp: int,
    lastPollId: string,
    timePerQuestion: int)

  /** An exam being authored: what the admin chose so far and the questions
      collected; `questions` is `None` when the field is missing. */
  datatype ExamDraft = ExamDraft(
    examId: string,
    allowRetake: bool,
    time: int,
    categoryName: string,
    questions: Option<seq<QuestionParser.Question>>)

  /** The `data` payload of a user-state document, tagged by its shape:
      an exam draft, a quiz session, or any other payload (such as `{}`),
      which has none of the fields the engine reads. */
  datatype StateData = Draft(draft: ExamDraft) | Quiz(session: Session) | Other

  /** A document of the `userStates` collection. */
  datatype UserState = UserState(state: string, data: StateData)

  /** A document of the `exams` collection. */
  datatype Exam = Exam(
    examId: string,
    allowRetake: bool,
    timePerQuestion: int,
    categoryName: string,
    questionCount: int)

  /** A document of the `questions` collection. */
  datatype QuestionDoc = QuestionDoc(
    examId: string,
    questionText: string,
    options: seq<string>,
    correctOptionIndex: nat,
    order: int)

  /** A document of the `categories` collection. */
  datatype Category = Category(name: string, displayOrder: int)

  datatype Db = Db(
    userStates: map<string, UserState>,
    exams: map<string, Exam>,
    questions: seq<QuestionDoc>,
    categories: seq<Category>)
}
