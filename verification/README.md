# Exam bot engine, modelled in Dafny

This project models the exam engine of a Telegram quiz bot (`lib/logic.js`)
and proves properties of that model. Admins author exams as blocks of
question text. The bot stores exams, questions, categories and per-user
conversation state in a document database. Students take timed quizzes, and
a periodic sweep moves a student on when the time for a question has run
out.

The model covers six parts of the engine:

- **Question parser** (`question_parser.dfy`, on `text.dfy`). A block is
  trimmed, split on line feeds, and its blank lines are dropped. The first
  line is the question and the middle lines are the options, each trimmed.
  The last line is read with `parseInt`. A block is accepted only with 2 to
  10 options and a correct-option number between 1 and the number of
  options.
- **Score report** (`scores.dfy`, on `sorting.dfy`). A student's attempts
  are grouped by exam, each group is sorted newest first, and the result
  message is built.
- **Finishing an exam** (`exam_creation.dfy`). An exam document and one
  question document per question are written, numbered from 1. The admin's
  state is then cleared.
- **Adding a category** (`categories.dfy`). Duplicate names are refused. A
  new category's display order is one past the largest in use.
- **Starting a quiz** (`quiz.dfy`). The missing-exam, retake and
  no-questions guards are checked in the source's order.
- **Timeout sweep** (`timeout_sweep.dfy`). A session is due once its time
  per question plus two seconds has passed. Its index is advanced inside a
  guarded update that re-checks the state and the timestamp.

The database is a value, `Store.Db`, and each operation returns the new
value:

- collections addressed by a chosen document id are maps;
- the `questions` collection, which has generated ids, is a sequence in
  write order;
- the category listing is a sequence.

Pure parts are functions. The parts the source writes as loops are methods
with loops, proved equal to a specification function whose properties are
lemmas:

- the grouping and the text accumulation of the score report;
- the batch of question documents;
- the sweep over the scanned documents.

Timestamps are integers in milliseconds, and `0` stands for a missing
(falsy) timestamp.

## Model

| member | source | states |
|---|---|---|
| Text.Trim | lib/logic.js:250-254 | `trim` gives a result with no white space at either end. The result is empty exactly when the input is all white space. |
| Text.TrimCutsBlankEnds | lib/logic.js:250-254 | The input is white space, then the trimmed text, then white space. Together with `Trim`'s contract this fixes the result: exactly the white space at both ends is cut off. |
| Text.Split | lib/logic.js:250 | `split('\n')` gives at least one piece, and no piece contains the separator. |
| Text.JoinSplit | lib/logic.js:250 | Joining the pieces of a split with the separator gives back the original text. |
| Text.SplitJoin | lib/logic.js:250 | Splitting a join of separator-free pieces gives back the pieces. |
| Text.ParseInt | lib/logic.js:253 | `parseInt(s, 10)` skips leading white space, takes an optional sign and the longest run of digits, and ignores the rest. No digits gives `NaN`, here `None`. No contract of its own: its partner is `ParseIntOfDecimal`. |
| Text.ParseIntOfDecimal | lib/logic.js:253 | `parseInt(s, 10)` reads back the decimal rendering of any integer. Leading white space and trailing non-digit text do not change the result. |
| QuestionParser.NonBlankLines | lib/logic.js:250 | The filter keeps only non-blank lines, each taken from the input, and never more lines than it was given. That it keeps all of them, in order, is stated by the next two lemmas. |
| QuestionParser.NonBlankLinesOfOne | lib/logic.js:250 | A single line is kept iff it is not blank. |
| QuestionParser.NonBlankLinesAppend | lib/logic.js:250 | Filtering a concatenation gives the concatenation of the filtered parts. With the one-line case this means every non-blank line is kept, in order. |
| QuestionParser.NonBlankLinesKeepsAll | lib/logic.js:250 | Lines that are all non-blank pass the filter unchanged. |
| QuestionParser.TrimAll | lib/logic.js:254 | The options are the middle lines, each trimmed, in order, with the same count. |
| QuestionParser.ParseSingleQuestion | lib/logic.js:249-259 | The parse succeeds iff there are at least 3 non-blank lines, 2 to 10 options, and a last line whose leading number is between 1 and the option count. On success the fields are the trimmed first line, the trimmed middle lines, and the number minus one, and the question is well formed. |
| QuestionParser.ParseFormatRoundTrip | lib/logic.js:249-259 | Every well-formed question, written out in the block format, parses back to itself. |
| Sorting.SortBy | lib/logic.js:90 | The sort returns a permutation of its input, ordered by key. |
| Sorting.SortByIsStable | lib/logic.js:90 | Elements with equal keys keep their input order. |
| Sorting.SortBySorted | lib/logic.js:266 | An input already in key order is returned unchanged. |
| Scores.ExamIds | lib/logic.js:80-85 | The keys of the grouping object are distinct. An exam is a key iff some attempt belongs to it. |
| Scores.AttemptsOf | lib/logic.js:80-85 | An exam's list holds only that exam's attempts. |
| Scores.GroupByExam | lib/logic.js:80-85 | The grouping loop yields the exams in first-appearance order. Each exam's list holds its attempts in input order. |
| Scores.GroupsFor | lib/logic.js:87-95 | There is one group per exam id, in order. Each group holds the newest-first attempts of its exam. |
| Scores.ReportIsPermutation | lib/logic.js:80-95 | Every attempt appears in the report exactly once. |
| Scores.ReportExams | lib/logic.js:87-88 | There is one group per exam, no exam twice, and every attempt's exam has a group. |
| Scores.ReportGroupOfOneExam | lib/logic.js:87-90 | A group holds only attempts of its own exam. |
| Scores.NewestFirst | lib/logic.js:90 | A group is sorted with the comparator `b.timestamp - a.timestamp`, read as a stable sort by the key `-timestamp`. No contract of its own: its partners are `ReportGroupNewestFirst` and `NewestFirstIsStable`. |
| Scores.ReportGroupNewestFirst | lib/logic.js:90 | Within a group, timestamps never increase. |
| Scores.NewestFirstIsStable | lib/logic.js:90 | For every timestamp, the attempts carrying it come out of the sort in the order they went in. |
| Scores.AppendAttemptLines | lib/logic.js:90-93 | The inner loop appends one line per attempt, in order. |
| Scores.FormatUserScores | lib/logic.js:72-97 | A missing or empty list gives the fixed "no results" text. Otherwise the header is followed by each exam's heading and its attempt lines, newest first. |
| ExamCreation.PendingDraft | lib/logic.js:220-221 | The finish proceeds iff a state document exists in `awaiting_questions` with a non-empty questions list. |
| ExamCreation.NumberQuestions | lib/logic.js:237-241 | There is one document per question, in order, with the exam id, the question's fields and `order` = position + 1. |
| ExamCreation.Finish | lib/logic.js:219-247 | A refusal only clears the admin's state. Otherwise it writes the exam with `questionCount` = n, appends the numbered batch and clears the state. Nothing else changes. |
| ExamCreation.FinishAddingQuestions | lib/logic.js:219-247 | The method with the batch loop computes exactly `Finish`. |
| ExamCreation.CreatedExamIsNumbered | lib/logic.js:227-241 | A created exam records n > 0 questions. The n appended documents carry its id and orders 1..n, in order, and the earlier documents are kept. |
| Categories.MaxDisplayOrder | lib/logic.js:177 | `Math.max` of the display orders is at least every one of them and equal to one of them. |
| Categories.NewDisplayOrder | lib/logic.js:177 | The new order exceeds every existing one. It is 1 when there are no categories, otherwise one more than an existing order. |
| Categories.NameTaken | lib/logic.js:173 | A name is taken iff some category of the listing carries it. No contract of its own: `HandleNewCategoryName` states the duplicate rule in terms of it. |
| Categories.HandleNewCategoryName | lib/logic.js:170-184 | A taken trimmed name is refused and nothing is written. Otherwise the category is appended with the new order and the admin's state is cleared. |
| Categories.AddKeepsListingSound | lib/logic.js:173-179 | If names and orders were distinct before, they stay distinct, and an added category sorts after all earlier ones. |
| Quiz.QuestionsOf | lib/logic.js:266 | `where('examId', '==', examId)` over the questions collection, in write order. No contract of its own: its partners are `QuestionsOfMembers` and `QuestionsOfBatch`. |
| Quiz.QuestionsOfMembers | lib/logic.js:266 | The `where` filter keeps exactly the documents of the exam. |
| Quiz.ExamQuestions | lib/logic.js:265-268 | The exam's questions come back as a permutation of the filtered documents, in ascending `order`, all of that exam. |
| Quiz.NoQuestionsIff | lib/logic.js:285-286 | The question list is empty iff no document belongs to the exam. |
| Quiz.StartQuiz | lib/logic.js:276-289 | The outcomes are "not found" iff the exam is missing, "retake denied" iff taken and retakes are off, and "no questions" iff none exist. Otherwise the quiz starts with the sorted non-empty list. |
| Quiz.QuestionsOfBatch | lib/logic.js:237-241 | Appending a numbered batch appends it to that exam's filtered questions. |
| Quiz.CreatedExamStarts | lib/logic.js:276-289 | A just-created exam whose id no earlier question used starts for a new student. It starts with exactly the added questions, in the order added. |
| TimeoutSweep.Eligible | lib/logic.js:331-335 | A scanned session is due iff it is a quiz with a truthy timestamp, `timePerQuestion` > 0, and more than `timePerQuestion` + 2 seconds have passed. No contract of its own: `EligibleInSeconds` ties it to the source's formula. |
| TimeoutSweep.EligibleInSeconds | lib/logic.js:331-335 | The source's test `(now - last) / 1000 > t + 2`, computed over the reals, holds exactly when `Eligible` does. |
| TimeoutSweep.StillCurrent | lib/logic.js:346 | The re-read document passes iff its `state` is still `taking_exam` and its timestamp equals the scanned one. No contract of its own: `SweepOfScanned` and `StaleScanUntouched` use it. |
| TimeoutSweep.Advanced | lib/logic.js:349 | The advance raises `currentQuestionIndex` by one and leaves every other field as it was. |
| TimeoutSweep.Transaction | lib/logic.js:340-353 | The guarded update touches at most the one user's document and keeps the key set. |
| TimeoutSweep.Visit | lib/logic.js:331-353 | Visiting one scanned document changes at most that user's document. |
| TimeoutSweep.Sweep | lib/logic.js:325-359 | The sweep keeps the set of state documents. |
| TimeoutSweep.TimedOut | lib/logic.js:336 | A user is reported iff some scanned document of theirs was due. |
| TimeoutSweep.TimedOutAppend | lib/logic.js:325-336 | The report for a scan in two parts is the report of the first part followed by the report of the second, so users are reported in scan order. |
| TimeoutSweep.CheckTimedOutQuizzes | lib/logic.js:316-360 | The loop over the scanned documents computes exactly `Sweep` and the `TimedOut` list. |
| TimeoutSweep.SweepSkipsUnscanned | lib/logic.js:325-359 | A user the scan did not return keeps their document. |
| TimeoutSweep.SweepOfScanned | lib/logic.js:331-352 | With distinct ids, each scanned user's document is advanced iff the scan found it due and the re-check passes. Otherwise it is unchanged. |
| TimeoutSweep.UntimedNeverTouched | lib/logic.js:331 | A session with `timePerQuestion` of 0 or less, or with no timestamp, is never changed. |
| TimeoutSweep.NotDueUntouched | lib/logic.js:332-335 | A session whose time plus two seconds has not passed is not changed. |
| TimeoutSweep.StaleScanUntouched | lib/logic.js:346 | A session that is no longer `taking_exam`, is no longer a quiz, or whose timestamp changed since the scan is not changed. |
| TimeoutSweep.FreshScanAdvancesDue | lib/logic.js:318-352 | When the scan matches the store, every due session moves on by exactly one question and every other one stays. |

## Left out

**Database and messaging**

- The document database is a value. Batches commit atomically, and a transaction is one sequential guarded update. Aborts, retries, contention and the try/catch around the transaction are not modelled. The scanned snapshot is a parameter, so writes by other parties between the scan and the update show up only as a store that differs from the scan.
- Messages, keyboards and menus (`sendMessage`, `editMessageText`, `sendAdminMenu`, `answerCallbackQuery`) are not modelled. Neither are the console logs, apart from the list of timed-out users.
- `sendQuestion`, called after the advance, is not part of this model. It is neither defined nor imported in `lib/logic.js` (line 2 imports only `sendMessage`, `editMessageText` and `sendPoll`), so as the file stands the call would throw inside the transaction callback, the update would be rolled back, and the catch at line 354 would log it. The model takes `sendQuestion` to exist elsewhere and to return normally, so the increment commits. `SweepOfScanned`, `FreshScanAdvancesDue` and the other sweep lemmas rest on this. Nothing is claimed about what `sendQuestion` itself does: no question-count bound, no finalisation, no timestamp refresh. For the same reason, nothing is claimed about running the sweep twice.

**Not in `lib/logic.js`**

- `checkUserHistory` is neither defined nor imported in `lib/logic.js`. Read strictly, the call at line 279 would throw and no path past the missing-exam guard would be reached. The model takes it to exist elsewhere, to return normally and to return a boolean: whether the student already took the exam, the parameter `hasTakenExam`.
- `answerCallbackQuery` is called in `startQuiz` but is not imported in `lib/logic.js`. The refusal paths therefore end by throwing instead of answering. For the model the outcome is the same: the quiz does not start.
- `startQuiz` after the guards (the rest of its body is not in the source) is not modelled.
- Decoding the callback data into an exam id is not modelled.

**JavaScript and storage semantics**

- Scores.FormatUserScores: the groups are listed in first-appearance order of their exam ids. JavaScript's `for...in` lists integer-like keys (such as "12") first in numeric order. Special keys such as `__proto__` are not modelled either.
- Scores.DateText: the locale date rendering (`toLocaleString("ar-EG")`) is the parameter `dateText`.
- Scores.NewestFirst: a missing timestamp is read as 0. In the source it makes the comparator return `NaN`, and the resulting order depends on the engine.
- Quiz.ExamQuestions: questions with equal `order` are kept in write order. The database breaks such ties by document id, which this model does not have.
- Text.ParseInt: numbers are unbounded. JavaScript loses precision above 2^53.
- Strings are sequences of Unicode scalar values, not UTF-16 code units.
- The timeout test compares `now - last > (t + 2) * 1000`. Over the reals this is the source's `(now - last) / 1000 > t + 2`. The model takes times as whole numbers (milliseconds for timestamps, seconds for `timePerQuestion`), and floating-point rounding is not modelled.
- Categories.HandleNewCategoryName: the category document is written under its own name as id, and the model takes every category document's id to equal its `name` field. The documents this code writes satisfy this. The listing's `orderBy('displayOrder')` order is not modelled; the duplicate test and the maximum do not depend on it.
- Validity of document ids is not modelled. For example, an empty trimmed name or exam id, which the database would reject, is accepted by the model.
- Fields the engine reads are taken to be present and of the expected type: the draft's `examId`, `allowRetake`, `time` and `categoryName`, and `displayOrder` on every category.
