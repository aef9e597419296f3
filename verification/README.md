# Mock-interview chatbot: a verified model of its server logic

The application runs mock interviews and scores résumés. This project models its
server-side core in Dafny and proves properties of that model:

- **Answering a question** (`POST /api/interview/answer`). `evaluateAnswer` scores an
  answer with a fixed heuristic:
  - the base score comes from the trimmed length;
  - keyword and number bonuses are added, capped at 10;
  - the feedback is built from fixed sentences.

  The handler checks the token, the body fields, ownership of the interview and the
  question, then stores one answer. It then either moves the interview to its next
  question or completes it with the mean of its answer scores.
- **Starting an interview** (`POST /api/interview/start`). The handler:
  - normalises the category and clamps the question count;
  - creates an interview shell;
  - takes questions from the language model's reply, or from the question bank when
    the reply yields none;
  - stores the questions and records how many there are.

  Inside the reply, the first-`[`-to-last-`]` text is extracted, parsed, filtered,
  truncated, trimmed and numbered from 0.
- **Analysing a résumé** (`POST /api/resume/analyze`). An ordered validation chain
  checks the token, file presence, MIME type, size, parse success and non-blank text.
  Then `calculateATSScore` scores keyword coverage over the whitespace-split,
  lower-cased text, and one résumé row is stored.
- **The history page**. It computes the average over completed, scored interviews,
  shows "N/A", counts completed interviews, and colours interview and ATS scores by
  tier.

Modules:

- `Wrappers`: `Option` and `Min`/`Max`.
- `Text`: JavaScript `trim`, `\s`, ASCII `toLowerCase`, `includes`, and `split(/\s+/)`.
- `Store`: the database tables.
  - `Tables` is an immutable snapshot.
  - `Database` is a class whose methods update the tables in place. They keep the
    invariant `TablesValid`: every question and answer row belongs to a stored
    interview, every stored answer score is within 0..10, and every row id of every
    table is below the id counter, so an id taken from the counter is one no row has.
- `AnswerRoute`, `StartRoute` and `ResumeRoute`: the three handlers.
  - Each handler is a pure function of the tables it finds (`Submit`, `Start`,
    `Analyze`).
  - Each also has a method on a `Database`, proved to leave exactly the tables and
    the reply that the function gives.
- `History`: the page's derived figures.

Where the code and the intended behaviour disagree, the model follows the code:

- An answer to an already completed interview is accepted, and advances
  `currentQuestion` again.
- A question id belonging to another interview is accepted, because the lookup is by
  id only.
- A short answer gets the score 3 outright, rather than "5 minus 2" (the value is the
  same).

## Model

| member | source | states |
|---|---|---|
| Text.Trim | src/app/api/interview/answer/route.ts:10 | The trim is no longer than its input and, when non-empty, neither starts nor ends with whitespace (ECMAScript WhiteSpace and LineTerminator ranges) |
| Text.TrimIsSlice | src/app/api/interview/answer/route.ts:10 | The trim is the contiguous part of the input left between a whitespace-only prefix and a whitespace-only suffix |
| Text.TrimEmptyIff | src/app/api/resume/analyze/route.ts:102-106 | `!s.trim()` holds exactly when every character of `s` is whitespace |
| Text.TrimIdempotent | src/app/api/interview/start/route.ts:78-81 | Trimming an already trimmed text changes nothing |
| Text.Lower | src/app/api/resume/analyze/route.ts:15 | Lower-casing keeps the length and maps each character on its own |
| Text.LowerIdempotent | src/app/api/interview/start/route.ts:123 | Lower-casing twice is the same as lower-casing once |
| Text.LowerAppend | src/app/api/resume/analyze/route.ts:15 | Lower-casing a concatenation lower-cases each part |
| Text.ContainsLower | src/app/api/interview/answer/route.ts:11-12 | A lower-case pattern found in a text is found in the text's lower-cased form (the `i` flag) |
| Text.ContainsAppend | src/app/api/resume/analyze/route.ts:16-18 | An occurrence is kept when text is appended |
| Text.Split | src/app/api/resume/analyze/route.ts:15 | `split(/\s+/)` yields at least one piece, and no piece holds whitespace |
| Text.ContainsAroundSpace | src/app/api/resume/analyze/route.ts:15-18 | A whitespace-free pattern occurs in head+gap+tail exactly when it occurs in the head or in the tail |
| Text.SplitContains | src/app/api/resume/analyze/route.ts:15-18 | A non-empty whitespace-free keyword is in some split word exactly when it occurs in the whole text |
| Store.FindQuestion | src/app/api/interview/answer/route.ts:85-91 | A question is found exactly when a row has that id, and the row found has that id |
| Store.QuestionAt | src/app/api/interview/answer/route.ts:135-140 | A question is found exactly when a row of that interview has that order, and the row found matches both |
| Store.QuestionAtSkips | src/app/api/interview/start/route.ts:160-168 | Rows of other interviews before the searched rows do not change which question is found |
| Store.AnswersOf | src/app/api/interview/answer/route.ts:113-115 | The interview's answers are exactly the stored answers carrying its id |
| Store.AnswersOfAppend | src/app/api/interview/answer/route.ts:97-115 | Storing an answer of the interview appends it to the interview's answers and leaves other interviews' answers alone |
| Store.ScoreSumBounds | src/app/api/interview/answer/route.ts:117 | A sum of in-range answer scores (null counted as 0) lies between 0 and 10 per answer |
| Store.ScoreSumAppend | src/app/api/interview/answer/route.ts:117 | The reduction over a concatenation is the sum of the reductions over the parts |
| Store.MeanScore | src/app/api/interview/answer/route.ts:117 | The mean of in-range answer scores lies within 0..10 |
| Store.QuestionRows | src/app/api/interview/start/route.ts:147-154 | One row per question, in order, under the interview, carrying the question's text, category and order; the i-th row gets the id `firstId + i` |
| Store.QuestionsBelongAppend | src/app/api/interview/start/route.ts:147-154 | Appended question rows keep the store's invariant exactly when they themselves belong to stored interviews |
| Store.AnswersBelongAppend | src/app/api/interview/answer/route.ts:97-105 | An appended answer keeps the invariant exactly when it belongs to a stored interview and its score is in range |
| Store.StoreInterviewKeepsValid | src/app/api/interview/answer/route.ts:119-126 | Writing an interview row under a used or fresh id keeps the store's invariant |
| Store.Database.CreateInterview | src/app/api/interview/start/route.ts:127-135 | The row is stored under the counter's id, which no stored interview has, the counter moves on by one, and no other table changes |
| Store.Database.UpdateInterview | src/app/api/interview/answer/route.ts:119-126 | Only the named interview row is replaced |
| Store.Database.CreateQuestions | src/app/api/interview/start/route.ts:147-154 | The question rows are appended after the existing ones with ids from the counter on, all above every existing question id; the counter moves past them and nothing else changes |
| Store.Database.CreateAnswer | src/app/api/interview/answer/route.ts:97-105 | Exactly one answer row is appended, under the counter's id, which is above every existing answer id; the counter moves on by one and nothing else changes |
| Store.Database.CreateResume | src/app/api/resume/analyze/route.ts:115-124 | Exactly one résumé row is appended, under the counter's id, which is above every existing résumé id; the counter moves on by one and nothing else changes |
| Store.CounterIsFresh | src/app/api/interview/answer/route.ts:97-105 | In a valid store no interview is stored under the counter and every question, answer and résumé id is below it |
| Store.AnswerThenStoreKeepsValid | src/app/api/interview/answer/route.ts:97-126 | Appending an in-range answer of a stored interview under the counter, then rewriting a stored interview row, keeps the invariant |
| Store.CreateWithQuestionRowsKeepsValid | src/app/api/interview/start/route.ts:127-166 | Storing an interview under the counter, rewriting it, and appending its question rows with the ids after it keeps the invariant |
| AnswerRoute.EvaluateAnswer | src/app/api/interview/answer/route.ts:6-50 | Every answer scores between 3 and 10 |
| AnswerRoute.LengthScore | src/app/api/interview/answer/route.ts:14-23 | The length part is 3 exactly below 50 trimmed characters, 7 exactly above 200, and 5 in between |
| AnswerRoute.LengthRemark | src/app/api/interview/answer/route.ts:17-23 | At most one length sentence: the call for detail exactly below 50, the praise for detail exactly above 200 |
| AnswerRoute.Closing | src/app/api/interview/answer/route.ts:41-47 | The closing is strong exactly from 8, solid exactly in 6..8, weak exactly below 6 |
| AnswerRoute.BonusesKeptByAppending | src/app/api/interview/answer/route.ts:11-12 | Text added after an answer never takes away the examples bonus (`hasSpecificExamples`) or the results bonus (`hasQuantifiableResults`) |
| AnswerRoute.ScoreIsSumOfParts | src/app/api/interview/answer/route.ts:14-38 | The cap at 10 never binds: the score is the length band (3, 5 or 7) plus exactly 2 for examples and exactly 1 for quantified results |
| AnswerRoute.QuestionIsIgnored | src/app/api/interview/answer/route.ts:6-50 | The question text has no influence on score or feedback |
| AnswerRoute.LengthPartUsesTrim | src/app/api/interview/answer/route.ts:10-23 | Answers whose trims are equally long and that earn equal bonuses are evaluated alike |
| AnswerRoute.TopScoreIff | src/app/api/interview/answer/route.ts:14-38 | The score is 10 exactly for a trimmed length above 200 with both bonuses |
| AnswerRoute.BottomScoreIff | src/app/api/interview/answer/route.ts:14-38 | The score is 3 exactly for a trimmed length below 50 with no bonus |
| AnswerRoute.RemarksSelect | src/app/api/interview/answer/route.ts:17-35 | Each middle sentence appears exactly when its condition holds: detail wanted below 50, detail praised above 200, examples praised when given and asked for when not, results praised when quantified |
| AnswerRoute.RemarksFrame | src/app/api/interview/answer/route.ts:15-47 | Three to five sentences; the thanks comes first and nowhere else, and the closing of the score's tier comes last and is the only closing |
| AnswerRoute.RemarksShape | src/app/api/interview/answer/route.ts:10-47 | For the evaluated answer: the call for detail appears exactly below 50 trimmed characters, the praise for detail exactly above 200, the praise for examples exactly when `hasSpecificExamples`, the call for them exactly when not, the praise for results exactly when `hasQuantifiableResults`; the thanks opens, and the score tier's closing ends, as the only closing |
| AnswerRoute.FeedbackShape | src/app/api/interview/answer/route.ts:15-47 | The feedback opens with the thanks and closes with the closing of the score's tier (from 8, from 6, below) |
| AnswerRoute.FeedbackEnds | src/app/api/interview/answer/route.ts:41-47 | The feedback string starts with its first sentence's text and ends with its last sentence's text |
| AnswerRoute.ConcatEnds | src/app/api/interview/answer/route.ts:15-47 | A string assembled by `+=` starts with its first part and ends with its last part |
| AnswerRoute.MentionedWordIsFound | src/app/api/interview/answer/route.ts:11 | Any listed example word in the answer earns the examples bonus |
| AnswerRoute.KeywordsIgnoreCase | src/app/api/interview/answer/route.ts:11-12 | The word tests give the same result on an answer and on its lower-cased form |
| AnswerRoute.SubmitAnswer | src/app/api/interview/answer/route.ts:52-163 | The handler leaves exactly the tables and reply of `Submit` on the tables it found, and keeps the store's invariant |
| AnswerRoute.RecordAnswer | src/app/api/interview/answer/route.ts:96-154 | Insert, then complete or advance, leaves exactly the tables and reply of `Record`, and keeps the invariant |
| AnswerRoute.SubmitChecksInOrder | src/app/api/interview/answer/route.ts:54-91 | The reply is 401 exactly without a user, 400 exactly when a field is missing or empty, and 404 exactly when the interview is not the user's or the question id is unknown, in that order; each rejection leaves the tables unchanged |
| AnswerRoute.Submit | src/app/api/interview/answer/route.ts:52-163 | A request is accepted exactly when it has a user, all fields, an owned interview and a known question; a rejection leaves the tables as they were, an acceptance adds exactly one answer |
| AnswerRoute.Record | src/app/api/interview/answer/route.ts:96-154 | The reply carries the evaluation; one answer is added with its score; `currentQuestion` becomes old+1; the interview completes exactly when old+1 reaches `totalQuestions` |
| AnswerRoute.SubmitIsRecord | src/app/api/interview/answer/route.ts:85-154 | A request passing every check is answered with the evaluator's verdict on the found question's text; the one new answer row carries that score and feedback, `currentQuestion` becomes old+1, the interview completes exactly when that was its last question, and questions and résumés stay as they were |
| AnswerRoute.RecordAppendsOneAnswer | src/app/api/interview/answer/route.ts:97-108 | One answer row with the evaluation's score and feedback is appended under the counter's id, which in a valid store no stored answer has; questions, résumés and every other interview stay as they were |
| AnswerRoute.RecordAdvances | src/app/api/interview/answer/route.ts:107-153 | `currentQuestion` becomes old+1. The interview completes exactly when old+1 reaches `totalQuestions`. Otherwise only `currentQuestion` changes, and the reply carries the question at order old+1 and the unchanged total |
| AnswerRoute.RecordFinalScore | src/app/api/interview/answer/route.ts:111-132 | On completion, the stored and the returned final score are the same value: the mean of all the interview's answers including the new one, within 0..10 |
| AnswerRoute.RecordProgresses | src/app/api/interview/answer/route.ts:107-153 | No interview disappears, none leaves `completed`, and no current question moves back |
| AnswerRoute.RecordKeepsValid | src/app/api/interview/answer/route.ts:97-145 | Recording an in-range answer keeps the store's invariant |
| AnswerRoute.SubmitProgresses | src/app/api/interview/answer/route.ts:52-163 | For every request, the invariant is kept, completion is one-way, and current questions only advance |
| StartRoute.ThemeFor | src/app/api/interview/start/route.ts:9-40 | A category selects a specific hint only under that hint's own key; any other string gets the general hint |
| StartRoute.ThemeKeyRoundTrip | src/app/api/interview/start/route.ts:9-35 | Looking up a hint's key finds that hint |
| StartRoute.NormalizeCategory | src/app/api/interview/start/route.ts:123 | A missing or empty category becomes "general"; any other category is lower-cased |
| StartRoute.CategoryIgnoresCase | src/app/api/interview/start/route.ts:123 | The normalised category is lower case and does not depend on the request's letter case |
| StartRoute.QuestionCount | src/app/api/interview/start/route.ts:124 | The count is always within 3..12. It is the request's value when that lies in 3..12, 6 for NaN or 0, 3 below the range and 12 above it |
| StartRoute.ReplyText | src/app/api/interview/start/route.ts:70 | The trimmed reply, or "[]" when the reply is missing or blank; never empty |
| StartRoute.FirstIndex | src/app/api/interview/start/route.ts:72 | The position of the first occurrence of the character, or none exactly when it is absent |
| StartRoute.LastIndex | src/app/api/interview/start/route.ts:72 | The position of the last occurrence of the character, or none exactly when it is absent |
| StartRoute.ArraySpan | src/app/api/interview/start/route.ts:72 | `/\[[\s\S]*\]/` matches exactly when some `[` precedes some `]`, and the match runs from the first `[` to the last `]` |
| StartRoute.ExtractArray | src/app/api/interview/start/route.ts:72-73 | The text handed to `JSON.parse` is the matched span, or "[]" without a match; it is always bracketed |
| StartRoute.ValidTexts | src/app/api/interview/start/route.ts:78 | An entry is kept exactly when its `questionText` is a string with a non-empty trim |
| StartRoute.ValidTextsAppend | src/app/api/interview/start/route.ts:78 | The filter preserves the entries' order |
| StartRoute.Numbered | src/app/api/interview/start/route.ts:80-84 | Each question is the trimmed text, with order `first + index` and the given category |
| StartRoute.Normalize | src/app/api/interview/start/route.ts:76-84 | At most `count` questions: the first valid entries in order, each trimmed and non-empty, numbered 0..n-1, under the requested category |
| StartRoute.Generate | src/app/api/interview/start/route.ts:39-91 | Generation succeeds exactly when the call replied, the extracted text parsed, and normalisation kept some question; it then yields the normalised questions |
| StartRoute.MatchingRows | src/app/api/interview/start/route.ts:95-99 | The rows kept are exactly the bank rows tagged with the category |
| StartRoute.MatchingRowsAppend | src/app/api/interview/start/route.ts:95-99 | The filter keeps the bank's order: filtering a concatenation filters each part in turn |
| StartRoute.BankQuestions | src/app/api/interview/start/route.ts:106-110 | Each row becomes a question with its text, the order of its position, and its own category or else the requested one |
| StartRoute.Fallback | src/app/api/interview/start/route.ts:93-111 | At most `count` questions, ordered 0..n-1. With matching rows, question i is the i-th matching row's text under the category, for the first `count` of them; without any, question i is the i-th bank row's text under its own category or else the requested one, for the first `count` rows |
| StartRoute.FallbackNonEmpty | src/app/api/interview/start/route.ts:101-110 | A non-empty bank always yields some question |
| StartRoute.NoArrayFallsBack | src/app/api/interview/start/route.ts:70-111 | When `JSON.parse("[]")` is the empty array, a failed call, a missing or blank reply, or a reply with no `[` before a `]` makes the route use the question bank |
| StartRoute.ChooseQuestions | src/app/api/interview/start/route.ts:138-144 | The generated questions when generation succeeds; on any generation error (failed call, parse failure, no question kept) the question bank's fallback. Either way at most `count` questions, ordered 0..n-1 |
| StartRoute.StartInterview | src/app/api/interview/start/route.ts:113-181 | The handler leaves exactly the tables and reply of `Start` on the tables it found, and keeps the store's invariant |
| StartRoute.Start | src/app/api/interview/start/route.ts:113-181 | No user gives 401 and the tables as they were; otherwise the interview is started under the normalised category with at most the clamped count of questions, and that many question rows are added |
| StartRoute.Open | src/app/api/interview/start/route.ts:126-176 | The reply names the new interview under the counter's id, now stored, at question 0, with the category and `totalQuestions` equal to the number of questions added |
| StartRoute.OpenInterview | src/app/api/interview/start/route.ts:126-176 | Create, insert, update and first-question lookup leave exactly the tables and reply of `Open` |
| StartRoute.StartIsOpen | src/app/api/interview/start/route.ts:116-144 | No user gives 401 and changes nothing. Otherwise the interview is opened with the normalised category and at most the clamped count of questions, ordered 0..n-1 |
| StartRoute.OpenCreatesInterview | src/app/api/interview/start/route.ts:127-176 | Exactly one interview is added under a fresh id: the user's, text, active, at question 0, with `totalQuestions` equal to the number of questions. The reply echoes the id, 0, the count and the category |
| StartRoute.OpenAppendsQuestions | src/app/api/interview/start/route.ts:147-154 | One row per question is appended after the existing rows, under the new interview, with orders 0..n-1, the questions' texts and categories, and consecutive ids after the interview's; in a valid store every new id is above every existing question id |
| StartRoute.OpenFirstQuestion | src/app/api/interview/start/route.ts:157-168 | The first question is the new interview's row of order 0, or null when there are no questions |
| StartRoute.OpenKeepsValid | src/app/api/interview/start/route.ts:127-166 | Creating the interview and its questions keeps the store's invariant |
| StartRoute.StartKeepsValid | src/app/api/interview/start/route.ts:113-181 | The whole handler keeps the store's invariant |
| ResumeRoute.KeywordsAreWords | src/app/api/resume/analyze/route.ts:10-13 | Every listed keyword is non-empty and holds no whitespace |
| ResumeRoute.MatchedKeywords | src/app/api/resume/analyze/route.ts:16-18 | A keyword is matched exactly when some word contains it |
| ResumeRoute.ATSScore | src/app/api/resume/analyze/route.ts:8-21 | The score always lies within 0..100 |
| ResumeRoute.Percentage | src/app/api/resume/analyze/route.ts:20 | `min(100, m/n*100)` equals `100·m/n` for m ≤ n, so the cap never binds |
| ResumeRoute.CountContained | src/app/api/resume/analyze/route.ts:9-20 | Reference coverage: the number of keywords occurring in the text, at most the number of keywords |
| ResumeRoute.MatchedIsContained | src/app/api/resume/analyze/route.ts:15-18 | Matching whitespace-free keywords against the split words counts the keywords occurring in the whole text |
| ResumeRoute.ATSScoreIsCoverage | src/app/api/resume/analyze/route.ts:8-20 | The score is 100·k/12, where k counts the keywords occurring in the lower-cased text |
| ResumeRoute.KeywordsMatchedInText | src/app/api/resume/analyze/route.ts:15-18 | The keywords matched against the split words are as many as the keywords occurring in the text |
| ResumeRoute.CountContainedExtremes | src/app/api/resume/analyze/route.ts:16-20 | Full coverage means every keyword occurs; zero coverage means none does |
| ResumeRoute.ATSScoreExtremes | src/app/api/resume/analyze/route.ts:8-21 | The score is 100 exactly when all 12 keywords occur, and 0 exactly when none does |
| ResumeRoute.ATSScoreIgnoresCase | src/app/api/resume/analyze/route.ts:15 | A text and its lower-cased form score the same |
| ResumeRoute.ATSScoreIgnoresJobDescription | src/app/api/resume/analyze/route.ts:8-21 | The job description has no effect on the score |
| ResumeRoute.CountContainedMonotone | src/app/api/resume/analyze/route.ts:16-18 | Coverage cannot drop when every keyword found before is still found |
| ResumeRoute.ATSScoreAppendMonotone | src/app/api/resume/analyze/route.ts:15-20 | Appending text to a résumé never lowers its score |
| ResumeRoute.Analyze | src/app/api/resume/analyze/route.ts:47-140 | An upload is accepted exactly when every check passes; a rejection leaves the tables as they were; an acceptance reports the text's ATS score, within 0..100, and adds one résumé |
| ResumeRoute.Save | src/app/api/resume/analyze/route.ts:115-131 | The reply reports the counter's id and the given score, and the one résumé added carries that score |
| ResumeRoute.SaveResume | src/app/api/resume/analyze/route.ts:115-131 | Creating the row and replying leaves exactly the tables and reply of `Save`, and keeps the invariant |
| ResumeRoute.AnalyzeResume | src/app/api/resume/analyze/route.ts:47-140 | The handler leaves exactly the tables and reply of `Analyze` on the tables it found, and keeps the store's invariant |
| ResumeRoute.AnalyzeChecksInOrder | src/app/api/resume/analyze/route.ts:49-106 | Each rejection applies exactly when the earlier checks passed and its own check failed: token, file, type, size (exactly 10 MiB passes), parse, blank text. Rejections are 401 or 400 and change nothing; only success is 200 |
| ResumeRoute.AnalyzeIsSave | src/app/api/resume/analyze/route.ts:102-124 | An accepted upload had a user, a file and non-blank extracted text, and is saved with that text's score |
| ResumeRoute.SaveStoresReportedScore | src/app/api/resume/analyze/route.ts:115-131 | Exactly one résumé row is appended under the counter's id, which in a valid store no stored résumé has. Its score, name and feedback are the ones the reply reports, and no other table changes |
| ResumeRoute.SaveKeepsValid | src/app/api/resume/analyze/route.ts:115-124 | Saving a résumé keeps the store's invariant |
| ResumeRoute.AnalyzeKeepsValid | src/app/api/resume/analyze/route.ts:115-124 | The handler keeps the store's invariant |
| History.CountedScores | src/app/history/page.tsx:139-140 | No score is kept exactly when no record is completed and scored; every completed, scored record's score is kept |
| History.CountedScoresAppend | src/app/history/page.tsx:139 | The completed-and-scored filter preserves order across a concatenation |
| History.AverageScore | src/app/history/page.tsx:138-143 | The average is 0 when no interview is both completed and scored |
| History.MeanWithin | src/app/history/page.tsx:141-142 | The mean of values within lo..hi lies within lo..hi |
| History.AverageWithinScores | src/app/history/page.tsx:141-142 | The average lies within any bounds of the included scores, hence between their minimum and maximum |
| History.AverageIgnoresUncounted | src/app/history/page.tsx:139-142 | Adding an active or unscored record, at either end, does not change the average |
| History.SumZeroIff | src/app/history/page.tsx:141 | A total of non-negative scores is 0 exactly when every score is 0 |
| History.AverageCard | src/app/history/page.tsx:205 | The card shows "N/A" exactly when the average is at most 0, and otherwise shows the average |
| History.NotAvailableIff | src/app/history/page.tsx:138-205 | With non-negative scores, "N/A" is shown exactly when every included score is 0, in particular when none is included |
| History.CompletedCount | src/app/history/page.tsx:217 | The completed count is at most the number of records; it is 0 exactly when none is completed and the number of records exactly when all are |
| History.CompletedCountAppend | src/app/history/page.tsx:217 | The count over a concatenation is the sum of the counts; one record counts 1 exactly when it is completed |
| History.CountedAmongCompleted | src/app/history/page.tsx:139-217 | Averaged interviews are a subset of the completed ones; the two counts agree exactly when every completed interview has a score |
| History.ScoreTier | src/app/history/page.tsx:115-125 | Green exactly from 8, yellow exactly in 6..8, red exactly below 6 |
| History.ScoreTierMonotone | src/app/history/page.tsx:115-125 | A higher score never falls in a lower tier |
| History.ScoreColor | src/app/history/page.tsx:115-119 | The text colour is the one of the score's tier |
| History.ScoreBackground | src/app/history/page.tsx:121-125 | The background is the one of the same tier as the text colour |
| History.AtsTier | src/app/history/page.tsx:368-369 | Green exactly from 80, yellow exactly in 60..80, red exactly below 60 |
| History.AtsTierIsScaledScoreTier | src/app/history/page.tsx:368-369 | The ATS tiers are the interview tiers scaled by ten |
| History.AtsColor | src/app/history/page.tsx:367-369 | The ATS colour is the one of the ATS score's tier |

## Left out

- Token handling (`getTokenFromRequest`/`verifyToken`) is not part of this model. The verified user is an input `Option<UserId>`; `None` stands for a missing or invalid token.
- Request bodies are inputs. A body field is `None` when it is missing or falsy. Non-string category values, and the body-parse failure that the start route maps to `{}`, are not modelled beyond that.
- The language model call is an input `AiReply`: it failed, or it replied with optional content. `JSON.parse` is a function parameter from the extracted text to an optional list of entries. An entry is `None` where its `questionText` is not a string. The prompt text around the hint is not modelled; `StartRoute.Guidance` keeps the hint sentences.
- The question bank is an input sequence of rows, already in newest-first order; `createdAt` is not modelled.
- The database is an in-memory store with a single id counter. Concurrent requests, database failures and every 500 path are not modelled.
- Row ids are bounded by the counter in the store invariant, so each new row's id differs from every existing one. Pairwise distinctness of ids already stored is not stated as a separate property.
- PDF and DOCX text extraction (`pdf-parse`, `mammoth`) is an input `Extraction`. `generateAIFeedback` returns a fixed text, which the route takes as the parameter `feedback`.
- `Date.now()` is the parameter `now`. The stored file name `<now>-<name>` is kept as its two parts.
- Numbers are exact: averages and the ATS ratio use `real`, so JavaScript floating-point rounding is not modelled. `toFixed(1)` in the average card is not modelled.
- `Number(count)` is modelled for integers, NaN and the infinities; fractional counts are not modelled.
- `StartRoute.StartInterview` chooses the questions before it creates the interview shell, whereas the handler creates the shell first. Choosing reads none of the modelled tables (the bank is an input), so the tables and the reply are the same either way.
- `Text.Lower` changes ASCII letters only, whereas JavaScript `toLowerCase` maps all of Unicode. Lengths count Unicode code points, whereas JavaScript counts UTF-16 units.
- The regular expressions of `evaluateAnswer` are modelled as substring tests on the lower-cased answer, plus explicit digit-`%` and `$`-digit tests. They use the same ASCII-only case folding.
- `AnswerRoute.EvaluateAnswer` keeps the feedback as a list of sentences. The string is their concatenation, `Evaluation.Feedback`.
- The pages' rendering, React state and mock data loading are not modelled, and neither are the other UI pages. Also not modelled: the client sends no `questionId` to the answer route, and it names the résumé field `resume` where the server reads `file`. Only the server is modelled, as written.
