/**
 * The relational store the three routes read and write, held in memory: the
 * `interview`, `interviewQuestion`, `interviewAnswer` and `resume` tables.
 * Row ids come from one counter, so a created row's id is never in use.
 */
module Store {
  import opened Wrappers

  type Id = nat
  type UserId = nat

  /** An interview is `active` until its last answer, then `completed`. */
  datatype Status = Active | Completed

  /** An `interview` row; its id is the key under which it is stored. */
  datatype Interview = Interview(
    userId: UserId,
    kind: string,
    status: Status,
    currentQuestion: int,
    totalQuestions: int,
    score: Option<real>)

  /** An `interviewQuestion` row; `order` is the 0-based position in its interview. */
  datatype Question = Question(id: Id, interviewId: Id, questionText: string, category: string, order: int)

  /** The data of a question before it is stored: what the question source produces. */
  datatype NewQuestion = NewQuestion(questionText: string, order: nat, category: string)

  /** An `interviewAnswer` row; `score` is nullable in the table. */
  datatype Answer = Answer(id: Id, questionId: Id, interviewId: Id, answerText: string, score: Option<int>, feedback: string)

  /** A `resume` row. The stored file name `<Date.now()>-<name>` is kept as its two parts. */
  datatype Resume = Resume(
    id: Id,
    userId: UserId,
    uploadedAt: int,
    originalName: string,
    content: string,
    atsScore: real,
    feedback: string)

  /** A per-answer score as the table allows it: null, or within 0..10. */
  predicate ScoreInRange(score: Option<int>)
  {
    score.Some? ==> 0 <= score.value <= 10
  }

  // ------------------------------------------------------------ queries

  /** `interviewQuestion.findUnique({ where: { id } })`. */
  function FindQuestion(qs: seq<Question>, id: Id): (r: Option<Question>)
    ensures r.Some? <==> exists i :: 0 <= i < |qs| && qs[i].id == id
    ensures r.Some? ==> r.value in qs && r.value.id == id
  {
    if qs == [] then None
    else if qs[0].id == id then Some(qs[0])
    else FindQuestion(qs[1..], id)
  }

  /** `interviewQuestion.findFirst({ where: { interviewId, order } })`: the first such row. */
  function QuestionAt(qs: seq<Question>, interviewId: Id, order: int): (r: Option<Question>)
    ensures r.Some? <==> exists i :: 0 <= i < |qs| && qs[i].interviewId == interviewId && qs[i].order == order
    ensures r.Some? ==> r.value in qs && r.value.interviewId == interviewId && r.value.order == order
  {
    if qs == [] then None
    else if qs[0].interviewId == interviewId && qs[0].order == order then Some(qs[0])
    else QuestionAt(qs[1..], interviewId, order)
  }

  /** Rows of another interview in front of the rows searched do not change the result. */
  lemma {:induction false} QuestionAtSkips(front: seq<Question>, back: seq<Question>, interviewId: Id, order: int)
    requires forall i :: 0 <= i < |front| ==> front[i].interviewId != interviewId
    ensures QuestionAt(front + back, interviewId, order) == QuestionAt(back, interviewId, order)
  {
    if front != [] {
      var all := front + back;
      assert all[0] == front[0] && all[1..] == front[1..] + back;
      QuestionAtSkips(front[1..], back, interviewId, order);
      assert QuestionAt(all, interviewId, order) == QuestionAt(all[1..], interviewId, order);
    } else {
      assert front + back == back;
    }
  }

  /** `interviewAnswer.findMany({ where: { interviewId } })`, in insertion order. */
  function AnswersOf(answers: seq<Answer>, interviewId: Id): (r: seq<Answer>)
    ensures |r| <= |answers|
    ensures forall a :: a in r ==> a in answers && a.interviewId == interviewId
    ensures forall a :: a in answers && a.interviewId == interviewId ==> a in r
  {
    if answers == [] then []
    else if answers[0].interviewId == interviewId then [answers[0]] + AnswersOf(answers[1..], interviewId)
    else AnswersOf(answers[1..], interviewId)
  }

  /** Appending an answer of the interview appends it to that interview's answers. */
  lemma {:induction false} AnswersOfAppend(answers: seq<Answer>, a: Answer, interviewId: Id)
    ensures AnswersOf(answers + [a], interviewId)
         == AnswersOf(answers, interviewId) + (if a.interviewId == interviewId then [a] else [])
  {
    if answers != [] {
      assert (answers + [a])[1..] == answers[1..] + [a];
      AnswersOfAppend(answers[1..], a, interviewId);
    }
  }

  /** `answers.reduce((sum, ans) => sum + (ans.score || 0), 0)`. */
  function ScoreSum(answers: seq<Answer>): int
  {
    if answers == [] then 0 else answers[0].score.GetOr(0) + ScoreSum(answers[1..])
  }

  /** The reduction adds up the parts of a concatenation separately. */
  lemma {:induction false} ScoreSumAppend(a: seq<Answer>, b: seq<Answer>)
    ensures ScoreSum(a + b) == ScoreSum(a) + ScoreSum(b)
  {
    if a == [] {
      assert a + b == b;
    } else {
      assert (a + b)[0] == a[0] && (a + b)[1..] == a[1..] + b;
      ScoreSumAppend(a[1..], b);
    }
  }

  /** The sum of per-answer scores of the store's range lies within 0..10 per answer. */
  lemma {:induction false} ScoreSumBounds(answers: seq<Answer>)
    requires forall i :: 0 <= i < |answers| ==> ScoreInRange(answers[i].score)
    ensures 0 <= ScoreSum(answers) <= 10 * |answers|
  {
    if answers != [] {
      ScoreSumBounds(answers[1..]);
    }
  }

  /** A total between 0 and `n * hi`, shared by `n` parts, gives each between 0 and `hi`. */
  lemma QuotientBounds(total: real, n: real, hi: real)
    requires n > 0.0 && 0.0 <= total <= n * hi
    ensures 0.0 <= total / n <= hi
  {
    var q := total / n;
    assert q * n == total;
  }

  /** The sum divided by the count: the interview's final score. */
  function MeanScore(answers: seq<Answer>): (m: real)
    requires |answers| > 0
    ensures (forall i :: 0 <= i < |answers| ==> ScoreInRange(answers[i].score)) ==> 0.0 <= m <= 10.0
  {
    var n := |answers| as real;
    var m := ScoreSum(answers) as real / n;
    if forall i :: 0 <= i < |answers| ==> ScoreInRange(answers[i].score) then
      ScoreSumBounds(answers);
      QuotientBounds(ScoreSum(answers) as real, n, 10.0);
      m
    else
      m
  }

  /** The rows `interviewQuestion.createMany` inserts for `qs`, with ids from `firstId` on. */
  function QuestionRows(qs: seq<NewQuestion>, interviewId: Id, firstId: Id): (rows: seq<Question>)
    ensures |rows| == |qs|
    ensures forall i :: 0 <= i < |qs| ==>
      rows[i] == Question(firstId + i, interviewId, qs[i].questionText, qs[i].category, qs[i].order)
  {
    if qs == [] then []
    else [Question(firstId, interviewId, qs[0].questionText, qs[0].category, qs[0].order)]
         + QuestionRows(qs[1..], interviewId, firstId + 1)
  }

  // ------------------------------------------------------------ the store

  /** The contents of all tables at one moment, and the next unused row id. */
  datatype Tables = Tables(
    interviews: map<Id, Interview>,
    questions: seq<Question>,
    answers: seq<Answer>,
    resumes: seq<Resume>,
    nextId: Id)

  /** Every question row refers to a stored interview and has an id below `next`. */
  predicate QuestionsBelong(qs: seq<Question>, interviews: map<Id, Interview>, next: Id)
  {
    qs == [] || (qs[0].interviewId in interviews && qs[0].id < next && QuestionsBelong(qs[1..], interviews, next))
  }

  /** Every answer row refers to a stored interview, has a score in range and an id below `next`. */
  predicate AnswersBelong(answers: seq<Answer>, interviews: map<Id, Interview>, next: Id)
  {
    answers == []
    || (&& answers[0].interviewId in interviews && ScoreInRange(answers[0].score) && answers[0].id < next
        && AnswersBelong(answers[1..], interviews, next))
  }

  /** Every résumé row has an id below `next`. */
  predicate ResumesBelow(resumes: seq<Resume>, next: Id)
  {
    resumes == [] || (resumes[0].id < next && ResumesBelow(resumes[1..], next))
  }

  /** Every row id is below the counter, so the counter is a fresh id for any table; and
      question and answer rows only refer to stored interviews. */
  ghost predicate TablesValid(t: Tables)
  {
    && (forall id :: id in t.interviews ==> id < t.nextId)
    && QuestionsBelong(t.questions, t.interviews, t.nextId)
    && AnswersBelong(t.answers, t.interviews, t.nextId)
    && ResumesBelow(t.resumes, t.nextId)
  }

  lemma {:induction false} QuestionsBelongAt(qs: seq<Question>, interviews: map<Id, Interview>, next: Id, i: nat)
    requires QuestionsBelong(qs, interviews, next) && i < |qs|
    ensures qs[i].interviewId in interviews && qs[i].id < next
  {
    if i > 0 {
      QuestionsBelongAt(qs[1..], interviews, next, i - 1);
    }
  }

  lemma {:induction false} QuestionsBelongAppend(a: seq<Question>, b: seq<Question>, interviews: map<Id, Interview>, next: Id)
    ensures QuestionsBelong(a + b, interviews, next)
        <==> QuestionsBelong(a, interviews, next) && QuestionsBelong(b, interviews, next)
  {
    if a == [] {
      assert a + b == b;
    } else {
      assert (a + b)[0] == a[0] && (a + b)[1..] == a[1..] + b;
      QuestionsBelongAppend(a[1..], b, interviews, next);
    }
  }

  /** More stored interviews and a higher counter keep every question row valid. */
  lemma {:induction false} QuestionsBelongWider(qs: seq<Question>, interviews: map<Id, Interview>, next: Id,
                                                wider: map<Id, Interview>, higher: Id)
    requires QuestionsBelong(qs, interviews, next)
    requires interviews.Keys <= wider.Keys && next <= higher
    ensures QuestionsBelong(qs, wider, higher)
  {
    if qs != [] {
      QuestionsBelongWider(qs[1..], interviews, next, wider, higher);
    }
  }

  /** The rows created for a stored interview refer to it, and their ids stay below the
      counter once it has moved past them. */
  lemma {:induction false} QuestionRowsBelong(qs: seq<NewQuestion>, interviewId: Id, firstId: Id,
                                              interviews: map<Id, Interview>, next: Id)
    requires interviewId in interviews && firstId + |qs| <= next
    ensures QuestionsBelong(QuestionRows(qs, interviewId, firstId), interviews, next)
  {
    if qs != [] {
      var rows := QuestionRows(qs, interviewId, firstId);
      assert rows[1..] == QuestionRows(qs[1..], interviewId, firstId + 1);
      QuestionRowsBelong(qs[1..], interviewId, firstId + 1, interviews, next);
    }
  }

  lemma {:induction false} AnswersBelongAt(answers: seq<Answer>, interviews: map<Id, Interview>, next: Id, i: nat)
    requires AnswersBelong(answers, interviews, next) && i < |answers|
    ensures answers[i].interviewId in interviews && ScoreInRange(answers[i].score) && answers[i].id < next
  {
    if i > 0 {
      AnswersBelongAt(answers[1..], interviews, next, i - 1);
    }
  }

  lemma {:induction false} AnswersBelongAppend(answers: seq<Answer>, a: Answer, interviews: map<Id, Interview>, next: Id)
    ensures AnswersBelong(answers + [a], interviews, next)
        <==> AnswersBelong(answers, interviews, next) && a.interviewId in interviews && ScoreInRange(a.score) && a.id < next
  {
    if answers == [] {
      assert answers + [a] == [a] && [a][1..] == [];
    } else {
      assert (answers + [a])[0] == answers[0] && (answers + [a])[1..] == answers[1..] + [a];
      AnswersBelongAppend(answers[1..], a, interviews, next);
    }
  }

  /** More stored interviews and a higher counter keep every answer row valid. */
  lemma {:induction false} AnswersBelongWider(answers: seq<Answer>, interviews: map<Id, Interview>, next: Id,
                                              wider: map<Id, Interview>, higher: Id)
    requires AnswersBelong(answers, interviews, next)
    requires interviews.Keys <= wider.Keys && next <= higher
    ensures AnswersBelong(answers, wider, higher)
  {
    if answers != [] {
      AnswersBelongWider(answers[1..], interviews, next, wider, higher);
    }
  }

  lemma {:induction false} ResumesBelowAt(resumes: seq<Resume>, next: Id, i: nat)
    requires ResumesBelow(resumes, next) && i < |resumes|
    ensures resumes[i].id < next
  {
    if i > 0 {
      ResumesBelowAt(resumes[1..], next, i - 1);
    }
  }

  lemma {:induction false} ResumesBelowAppend(resumes: seq<Resume>, r: Resume, next: Id)
    ensures ResumesBelow(resumes + [r], next) <==> ResumesBelow(resumes, next) && r.id < next
  {
    if resumes == [] {
      assert resumes + [r] == [r] && [r][1..] == [];
    } else {
      assert (resumes + [r])[0] == resumes[0] && (resumes + [r])[1..] == resumes[1..] + [r];
      ResumesBelowAppend(resumes[1..], r, next);
    }
  }

  lemma {:induction false} ResumesBelowHigher(resumes: seq<Resume>, next: Id, higher: Id)
    requires ResumesBelow(resumes, next) && next <= higher
    ensures ResumesBelow(resumes, higher)
  {
    if resumes != [] {
      ResumesBelowHigher(resumes[1..], next, higher);
    }
  }

  /** Storing an interview row under a used id or the counter, and moving the counter
      to `next` at or past it, keeps the invariant. */
  lemma StoreInterviewKeepsValid(t: Tables, id: Id, row: Interview, next: Id)
    requires TablesValid(t) && id <= t.nextId && t.nextId <= next && id < next
    ensures TablesValid(t.(interviews := t.interviews[id := row], nextId := next))
  {
    var wider := t.interviews[id := row];
    QuestionsBelongWider(t.questions, t.interviews, t.nextId, wider, next);
    AnswersBelongWider(t.answers, t.interviews, t.nextId, wider, next);
    ResumesBelowHigher(t.resumes, t.nextId, next);
  }

  /** Moving the counter forward keeps the invariant. */
  lemma CounterKeepsValid(t: Tables, next: Id)
    requires TablesValid(t) && t.nextId <= next
    ensures TablesValid(t.(nextId := next))
  {
    QuestionsBelongWider(t.questions, t.interviews, t.nextId, t.interviews, next);
    AnswersBelongWider(t.answers, t.interviews, t.nextId, t.interviews, next);
    ResumesBelowHigher(t.resumes, t.nextId, next);
  }

  /** Appending an in-range answer of a stored interview under the counter, then rewriting
      a stored interview row, keeps the invariant. */
  lemma AnswerThenStoreKeepsValid(t: Tables, a: Answer, id: Id, row: Interview)
    requires TablesValid(t) && a.id == t.nextId && a.interviewId in t.interviews && ScoreInRange(a.score)
    requires id in t.interviews
    ensures TablesValid(Tables(t.interviews[id := row], t.questions, t.answers + [a], t.resumes, t.nextId + 1))
  {
    CounterKeepsValid(t, t.nextId + 1);
    AnswersBelongAppend(t.answers, a, t.interviews, t.nextId + 1);
    var t1 := t.(answers := t.answers + [a], nextId := t.nextId + 1);
    StoreInterviewKeepsValid(t1, id, row, t1.nextId);
  }

  /** Storing an interview row under the counter, rewriting it, and adding question rows
      that belong to the stored interviews then and lie below the new counter keeps the
      invariant. */
  lemma CreateWithQuestionsKeepsValid(t: Tables, shell: Interview, row: Interview, rows: seq<Question>, next: Id)
    requires TablesValid(t) && t.nextId < next
    requires QuestionsBelong(rows, t.interviews[t.nextId := shell][t.nextId := row], next)
    ensures TablesValid(Tables(t.interviews[t.nextId := shell][t.nextId := row], t.questions + rows, t.answers,
                               t.resumes, next))
  {
    var interviews := t.interviews[t.nextId := row];
    assert t.interviews[t.nextId := shell][t.nextId := row] == interviews;
    StoreInterviewKeepsValid(t, t.nextId, row, next);
    QuestionsBelongAppend(t.questions, rows, interviews, next);
  }

  /** The same, for the question rows `QuestionRows` builds with ids right after the interview's. */
  lemma CreateWithQuestionRowsKeepsValid(t: Tables, shell: Interview, row: Interview, qs: seq<NewQuestion>)
    requires TablesValid(t)
    ensures TablesValid(Tables(t.interviews[t.nextId := shell][t.nextId := row],
                               t.questions + QuestionRows(qs, t.nextId, t.nextId + 1), t.answers, t.resumes,
                               t.nextId + 1 + |qs|))
  {
    var rows := QuestionRows(qs, t.nextId, t.nextId + 1);
    var interviews, next := t.interviews[t.nextId := shell][t.nextId := row], t.nextId + 1 + |qs|;
    QuestionRowsBelong(qs, t.nextId, t.nextId + 1, interviews, next);
    assert QuestionsBelong(rows, interviews, next);
    CreateWithQuestionsKeepsValid(t, shell, row, rows, next);
  }

  /** In a valid store the counter is above every row id of every table, so a row created
      under it never shares an id with an existing row. */
  lemma CounterIsFresh(t: Tables)
    requires TablesValid(t)
    ensures t.nextId !in t.interviews
    ensures forall i :: 0 <= i < |t.questions| ==> t.questions[i].id < t.nextId
    ensures forall i :: 0 <= i < |t.answers| ==> t.answers[i].id < t.nextId
    ensures forall i :: 0 <= i < |t.resumes| ==> t.resumes[i].id < t.nextId
  {
    forall i | 0 <= i < |t.questions| ensures t.questions[i].id < t.nextId {
      QuestionsBelongAt(t.questions, t.interviews, t.nextId, i);
    }
    forall i | 0 <= i < |t.answers| ensures t.answers[i].id < t.nextId {
      AnswersBelongAt(t.answers, t.interviews, t.nextId, i);
    }
    forall i | 0 <= i < |t.resumes| ensures t.resumes[i].id < t.nextId {
      ResumesBelowAt(t.resumes, t.nextId, i);
    }
  }

  /** The store, updated in place by the routes. */
  class Database {
    var interviews: map<Id, Interview>
    var questions: seq<Question>
    var answers: seq<Answer>
    var resumes: seq<Resume>
    var nextId: Id

    function Contents(): Tables
      reads this
    {
      Tables(interviews, questions, answers, resumes, nextId)
    }

    ghost predicate Valid()
      reads this
    {
      TablesValid(Contents())
    }

    constructor ()
      ensures Valid()
      ensures Contents() == Tables(map[], [], [], [], 0)
    {
      interviews, questions, answers, resumes, nextId := map[], [], [], [], 0;
    }

    /** `interview.create`: stores `row` under the counter, an id no row uses. */
    method CreateInterview(row: Interview) returns (id: Id)
      requires Valid()
      modifies this
      ensures Valid()
      ensures id == old(nextId) && nextId == old(nextId) + 1
      ensures id !in old(interviews)
      ensures interviews == old(interviews)[id := row]
      ensures questions == old(questions) && answers == old(answers) && resumes == old(resumes)
    {
      id := nextId;
      CounterIsFresh(Contents());
      StoreInterviewKeepsValid(Contents(), id, row, nextId + 1);
      interviews := interviews[id := row];
      nextId := nextId + 1;
    }

    /** `interview.update({ where: { id }, data })`: replaces the row stored under `id`. */
    method UpdateInterview(id: Id, row: Interview)
      requires Valid() && id in interviews
      modifies this`interviews
      ensures Valid()
      ensures interviews == old(interviews)[id := row]
    {
      StoreInterviewKeepsValid(Contents(), id, row, nextId);
      interviews := interviews[id := row];
    }

    /** `interviewQuestion.createMany`: appends one row per question, with ids from the counter on,
        all above every existing question id. */
    method CreateQuestions(interviewId: Id, qs: seq<NewQuestion>)
      requires Valid() && interviewId in interviews
      modifies this
      ensures Valid()
      ensures questions == old(questions) + QuestionRows(qs, interviewId, old(nextId))
      ensures nextId == old(nextId) + |qs|
      ensures forall i :: 0 <= i < |old(questions)| ==> old(questions)[i].id < old(nextId)
      ensures interviews == old(interviews) && answers == old(answers) && resumes == old(resumes)
    {
      CounterIsFresh(Contents());
      var rows := QuestionRows(qs, interviewId, nextId);
      CounterKeepsValid(Contents(), nextId + |qs|);
      QuestionRowsBelong(qs, interviewId, nextId, interviews, nextId + |qs|);
      QuestionsBelongAppend(questions, rows, interviews, nextId + |qs|);
      questions := questions + rows;
      nextId := nextId + |qs|;
    }

    /** `interviewAnswer.create`: appends one answer row under the counter, above every existing answer id. */
    method CreateAnswer(questionId: Id, interviewId: Id, answerText: string, score: Option<int>, feedback: string)
      returns (id: Id)
      requires Valid() && interviewId in interviews && ScoreInRange(score)
      modifies this
      ensures Valid()
      ensures id == old(nextId) && nextId == old(nextId) + 1
      ensures forall i :: 0 <= i < |old(answers)| ==> old(answers)[i].id < id
      ensures answers == old(answers) + [Answer(id, questionId, interviewId, answerText, score, feedback)]
      ensures interviews == old(interviews) && questions == old(questions) && resumes == old(resumes)
    {
      id := nextId;
      CounterIsFresh(Contents());
      CounterKeepsValid(Contents(), nextId + 1);
      AnswersBelongAppend(answers, Answer(id, questionId, interviewId, answerText, score, feedback), interviews, nextId + 1);
      answers := answers + [Answer(id, questionId, interviewId, answerText, score, feedback)];
      nextId := nextId + 1;
    }

    /** `resume.create`: appends one résumé row under the counter, above every existing résumé id. */
    method CreateResume(userId: UserId, uploadedAt: int, originalName: string, content: string, atsScore: real, feedback: string)
      returns (id: Id)
      requires Valid()
      modifies this
      ensures Valid()
      ensures id == old(nextId) && nextId == old(nextId) + 1
      ensures forall i :: 0 <= i < |old(resumes)| ==> old(resumes)[i].id < id
      ensures resumes == old(resumes) + [Resume(id, userId, uploadedAt, originalName, content, atsScore, feedback)]
      ensures interviews == old(interviews) && questions == old(questions) && answers == old(answers)
    {
      id := nextId;
      CounterIsFresh(Contents());
      CounterKeepsValid(Contents(), nextId + 1);
      ResumesBelowAppend(resumes, Resume(id, userId, uploadedAt, originalName, content, atsScore, feedback), nextId + 1);
      resumes := resumes + [Resume(id, userId, uploadedAt, originalName, content, atsScore, feedback)];
      nextId := nextId + 1;
    }
  }
}
