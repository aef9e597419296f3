/**
 * `POST /api/interview/answer`: scores one answer with a fixed heuristic,
 * records it, and either moves the interview to its next question or
 * completes it with the mean of its recorded scores.
 */
module AnswerRoute {
  import opened Wrappers
  import opened Text
  import opened Store

  // ------------------------------------------------------------ evaluator

  /** The fixed sentences the feedback is assembled from, in the order they can appear. */
  datatype Remark =
    | Thanks | NeedsDetail | GoodDetail | GoodExamples | AddExamples | GoodResults
    | StrongClosing | SolidClosing | WeakClosing
  {
    /** One of the three sentences the feedback ends with. */
    predicate IsClosing()
    {
      StrongClosing? || SolidClosing? || WeakClosing?
    }
  }

  function RemarkText(r: Remark): string
  {
    match r
    case Thanks => "Thank you for your response. "
    case NeedsDetail => "Your answer could benefit from more detail and specific examples. "
    case GoodDetail => "Good level of detail in your response. "
    case GoodExamples => "Great use of specific examples to illustrate your points. "
    case AddExamples => "Consider adding specific examples to strengthen your answer. "
    case GoodResults => "Excellent use of quantifiable results to demonstrate impact. "
    case StrongClosing => "This is a strong response that demonstrates good self-awareness and communication skills."
    case SolidClosing => "This is a solid response with room for improvement in providing more specific details."
    case WeakClosing => "Consider expanding your answer with more specific examples and details about your experience."
  }

  /** The text of each sentence, in order. */
  function Texts(remarks: seq<Remark>): (texts: seq<string>)
    ensures |texts| == |remarks|
    ensures forall i :: 0 <= i < |remarks| ==> texts[i] == RemarkText(remarks[i])
  {
    if remarks == [] then [] else [RemarkText(remarks[0])] + Texts(remarks[1..])
  }

  /** The parts joined one after another. */
  function Concat(parts: seq<string>): string
  {
    if parts == [] then "" else parts[0] + Concat(parts[1..])
  }

  /** Joining a concatenation joins each half in turn. */
  lemma {:induction false} ConcatAppend(p1: seq<string>, p2: seq<string>)
    ensures Concat(p1 + p2) == Concat(p1) + Concat(p2)
  {
    if p1 == [] {
      assert p1 + p2 == p2;
    } else {
      assert (p1 + p2)[0] == p1[0] && (p1 + p2)[1..] == p1[1..] + p2;
      ConcatAppend(p1[1..], p2);
      assert p1[0] + (Concat(p1[1..]) + Concat(p2)) == (p1[0] + Concat(p1[1..])) + Concat(p2);
    }
  }

  /** A join opens with its first part and closes with its last one. */
  lemma ConcatEnds(parts: seq<string>)
    requires parts != []
    ensures var f, first, last := Concat(parts), parts[0], parts[|parts| - 1];
      && first <= f && |last| <= |f| && f[|f| - |last|..] == last
  {
    var n := |parts| - 1;
    assert parts == parts[..n] + [parts[n]];
    ConcatAppend(parts[..n], [parts[n]]);
    assert Concat([parts[n]]) == parts[n] + Concat([]);
  }

  /** `score` and `feedback` as the evaluator returns them; the feedback is kept as its sentences. */
  datatype Evaluation = Evaluation(score: int, remarks: seq<Remark>)
  {
    /** The feedback string: the sentences' texts one after another. */
    function Feedback(): string
    {
      Concat(Texts(remarks))
    }
  }

  /** The alternatives of `/example|instance|time when|situation|experience/i`. */
  const ExampleWords: seq<string> := ["example", "instance", "time when", "situation", "experience"]

  /** The word alternatives of `/\d+%|\$\d+|increased|decreased|improved|reduced/i`. */
  const ResultWords: seq<string> := ["increased", "decreased", "improved", "reduced"]

  /** Some alternative occurs in `answer`, ignoring the case of ASCII letters
      (all alternatives are lower case, so matching against `Lower(answer)` is exact). */
  predicate MentionsAny(answer: string, words: seq<string>)
  {
    exists w | w in words :: Contains(Lower(answer), w)
  }

  /** `\d+%` matches: some digit is directly followed by `%`. */
  predicate HasPercentage(answer: string)
  {
    exists i | 0 <= i < |answer| - 1 :: IsDigit(answer[i]) && answer[i + 1] == '%'
  }

  /** `\$\d+` matches: some `$` is directly followed by a digit. */
  predicate HasDollarAmount(answer: string)
  {
    exists i | 0 <= i < |answer| - 1 :: answer[i] == '$' && IsDigit(answer[i + 1])
  }

  predicate HasSpecificExamples(answer: string)
  {
    MentionsAny(answer, ExampleWords)
  }

  predicate HasQuantifiableResults(answer: string)
  {
    HasPercentage(answer) || HasDollarAmount(answer) || MentionsAny(answer, ResultWords)
  }

  /** The score the length of the trimmed answer sets before any bonus. */
  function LengthScore(trimmedLength: nat): (s: int)
    ensures s == 3 <==> trimmedLength < 50
    ensures s == 5 <==> 50 <= trimmedLength <= 200
    ensures s == 7 <==> trimmedLength > 200
  {
    if trimmedLength < 50 then 3 else if trimmedLength > 200 then 7 else 5
  }

  /** The sentence on length: more detail wanted below 50, praise above 200, none between. */
  function LengthRemark(trimmedLength: nat): (rs: seq<Remark>)
    ensures |rs| <= 1
    ensures NeedsDetail in rs <==> trimmedLength < 50
    ensures GoodDetail in rs <==> trimmedLength > 200
    ensures forall i :: 0 <= i < |rs| ==> rs[i] == NeedsDetail || rs[i] == GoodDetail
  {
    if trimmedLength < 50 then [NeedsDetail] else if trimmedLength > 200 then [GoodDetail] else []
  }

  /** The closing sentence for a final score: strong from 8, solid from 6, weak below. */
  function Closing(score: int): (c: Remark)
    ensures c.IsClosing()
    ensures c == StrongClosing <==> score >= 8
    ensures c == SolidClosing <==> 6 <= score < 8
    ensures c == WeakClosing <==> score < 6
  {
    if score >= 8 then StrongClosing else if score >= 6 then SolidClosing else WeakClosing
  }

  /** `evaluateAnswer(question, answer)`: the length part, +2 for examples, +1 for
      quantified results, capped at 10; the feedback thanks, remarks on length, examples
      and results, and closes according to the score. */
  function EvaluateAnswer(question: string, answer: string): (e: Evaluation)
    ensures 3 <= e.score <= 10
  {
    var length := |Trim(answer)|;
    var examples := HasSpecificExamples(answer);
    var results := HasQuantifiableResults(answer);
    var score := Min(10, LengthScore(length) + (if examples then 2 else 0) + (if results then 1 else 0));
    Evaluation(score, Remarks(length, examples, results, score))
  }

  /** The sentences in order: thanks, the length remark, the examples remark, the results
      remark and the closing of the score's tier. */
  function Remarks(length: nat, examples: bool, results: bool, score: int): seq<Remark>
  {
    [Thanks] + LengthRemark(length)
    + [if examples then GoodExamples else AddExamples]
    + (if results then [GoodResults] else [])
    + [Closing(score)]
  }

  /** The sentences between the thanks and the closing. */
  function MiddleRemarks(length: nat, examples: bool, results: bool): (rs: seq<Remark>)
    ensures 1 <= |rs| <= 3
    ensures forall i :: 0 <= i < |rs| ==> rs[i] != Thanks && !rs[i].IsClosing()
  {
    LengthRemark(length) + [if examples then GoodExamples else AddExamples] + (if results then [GoodResults] else [])
  }

  /** Each sentence of `Remarks` appears exactly when its condition holds. */
  lemma RemarksSelect(length: nat, examples: bool, results: bool, score: int)
    ensures var rs := Remarks(length, examples, results, score);
      && (NeedsDetail in rs <==> length < 50)
      && (GoodDetail in rs <==> length > 200)
      && (GoodExamples in rs <==> examples)
      && (AddExamples in rs <==> !examples)
      && (GoodResults in rs <==> results)
  {
    var middle := MiddleRemarks(length, examples, results);
    assert Remarks(length, examples, results, score) == [Thanks] + middle + [Closing(score)];
  }

  /** `Remarks` opens with the thanks, which appears nowhere else, and ends with the
      closing of the score's tier, the only closing in it. */
  lemma RemarksFrame(length: nat, examples: bool, results: bool, score: int)
    ensures var rs := Remarks(length, examples, results, score);
      && 3 <= |rs| <= 5
      && rs[0] == Thanks && (forall i :: 0 < i < |rs| ==> rs[i] != Thanks)
      && rs[|rs| - 1] == Closing(score)
      && (forall i :: 0 <= i < |rs| - 1 ==> !rs[i].IsClosing())
  {
    var middle := MiddleRemarks(length, examples, results);
    var rs := Remarks(length, examples, results, score);
    assert rs == [Thanks] + middle + [Closing(score)];
    assert forall i :: 0 < i < |rs| - 1 ==> rs[i] == middle[i - 1];
  }

  /** The cap at 10 never binds: the score is exactly the length part plus the bonuses. */
  lemma ScoreIsSumOfParts(question: string, answer: string)
    ensures EvaluateAnswer(question, answer).score
         == LengthScore(|Trim(answer)|)
          + (if HasSpecificExamples(answer) then 2 else 0)
          + (if HasQuantifiableResults(answer) then 1 else 0)
  {
  }

  /** The question text plays no part in the evaluation. */
  lemma QuestionIsIgnored(q1: string, q2: string, answer: string)
    ensures EvaluateAnswer(q1, answer) == EvaluateAnswer(q2, answer)
  {
  }

  /** Leading and trailing whitespace matters only through the length of the trim: two
      answers whose trims are equally long and that earn the same bonuses are evaluated alike. */
  lemma LengthPartUsesTrim(a1: string, a2: string)
    requires |Trim(a1)| == |Trim(a2)|
    requires HasSpecificExamples(a1) == HasSpecificExamples(a2)
    requires HasQuantifiableResults(a1) == HasQuantifiableResults(a2)
    ensures EvaluateAnswer("", a1) == EvaluateAnswer("", a2)
  {
  }

  /** The top score 10 is reached exactly by a long answer with both bonuses. */
  lemma TopScoreIff(question: string, answer: string)
    ensures EvaluateAnswer(question, answer).score == 10
        <==> |Trim(answer)| > 200 && HasSpecificExamples(answer) && HasQuantifiableResults(answer)
  {
  }

  /** The lowest score 3 is reached exactly by a short answer with no bonus. */
  lemma BottomScoreIff(question: string, answer: string)
    ensures EvaluateAnswer(question, answer).score == 3
        <==> |Trim(answer)| < 50 && !HasSpecificExamples(answer) && !HasQuantifiableResults(answer)
  {
  }

  /** Each sentence appears exactly when its condition holds: the call for detail below 50
      trimmed characters, the praise for detail above 200, the praise for examples when they
      are given and the call for them when not, the praise for results when they are
      quantified. The thanks opens the feedback and nothing else is a thanks; the closing
      of the score's tier ends it and no other sentence is a closing. */
  lemma RemarksShape(question: string, answer: string)
    ensures var e, length := EvaluateAnswer(question, answer), |Trim(answer)|;
      && (NeedsDetail in e.remarks <==> length < 50)
      && (GoodDetail in e.remarks <==> length > 200)
      && (GoodExamples in e.remarks <==> HasSpecificExamples(answer))
      && (AddExamples in e.remarks <==> !HasSpecificExamples(answer))
      && (GoodResults in e.remarks <==> HasQuantifiableResults(answer))
      && 3 <= |e.remarks| <= 5
      && e.remarks[0] == Thanks && (forall i :: 0 < i < |e.remarks| ==> e.remarks[i] != Thanks)
      && e.remarks[|e.remarks| - 1] == Closing(e.score)
      && (forall i :: 0 <= i < |e.remarks| - 1 ==> !e.remarks[i].IsClosing())
  {
    var e := EvaluateAnswer(question, answer);
    RemarksSelect(|Trim(answer)|, HasSpecificExamples(answer), HasQuantifiableResults(answer), e.score);
    RemarksFrame(|Trim(answer)|, HasSpecificExamples(answer), HasQuantifiableResults(answer), e.score);
  }

  /** The feedback text opens with its first sentence and closes with its last one. */
  lemma FeedbackEnds(e: Evaluation)
    requires e.remarks != []
    ensures var f, first, last := e.Feedback(), RemarkText(e.remarks[0]), RemarkText(e.remarks[|e.remarks| - 1]);
      && first <= f && |last| <= |f| && f[|f| - |last|..] == last
  {
    var rs := e.remarks;
    var texts := Texts(rs);
    assert texts[0] == RemarkText(rs[0]) && texts[|rs| - 1] == RemarkText(rs[|rs| - 1]);
    ConcatEnds(texts);
  }

  /** The feedback opens with the thanks and closes with the sentence of the score's tier. */
  lemma FeedbackShape(question: string, answer: string)
    ensures var e := EvaluateAnswer(question, answer);
      && e.remarks != [] && e.remarks[0] == Thanks && e.remarks[|e.remarks| - 1] == Closing(e.score)
  {
    RemarksShape(question, answer);
  }

  /** Adding text after an answer never takes a bonus away. */
  lemma BonusesKeptByAppending(answer: string, more: string)
    ensures HasSpecificExamples(answer) ==> HasSpecificExamples(answer + more)
    ensures HasQuantifiableResults(answer) ==> HasQuantifiableResults(answer + more)
  {
    var longer := answer + more;
    LowerAppend(answer, more);
    forall w | w in ExampleWords + ResultWords && Contains(Lower(answer), w)
      ensures Contains(Lower(longer), w)
    {
      ContainsAppend(Lower(answer), Lower(more), w);
    }
    if HasPercentage(answer) {
      var i :| 0 <= i < |answer| - 1 && IsDigit(answer[i]) && answer[i + 1] == '%';
      assert longer[i] == answer[i] && longer[i + 1] == answer[i + 1];
    }
    if HasDollarAmount(answer) {
      var i :| 0 <= i < |answer| - 1 && answer[i] == '$' && IsDigit(answer[i + 1]);
      assert longer[i] == answer[i] && longer[i + 1] == answer[i + 1];
    }
  }

  /** A lower-case word in the answer is found whatever the case of its letters. */
  lemma MentionedWordIsFound(answer: string, words: seq<string>, w: string)
    requires w in words && Lower(w) == w && Contains(answer, w)
    ensures MentionsAny(answer, words)
  {
    ContainsLower(answer, w);
  }

  /** The keyword tests see through case: an answer and its lower-cased form get the same
      bonuses from the keyword alternatives. */
  lemma KeywordsIgnoreCase(answer: string)
    ensures HasSpecificExamples(Lower(answer)) == HasSpecificExamples(answer)
    ensures MentionsAny(Lower(answer), ResultWords) == MentionsAny(answer, ResultWords)
  {
    LowerIdempotent(answer);
  }

  // ------------------------------------------------------------ the route

  /** The route's replies: 401, 400, the two 404s, and the two 200 bodies. */
  datatype AnswerResponse =
    | Unauthorized
    | MissingFields
    | InterviewNotFound
    | QuestionNotFound
    | NextQuestion(evaluation: Evaluation, nextQuestion: Option<Question>, currentQuestion: int, totalQuestions: int)
    | Finished(evaluation: Evaluation, finalScore: real)
  {
    /** The HTTP status code the reply is sent with. */
    function HttpStatus(): int
    {
      match this
      case Unauthorized => 401
      case MissingFields => 400
      case InterviewNotFound => 404
      case QuestionNotFound => 404
      case NextQuestion(_, _, _, _) => 200
      case Finished(_, _) => 200
    }

    predicate Accepted()
    {
      NextQuestion? || Finished?
    }
  }

  /** `!interviewId || !questionId || !answer` is false: all three fields are given. */
  predicate FieldsPresent(interviewId: Option<Id>, questionId: Option<Id>, answer: Option<string>)
  {
    interviewId.Some? && questionId.Some? && answer.Some? && answer.value != ""
  }

  /** `interview.findFirst({ where: { id, userId } })` finds a row. */
  predicate Owns(interviews: map<Id, Interview>, id: Id, user: UserId)
  {
    id in interviews && interviews[id].userId == user
  }

  /** From `before` to `after` no interview disappears, none leaves `completed`,
      and no current question moves back. */
  ghost predicate Progressed(before: map<Id, Interview>, after: map<Id, Interview>)
  {
    forall id :: id in before ==>
      && id in after
      && (before[id].status == Completed ==> after[id].status == Completed)
      && before[id].currentQuestion <= after[id].currentQuestion
  }

  /** The work done once the question is found: store the answer row, then either
      complete the interview with the mean of its scores or move to the next question. */
  function Record(t: Tables, iid: Id, qid: Id, text: string, e: Evaluation): (r: (Tables, AnswerResponse))
    requires iid in t.interviews
    ensures r.1.Accepted() && r.1.evaluation == e
    ensures |r.0.answers| == |t.answers| + 1 && r.0.answers[|t.answers|].score == Some(e.score)
    ensures iid in r.0.interviews && r.0.interviews[iid].currentQuestion == t.interviews[iid].currentQuestion + 1
    ensures r.1.Finished? <==> r.0.interviews[iid].currentQuestion >= t.interviews[iid].totalQuestions
  {
    var answers := t.answers + [Answer(t.nextId, qid, iid, text, Some(e.score), e.Feedback())];
    var before := t.interviews[iid];
    var next := before.currentQuestion + 1;
    if next >= before.totalQuestions then
      var all := AnswersOf(answers, iid);
      assert answers[|answers| - 1] in all;
      var average := MeanScore(all);
      var row := before.(status := Completed, score := Some(average), currentQuestion := next);
      (Tables(t.interviews[iid := row], t.questions, answers, t.resumes, t.nextId + 1), Finished(e, average))
    else
      var row := before.(currentQuestion := next);
      (Tables(t.interviews[iid := row], t.questions, answers, t.resumes, t.nextId + 1),
       NextQuestion(e, QuestionAt(t.questions, iid, next), next, before.totalQuestions))
  }

  /** The handler as a function of the tables it finds: its reply and the tables it leaves.
      `user` is the verified token's user (None: no or bad token); a body field is None
      when it is missing or falsy. */
  function Submit(t: Tables, user: Option<UserId>, interviewId: Option<Id>, questionId: Option<Id>, answer: Option<string>)
    : (r: (Tables, AnswerResponse))
    ensures r.1.Accepted() <==>
      && user.Some? && FieldsPresent(interviewId, questionId, answer)
      && Owns(t.interviews, interviewId.value, user.value) && FindQuestion(t.questions, questionId.value).Some?
    ensures !r.1.Accepted() ==> r.0 == t
    ensures r.1.Accepted() ==> |r.0.answers| == |t.answers| + 1
  {
    if user.None? then (t, Unauthorized)
    else if !FieldsPresent(interviewId, questionId, answer) then (t, MissingFields)
    else if !Owns(t.interviews, interviewId.value, user.value) then (t, InterviewNotFound)
    else
      var question := FindQuestion(t.questions, questionId.value);
      if question.None? then (t, QuestionNotFound)
      else Record(t, interviewId.value, questionId.value, answer.value,
                  EvaluateAnswer(question.value.questionText, answer.value))
  }

  /** The handler, updating the store in place. */
  method SubmitAnswer(db: Database, user: Option<UserId>, interviewId: Option<Id>, questionId: Option<Id>, answer: Option<string>)
    returns (resp: AnswerResponse)
    requires db.Valid()
    modifies db
    ensures (db.Contents(), resp) == Submit(old(db.Contents()), user, interviewId, questionId, answer)
    ensures db.Valid()
  {
    ghost var t := db.Contents();
    if user.None? {
      return Unauthorized;
    }
    if !FieldsPresent(interviewId, questionId, answer) {
      return MissingFields;
    }
    var iid, qid, text := interviewId.value, questionId.value, answer.value;
    if !Owns(db.interviews, iid, user.value) {
      return InterviewNotFound;
    }
    var question := FindQuestion(db.questions, qid);
    if question.None? {
      return QuestionNotFound;
    }
    var evaluation := EvaluateAnswer(question.value.questionText, text);
    resp := RecordAnswer(db, iid, qid, text, evaluation);
  }

  /** The handler from the evaluation on: `interviewAnswer.create`, then either
      `findMany` and `interview.update` to complete, or `findFirst` and `interview.update`
      to advance. */
  method RecordAnswer(db: Database, iid: Id, qid: Id, text: string, e: Evaluation) returns (resp: AnswerResponse)
    requires db.Valid() && iid in db.interviews && 0 <= e.score <= 10
    modifies db
    ensures (db.Contents(), resp) == Record(old(db.Contents()), iid, qid, text, e)
    ensures db.Valid()
  {
    ghost var t := db.Contents();
    var interview := db.interviews[iid];
    var answerId := db.CreateAnswer(qid, iid, text, Some(e.score), e.Feedback());
    assert db.answers == t.answers + [Answer(t.nextId, qid, iid, text, Some(e.score), e.Feedback())];
    var next := interview.currentQuestion + 1;
    if next >= interview.totalQuestions {
      var all := AnswersOf(db.answers, iid);
      assert db.answers[|db.answers| - 1] in all;
      var average := MeanScore(all);
      db.UpdateInterview(iid, interview.(status := Completed, score := Some(average), currentQuestion := next));
      resp := Finished(e, average);
    } else {
      var nextQuestion := QuestionAt(db.questions, iid, next);
      db.UpdateInterview(iid, interview.(currentQuestion := next));
      resp := NextQuestion(e, nextQuestion, next, interview.totalQuestions);
    }
  }

  // ------------------------------------------------------------ properties of the route

  /** The checks run in the handler's order: token, body fields, ownership, question;
      a rejected request leaves every table as it was. */
  lemma SubmitChecksInOrder(t: Tables, user: Option<UserId>, interviewId: Option<Id>, questionId: Option<Id>, answer: Option<string>)
    ensures var (t', r) := Submit(t, user, interviewId, questionId, answer);
      && (r.Unauthorized? <==> user.None?)
      && (r.MissingFields? <==> user.Some? && !FieldsPresent(interviewId, questionId, answer))
      && (r.InterviewNotFound? <==>
            user.Some? && FieldsPresent(interviewId, questionId, answer) && !Owns(t.interviews, interviewId.value, user.value))
      && (r.QuestionNotFound? <==>
            user.Some? && FieldsPresent(interviewId, questionId, answer) && Owns(t.interviews, interviewId.value, user.value)
            && FindQuestion(t.questions, questionId.value).None?)
      && (!r.Accepted() ==> t' == t)
  {
  }

  /** A request that passes every check is answered with the evaluator's verdict on the
      answer against the found question's text; the one new answer row carries that score
      and feedback, the interview's current question moves on by one, and the interview
      completes exactly when that was its last question. */
  lemma SubmitIsRecord(t: Tables, user: Option<UserId>, interviewId: Option<Id>, questionId: Option<Id>, answer: Option<string>)
    requires user.Some? && FieldsPresent(interviewId, questionId, answer)
    requires Owns(t.interviews, interviewId.value, user.value)
    requires FindQuestion(t.questions, questionId.value).Some?
    ensures var (t', r) := Submit(t, user, interviewId, questionId, answer);
      var iid, qid, text := interviewId.value, questionId.value, answer.value;
      var e := EvaluateAnswer(FindQuestion(t.questions, qid).value.questionText, text);
      var before := t.interviews[iid];
      && r.Accepted() && r.evaluation == e
      && t'.answers == t.answers + [Answer(t.nextId, qid, iid, text, Some(e.score), e.Feedback())]
      && iid in t'.interviews && t'.interviews[iid].currentQuestion == before.currentQuestion + 1
      && (r.Finished? <==> before.currentQuestion + 1 >= before.totalQuestions)
      && t'.questions == t.questions && t'.resumes == t.resumes
      && (t', r) == Record(t, iid, qid, text, e)
  {
    var iid, qid, text := interviewId.value, questionId.value, answer.value;
    var e := EvaluateAnswer(FindQuestion(t.questions, qid).value.questionText, text);
    RecordAppendsOneAnswer(t, iid, qid, text, e);
    RecordAdvances(t, iid, qid, text, e);
  }

  /** Recording appends exactly one answer row, under the counter (an id no stored answer
      has in a valid store) and with the evaluation's
      score and feedback; questions and resumes are untouched and only the answered
      interview's row changes. */
  lemma RecordAppendsOneAnswer(t: Tables, iid: Id, qid: Id, text: string, e: Evaluation)
    requires iid in t.interviews
    ensures var (t', r) := Record(t, iid, qid, text, e);
      && r.Accepted() && r.evaluation == e
      && t'.answers == t.answers + [Answer(t.nextId, qid, iid, text, Some(e.score), e.Feedback())]
      && t'.nextId == t.nextId + 1
      && t'.questions == t.questions && t'.resumes == t.resumes
      && t'.interviews.Keys == t.interviews.Keys
      && (forall id :: id in t.interviews && id != iid ==> t'.interviews[id] == t.interviews[id])
    ensures TablesValid(t) ==> forall i :: 0 <= i < |t.answers| ==> t.answers[i].id != t.nextId
  {
    if TablesValid(t) {
      CounterIsFresh(t);
    }
  }

  /** The current question moves on by one. The interview completes exactly when the
      answered question was its last one; otherwise the reply carries the question at the
      next position and the row keeps its status. */
  lemma RecordAdvances(t: Tables, iid: Id, qid: Id, text: string, e: Evaluation)
    requires iid in t.interviews
    ensures var (t', r) := Record(t, iid, qid, text, e);
      var before := t.interviews[iid];
      var next := before.currentQuestion + 1;
      && iid in t'.interviews
      && t'.interviews[iid].currentQuestion == next
      && t'.interviews[iid].userId == before.userId
      && t'.interviews[iid].totalQuestions == before.totalQuestions
      && (r.Finished? <==> next >= before.totalQuestions)
      && (r.Finished? ==> t'.interviews[iid].status == Completed)
      && (r.NextQuestion? ==>
            && t'.interviews[iid] == before.(currentQuestion := next)
            && r.nextQuestion == QuestionAt(t.questions, iid, next)
            && r.currentQuestion == next && r.totalQuestions == before.totalQuestions)
  {
  }

  /** On completion the final score, stored on the interview and returned, is the mean
      of all the interview's answers including the new one, and lies within 0..10. */
  lemma RecordFinalScore(t: Tables, iid: Id, qid: Id, text: string, e: Evaluation)
    requires TablesValid(t) && iid in t.interviews && 0 <= e.score <= 10
    ensures var (t', r) := Record(t, iid, qid, text, e);
      r.Finished? ==>
        var all := AnswersOf(t'.answers, iid);
        && all == AnswersOf(t.answers, iid) + [Answer(t.nextId, qid, iid, text, Some(e.score), e.Feedback())]
        && r.finalScore == MeanScore(all)
        && 0.0 <= r.finalScore <= 10.0
        && t'.interviews[iid].score == Some(r.finalScore)
  {
    var row := Answer(t.nextId, qid, iid, text, Some(e.score), e.Feedback());
    var answers := t.answers + [row];
    AnswersOfAppend(t.answers, row, iid);
    var all := AnswersOf(answers, iid);
    forall i | 0 <= i < |all| ensures ScoreInRange(all[i].score) {
      if all[i] != row {
        assert all[i] in answers;
        var j :| 0 <= j < |t.answers| && t.answers[j] == all[i];
        AnswersBelongAt(t.answers, t.interviews, t.nextId, j);
      }
    }
  }

  /** Completion is one-way and no current question moves back, for every interview. */
  lemma RecordProgresses(t: Tables, iid: Id, qid: Id, text: string, e: Evaluation)
    requires iid in t.interviews
    ensures Progressed(t.interviews, Record(t, iid, qid, text, e).0.interviews)
  {
  }

  /** The store's invariant survives recording an answer whose score is in range. */
  lemma RecordKeepsValid(t: Tables, iid: Id, qid: Id, text: string, e: Evaluation)
    requires TablesValid(t) && iid in t.interviews && 0 <= e.score <= 10
    ensures TablesValid(Record(t, iid, qid, text, e).0)
  {
    var row := Answer(t.nextId, qid, iid, text, Some(e.score), e.Feedback());
    var after := Record(t, iid, qid, text, e).0;
    AnswerThenStoreKeepsValid(t, row, iid, after.interviews[iid]);
  }

  /** Whatever the request, the handler keeps the store's invariant, never reopens a
      completed interview and never moves a current question back. */
  lemma SubmitProgresses(t: Tables, user: Option<UserId>, interviewId: Option<Id>, questionId: Option<Id>, answer: Option<string>)
    requires TablesValid(t)
    ensures var t' := Submit(t, user, interviewId, questionId, answer).0;
      TablesValid(t') && Progressed(t.interviews, t'.interviews)
  {
    SubmitChecksInOrder(t, user, interviewId, questionId, answer);
    if Submit(t, user, interviewId, questionId, answer).1.Accepted() {
      SubmitIsRecord(t, user, interviewId, questionId, answer);
      var e := EvaluateAnswer(FindQuestion(t.questions, questionId.value).value.questionText, answer.value);
      RecordProgresses(t, interviewId.value, questionId.value, answer.value, e);
      RecordKeepsValid(t, interviewId.value, questionId.value, answer.value, e);
    }
  }
}
