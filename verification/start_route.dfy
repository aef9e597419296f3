/**
 * `POST /api/interview/start`: normalises the requested category and question
 * count, creates an interview shell, sources its questions from the model's
 * reply or, failing that, from the question bank, stores them and records how
 * many there are.
 */
module StartRoute {
  import opened Wrappers
  import opened Text
  import opened Store

  // ------------------------------------------------------------ category

  /** The five entries of `CATEGORY_HINT`. */
  datatype Theme = Communication | Technical | Coding | Personality | General

  /** The key each entry is stored under (also its `tag`). */
  function ThemeKey(theme: Theme): string
  {
    match theme
    case Communication => "communication"
    case Technical => "technical"
    case Coding => "coding"
    case Personality => "personality"
    case General => "general"
  }

  /** The entry's `prompt`: the guidance sentence put into the request to the model. */
  function Guidance(theme: Theme): string
  {
    match theme
    case Communication =>
      "Focus on behavioral and communication scenarios, STAR-style prompts, teamwork, conflict resolution, stakeholder communication."
    case Technical =>
      "Focus on systems, web/backend fundamentals, databases, REST/GraphQL, OS/networking basics, CS concepts relevant to software engineering interviews."
    case Coding =>
      "Focus on DSA coding interview style (arrays, strings, hash maps, two pointers, sliding window, trees, graphs, DP). Avoid language-specific boilerplate."
    case Personality =>
      "Focus on personality, values, motivation, leadership, growth mindset, self-awareness, and culture fit."
    case General =>
      "Mix of common campus placement interview questions for engineering graduates: light technical fundamentals, communication, situational judgement, career intent."
  }

  /** `CATEGORY_HINT[category]?.prompt ?? CATEGORY_HINT.general.prompt`: the entry stored
      under the category, or the general one for any other string. */
  function ThemeFor(category: string): (theme: Theme)
    ensures theme != General ==> ThemeKey(theme) == category
  {
    if category == "communication" then Communication
    else if category == "technical" then Technical
    else if category == "coding" then Coding
    else if category == "personality" then Personality
    else General
  }

  /** Looking up an entry's own key finds that entry. */
  lemma ThemeKeyRoundTrip(theme: Theme)
    ensures ThemeFor(ThemeKey(theme)) == theme
  {
  }

  /** `(rawCategory || "general").toString().toLowerCase()`; `None` stands for a missing or
      otherwise falsy value. */
  function NormalizeCategory(raw: Option<string>): (category: string)
    ensures raw.None? || raw.value == [] ==> category == "general"
    ensures raw.Some? && raw.value != [] ==> category == Lower(raw.value)
  {
    if raw.None? || raw.value == [] then "general" else Lower(raw.value)
  }

  /** The normalised category is already lower case, so upper-case letters in the request
      never select a different entry. */
  lemma CategoryIgnoresCase(raw: string)
    ensures NormalizeCategory(Some(Lower(raw))) == NormalizeCategory(Some(raw))
    ensures Lower(NormalizeCategory(Some(raw))) == NormalizeCategory(Some(raw))
  {
    LowerIdempotent(raw);
  }

  // ------------------------------------------------------------ count

  const DefaultCount := 6

  /** What `Number(count)` can produce; fractional values are not modelled. */
  datatype JsNumber = NaN | Finite(value: int) | PositiveInfinity | NegativeInfinity

  /** `Math.min(Math.max(Number(count) || DEFAULT_COUNT, 3), 12)`: a falsy number (NaN or
      zero) becomes 6, and the result is clamped into 3..12. */
  function QuestionCount(n: JsNumber): (count: nat)
    ensures 3 <= count <= 12
    ensures n.Finite? && 3 <= n.value <= 12 ==> count == n.value
    ensures n.NaN? || n == Finite(0) ==> count == DefaultCount
    ensures (n.Finite? && n.value != 0 && n.value < 3) || n.NegativeInfinity? ==> count == 3
    ensures (n.Finite? && n.value > 12) || n.PositiveInfinity? ==> count == 12
  {
    match n
    case NaN => DefaultCount
    case PositiveInfinity => 12
    case NegativeInfinity => 3
    case Finite(v) => if v == 0 then DefaultCount else Min(Max(v, 3), 12)
  }

  // ------------------------------------------------------------ the model's reply

  /** `completion.choices?.[0]?.message?.content?.trim() || "[]"`; `None`: no content. */
  function ReplyText(content: Option<string>): (raw: string)
    ensures raw != []
    ensures content.Some? && Trim(content.value) != [] ==> raw == Trim(content.value)
    ensures content.None? || Trim(content.value) == [] ==> raw == "[]"
  {
    if content.Some? && Trim(content.value) != [] then Trim(content.value) else "[]"
  }

  /** The index of the first `c` in `s`. */
  function FirstIndex(s: string, c: char): (r: Option<nat>)
    ensures r.None? <==> c !in s
    ensures r.Some? ==> r.value < |s| && s[r.value] == c && forall k :: 0 <= k < r.value ==> s[k] != c
  {
    if s == [] then None
    else if s[0] == c then Some(0)
    else match FirstIndex(s[1..], c)
      case None => None
      case Some(i) => Some(i + 1)
  }

  /** The index of the last `c` in `s`. */
  function LastIndex(s: string, c: char): (r: Option<nat>)
    ensures r.None? <==> c !in s
    ensures r.Some? ==> r.value < |s| && s[r.value] == c && forall k :: r.value < k < |s| ==> s[k] != c
  {
    if s == [] then None
    else if s[|s| - 1] == c then Some(|s| - 1)
    else
      assert forall k :: 0 <= k < |s| - 1 ==> s[..|s| - 1][k] == s[k];
      LastIndex(s[..|s| - 1], c)
  }

  /** Where `/\[[\s\S]*\]/` matches: from the first `[` to the last `]`, when that `]` comes
      after it. A match exists exactly when some `[` precedes some `]`. */
  function ArraySpan(raw: string): (r: Option<(nat, nat)>)
    ensures r.Some? <==> exists i, j :: 0 <= i < j < |raw| && raw[i] == '[' && raw[j] == ']'
    ensures r.Some? ==>
      && r.value.0 < r.value.1 < |raw| && raw[r.value.0] == '[' && raw[r.value.1] == ']'
      && (forall k :: 0 <= k < r.value.0 ==> raw[k] != '[')
      && (forall k :: r.value.1 < k < |raw| ==> raw[k] != ']')
  {
    var first, last := FirstIndex(raw, '['), LastIndex(raw, ']');
    if first.Some? && last.Some? && first.value < last.value then Some((first.value, last.value)) else None
  }

  /** `json ? json[0] : "[]"`: the text handed to `JSON.parse`, always bracketed. */
  function ExtractArray(raw: string): (json: string)
    ensures ArraySpan(raw).Some? ==> json == raw[ArraySpan(raw).value.0..ArraySpan(raw).value.1 + 1]
    ensures ArraySpan(raw).None? ==> json == "[]"
    ensures |json| >= 2 && json[0] == '[' && json[|json| - 1] == ']'
  {
    match ArraySpan(raw)
    case None => "[]"
    case Some((i, j)) => raw[i..j + 1]
  }

  // ------------------------------------------------------------ normalisation

  /** `filter(q => typeof q?.questionText === "string" && q.questionText.trim().length > 0)`,
      keeping each text as it was; an entry is `None` when its `questionText` is not a string. */
  function ValidTexts(entries: seq<Option<string>>): (texts: seq<string>)
    ensures |texts| <= |entries|
    ensures forall i :: 0 <= i < |texts| ==> Trim(texts[i]) != []
    ensures forall t :: t in texts ==> Some(t) in entries && Trim(t) != []
    ensures forall t :: Some(t) in entries && Trim(t) != [] ==> t in texts
  {
    if entries == [] then []
    else if entries[0].Some? && Trim(entries[0].value) != [] then [entries[0].value] + ValidTexts(entries[1..])
    else ValidTexts(entries[1..])
  }

  /** The filter keeps the entries' order: filtering a concatenation filters each part. */
  lemma {:induction false} ValidTextsAppend(e1: seq<Option<string>>, e2: seq<Option<string>>)
    ensures ValidTexts(e1 + e2) == ValidTexts(e1) + ValidTexts(e2)
  {
    if e1 == [] {
      assert e1 + e2 == e2;
    } else {
      assert (e1 + e2)[0] == e1[0] && (e1 + e2)[1..] == e1[1..] + e2;
      ValidTextsAppend(e1[1..], e2);
    }
  }

  /** `map((q, idx) => ({ questionText: q.trim(), order: first + idx, category }))`. */
  function Numbered(texts: seq<string>, first: nat, category: string): (qs: seq<NewQuestion>)
    ensures |qs| == |texts|
    ensures forall i :: 0 <= i < |texts| ==> qs[i] == NewQuestion(Trim(texts[i]), first + i, category)
    ensures forall i :: 0 <= i < |texts| ==> Trim(qs[i].questionText) == qs[i].questionText
  {
    if texts == [] then []
    else
      TrimIdempotent(texts[0]);
      [NewQuestion(Trim(texts[0]), first, category)] + Numbered(texts[1..], first + 1, category)
  }

  /** The questions `generateQuestionsWithAI` builds from the parsed entries: the valid ones,
      at most `count`, trimmed, numbered from 0, under the requested category. */
  function Normalize(entries: seq<Option<string>>, count: nat, category: string): (qs: seq<NewQuestion>)
    ensures |qs| == Min(count, |ValidTexts(entries)|)
    ensures forall i :: 0 <= i < |qs| ==> qs[i] == NewQuestion(Trim(ValidTexts(entries)[i]), i, category)
    ensures forall i :: 0 <= i < |qs| ==> qs[i].questionText != [] && Trim(qs[i].questionText) == qs[i].questionText
  {
    var valid := ValidTexts(entries);
    var kept := valid[..Min(count, |valid|)];
    assert forall i :: 0 <= i < |kept| ==> kept[i] == valid[i];
    Numbered(kept, 0, category)
  }

  /** The outcome of the request to the model: it threw, or it replied with optional content. */
  datatype AiReply = CallFailed | Replied(content: Option<string>)

  /** `generateQuestionsWithAI(category, count)`; `None` where it throws: the call fails,
      `parse` (standing for `JSON.parse`) rejects the extracted text, or no question survives
      normalisation. */
  function Generate(category: string, count: nat, reply: AiReply, parse: string -> Option<seq<Option<string>>>)
    : (r: Option<seq<NewQuestion>>)
    ensures r.Some? <==>
      && reply.Replied?
      && parse(ExtractArray(ReplyText(reply.content))).Some?
      && Normalize(parse(ExtractArray(ReplyText(reply.content))).value, count, category) != []
    ensures r.Some? ==> r.value == Normalize(parse(ExtractArray(ReplyText(reply.content))).value, count, category)
  {
    match reply
    case CallFailed => None
    case Replied(content) =>
      match parse(ExtractArray(ReplyText(content)))
      case None => None
      case Some(entries) =>
        var qs := Normalize(entries, count, category);
        if qs == [] then None else Some(qs)
  }

  // ------------------------------------------------------------ question bank

  /** A `questionBank` row; its `category` is nullable. */
  datatype BankRow = BankRow(question: string, category: Option<string>)

  /** `findMany({ where: { category } })`: the rows tagged with exactly that category, in order. */
  function MatchingRows(bank: seq<BankRow>, category: string): (rows: seq<BankRow>)
    ensures |rows| <= |bank|
    ensures forall r :: r in rows ==> r in bank && r.category == Some(category)
    ensures forall r :: r in bank && r.category == Some(category) ==> r in rows
  {
    if bank == [] then []
    else if bank[0].category == Some(category) then [bank[0]] + MatchingRows(bank[1..], category)
    else MatchingRows(bank[1..], category)
  }

  /** `pool.map((q, idx) => ({ questionText: q.question, order: first + idx, category: q.category ?? category }))`. */
  function BankQuestions(rows: seq<BankRow>, first: nat, category: string): (qs: seq<NewQuestion>)
    ensures |qs| == |rows|
    ensures forall i :: 0 <= i < |rows| ==>
      qs[i] == NewQuestion(rows[i].question, first + i, rows[i].category.GetOr(category))
  {
    if rows == [] then []
    else [NewQuestion(rows[0].question, first, rows[0].category.GetOr(category))]
         + BankQuestions(rows[1..], first + 1, category)
  }

  /** `fallbackFromQuestionBank(category, count)` over a bank listed newest first: up to
      `count` rows of the category, or, if there are none, up to `count` rows of the whole bank. */
  function Fallback(bank: seq<BankRow>, category: string, count: nat): (qs: seq<NewQuestion>)
    ensures |qs| <= count
    ensures forall i :: 0 <= i < |qs| ==> qs[i].order == i
    ensures MatchingRows(bank, category) != [] && count > 0 ==>
      && |qs| == Min(count, |MatchingRows(bank, category)|)
      && forall i :: 0 <= i < |qs| ==> qs[i] == NewQuestion(MatchingRows(bank, category)[i].question, i, category)
    ensures MatchingRows(bank, category) == [] || count == 0 ==>
      && |qs| == Min(count, |bank|)
      && forall i :: 0 <= i < |qs| ==> qs[i] == NewQuestion(bank[i].question, i, bank[i].category.GetOr(category))
  {
    var matching := MatchingRows(bank, category);
    var primary := matching[..Min(count, |matching|)];
    var pool := if primary != [] then primary else bank[..Min(count, |bank|)];
    assert forall i :: 0 <= i < |primary| ==> primary[i] == matching[i] && matching[i] in matching;
    BankQuestions(pool, 0, category)
  }

  /** The rows of a category keep the bank's order: filtering two stretches of the bank one
      after the other gives the filter of the two together. */
  lemma {:induction false} MatchingRowsAppend(front: seq<BankRow>, back: seq<BankRow>, category: string)
    ensures MatchingRows(front + back, category) == MatchingRows(front, category) + MatchingRows(back, category)
  {
    if front == [] {
      assert front + back == back;
    } else {
      assert (front + back)[0] == front[0];
      assert (front + back)[1..] == front[1..] + back;
      MatchingRowsAppend(front[1..], back, category);
    }
  }

  /** When `JSON.parse("[]")` gives the empty array, a failed call, a missing or blank reply,
      and a reply with no `[` before a `]` all end in the question bank. */
  lemma NoArrayFallsBack(category: string, count: nat, reply: AiReply,
                         parse: string -> Option<seq<Option<string>>>, bank: seq<BankRow>)
    requires parse("[]") == Some([])
    requires || reply.CallFailed? || reply.content.None? || Trim(reply.content.value) == []
             || ArraySpan(Trim(reply.content.value)).None?
    ensures ChooseQuestions(category, count, reply, parse, bank) == Fallback(bank, category, count)
  {
    if reply.Replied? {
      var raw := ReplyText(reply.content);
      if ArraySpan(raw).Some? {
        assert raw == "[]";
        assert FirstIndex(raw, '[') == Some(0);
        assert LastIndex(raw, ']') == Some(1);
        assert raw[0..2] == raw;
      }
      assert ExtractArray(raw) == "[]";
      assert ValidTexts([]) == [];
    }
  }

  /** A non-empty bank always yields some question. */
  lemma FallbackNonEmpty(bank: seq<BankRow>, category: string, count: nat)
    requires bank != [] && count > 0
    ensures Fallback(bank, category, count) != []
  {
  }

  /** `try { generateQuestionsWithAI } catch { fallbackFromQuestionBank }`. */
  function ChooseQuestions(category: string, count: nat, reply: AiReply,
                           parse: string -> Option<seq<Option<string>>>, bank: seq<BankRow>): (qs: seq<NewQuestion>)
    ensures |qs| <= count
    ensures forall i :: 0 <= i < |qs| ==> qs[i].order == i
    ensures Generate(category, count, reply, parse).Some? ==> qs == Generate(category, count, reply, parse).value
    ensures Generate(category, count, reply, parse).None? ==> qs == Fallback(bank, category, count)
  {
    match Generate(category, count, reply, parse)
    case Some(generated) => generated
    case None => Fallback(bank, category, count)
  }

  // ------------------------------------------------------------ the route

  /** The route's replies: 401, or the new interview with its first question. */
  datatype StartResponse =
    | Unauthorized
    | Started(interviewId: Id, firstQuestion: Option<Question>, totalQuestions: nat, currentQuestion: int, category: string)

  /** The kind every interview started here gets. */
  const TextKind := "text"

  /** Everything after authentication, for the category and questions already chosen:
      the interview shell under a fresh id, its question rows, the question count written
      back, and the question at position 0 looked up. */
  function Open(t: Tables, user: UserId, category: string, qs: seq<NewQuestion>): (r: (Tables, StartResponse))
    ensures r.1.Started? && r.1.interviewId == t.nextId && r.1.interviewId in r.0.interviews
    ensures r.1.totalQuestions == |qs| == |r.0.questions| - |t.questions| && r.1.currentQuestion == 0
    ensures r.1.category == category && r.0.nextId == t.nextId + 1 + |qs|
  {
    var t' := Opened(t, user, qs);
    (t', Started(t.nextId, QuestionAt(t'.questions, t.nextId, 0), |qs|, 0, category))
  }

  /** The tables `Open` leaves: the shell stored under the counter and then rewritten with
      the question count, and one question row per question with the ids after it. */
  function Opened(t: Tables, user: UserId, qs: seq<NewQuestion>): Tables
  {
    var iid := t.nextId;
    var shell := Interview(user, TextKind, Active, 0, 0, None);
    Tables(t.interviews[iid := shell][iid := shell.(totalQuestions := |qs|)], t.questions + QuestionRows(qs, iid, iid + 1),
           t.answers, t.resumes, iid + 1 + |qs|)
  }

  /** The handler as a function of the tables it finds. `user` is the verified token's user,
      `count` the value of `Number(count)`, `reply` the model's answer, `parse` stands for
      `JSON.parse` on an array, and `bank` is the question bank listed newest first. */
  function Start(t: Tables, user: Option<UserId>, rawCategory: Option<string>, count: JsNumber, reply: AiReply,
                 parse: string -> Option<seq<Option<string>>>, bank: seq<BankRow>): (r: (Tables, StartResponse))
    ensures user.None? <==> r == (t, Unauthorized)
    ensures user.Some? ==>
      && r.1.Started? && r.1.category == NormalizeCategory(rawCategory)
      && r.1.totalQuestions <= QuestionCount(count) <= 12
      && |r.0.questions| == |t.questions| + r.1.totalQuestions
  {
    if user.None? then (t, Unauthorized)
    else
      var category := NormalizeCategory(rawCategory);
      Open(t, user.value, category, ChooseQuestions(category, QuestionCount(count), reply, parse, bank))
  }

  /** The handler, updating the store in place. */
  method StartInterview(db: Database, user: Option<UserId>, rawCategory: Option<string>, count: JsNumber,
                        reply: AiReply, parse: string -> Option<seq<Option<string>>>, bank: seq<BankRow>)
    returns (resp: StartResponse)
    requires db.Valid()
    modifies db
    ensures (db.Contents(), resp) == Start(old(db.Contents()), user, rawCategory, count, reply, parse, bank)
    ensures db.Valid()
  {
    if user.None? {
      return Unauthorized;
    }
    var category := NormalizeCategory(rawCategory);
    var numQuestions := QuestionCount(count);
    var questions: seq<NewQuestion>;
    var generated := Generate(category, numQuestions, reply, parse);
    if generated.Some? {
      questions := generated.value;
    } else {
      questions := Fallback(bank, category, numQuestions);
    }
    resp := OpenInterview(db, user.value, category, questions);
  }

  /** Creates the shell, inserts the questions, records their number, reads the first back. */
  method OpenInterview(db: Database, user: UserId, category: string, qs: seq<NewQuestion>) returns (resp: StartResponse)
    requires db.Valid()
    modifies db
    ensures (db.Contents(), resp) == Open(old(db.Contents()), user, category, qs)
    ensures db.Valid()
  {
    ghost var t := db.Contents();
    var shell := Interview(user, TextKind, Active, 0, 0, None);
    var iid := db.CreateInterview(shell);
    db.CreateQuestions(iid, qs);
    db.UpdateInterview(iid, shell.(totalQuestions := |qs|));
    assert db.Contents() == Opened(t, user, qs);
    var firstQuestion := QuestionAt(db.questions, iid, 0);
    resp := Started(iid, firstQuestion, |qs|, 0, category);
  }

  // ------------------------------------------------------------ properties of the route

  /** Without a user nothing is created; with one, the rest of the handler is `Open` on the
      normalised category, the clamped count and the chosen questions. */
  lemma StartIsOpen(t: Tables, user: Option<UserId>, rawCategory: Option<string>, count: JsNumber,
                    reply: AiReply, parse: string -> Option<seq<Option<string>>>, bank: seq<BankRow>)
    ensures var (t', r) := Start(t, user, rawCategory, count, reply, parse, bank);
      && (user.None? <==> r.Unauthorized?)
      && (user.None? ==> t' == t)
      && (user.Some? ==>
            var qs := ChooseQuestions(NormalizeCategory(rawCategory), QuestionCount(count), reply, parse, bank);
            && |qs| <= QuestionCount(count)
            && (forall i :: 0 <= i < |qs| ==> qs[i].order == i)
            && (t', r) == Open(t, user.value, NormalizeCategory(rawCategory), qs))
  {
  }

  /** Exactly one interview is created, under a fresh id, active, at question 0, owned by the
      user, and the reply echoes the category and the number of questions. */
  lemma OpenCreatesInterview(t: Tables, user: UserId, category: string, qs: seq<NewQuestion>)
    requires TablesValid(t)
    ensures var (t', r) := Open(t, user, category, qs);
      && r.Started? && r.interviewId !in t.interviews
      && t'.interviews == t.interviews[r.interviewId := Interview(user, TextKind, Active, 0, r.totalQuestions, None)]
      && r.currentQuestion == 0 && r.category == category && r.totalQuestions == |qs|
      && t'.answers == t.answers && t'.resumes == t.resumes
  {
  }

  /** The interview's question rows follow the existing ones, one per question, in order,
      all belonging to the new interview, with consecutive ids after the interview's own; in a
      valid store those ids are above every existing question id. */
  lemma OpenAppendsQuestions(t: Tables, user: UserId, category: string, qs: seq<NewQuestion>)
    requires forall i :: 0 <= i < |qs| ==> qs[i].order == i
    ensures var (t', r) := Open(t, user, category, qs);
      && |t'.questions| == |t.questions| + |qs|
      && (forall i :: 0 <= i < |t.questions| ==> t'.questions[i] == t.questions[i])
      && (forall i :: |t.questions| <= i < |t'.questions| ==>
            t'.questions[i].interviewId == r.interviewId && t'.questions[i].order == i - |t.questions|
            && t'.questions[i].questionText == qs[i - |t.questions|].questionText
            && t'.questions[i].category == qs[i - |t.questions|].category
            && t'.questions[i].id == r.interviewId + 1 + (i - |t.questions|))
      && (TablesValid(t) ==>
            forall i, j :: 0 <= i < |t.questions| <= j < |t'.questions| ==> t.questions[i].id < t'.questions[j].id)
  {
    var t' := Opened(t, user, qs);
    var rows := QuestionRows(qs, t.nextId, t.nextId + 1);
    assert t'.questions == t.questions + rows;
    forall i | |t.questions| <= i < |t'.questions|
      ensures t'.questions[i] == rows[i - |t.questions|]
    {
    }
    if TablesValid(t) {
      CounterIsFresh(t);
      forall i, j | 0 <= i < |t.questions| <= j < |t'.questions|
        ensures t.questions[i].id < t'.questions[j].id
      {
        assert t'.questions[j] == rows[j - |t.questions|];
      }
    }
  }

  /** The first question returned is the new interview's first row, or none when no
      question was found anywhere. */
  lemma OpenFirstQuestion(t: Tables, user: UserId, category: string, qs: seq<NewQuestion>)
    requires TablesValid(t)
    requires forall i :: 0 <= i < |qs| ==> qs[i].order == i
    ensures var (t', r) := Open(t, user, category, qs);
      && (qs == [] ==> r.firstQuestion.None?)
      && (qs != [] ==> |t'.questions| > |t.questions| && r.firstQuestion == Some(t'.questions[|t.questions|]))
  {
    var iid := t.nextId;
    var rows := QuestionRows(qs, iid, iid + 1);
    forall i | 0 <= i < |t.questions| ensures t.questions[i].interviewId != iid {
      QuestionsBelongAt(t.questions, t.interviews, t.nextId, i);
    }
    QuestionAtSkips(t.questions, rows, iid, 0);
    if rows != [] {
      assert QuestionAt(rows, iid, 0) == Some(rows[0]);
      assert (t.questions + rows)[|t.questions|] == rows[0];
    }
  }

  /** The store's invariant survives the handler. */
  lemma OpenKeepsValid(t: Tables, user: UserId, category: string, qs: seq<NewQuestion>)
    requires TablesValid(t)
    ensures TablesValid(Open(t, user, category, qs).0)
  {
    var iid := t.nextId;
    var shell := Interview(user, TextKind, Active, 0, 0, None);
    CreateWithQuestionRowsKeepsValid(t, shell, shell.(totalQuestions := |qs|), qs);
    assert TablesValid(Opened(t, user, qs));
  }

  /** The store's invariant survives the whole handler. */
  lemma StartKeepsValid(t: Tables, user: Option<UserId>, rawCategory: Option<string>, count: JsNumber,
                        reply: AiReply, parse: string -> Option<seq<Option<string>>>, bank: seq<BankRow>)
    requires TablesValid(t)
    ensures TablesValid(Start(t, user, rawCategory, count, reply, parse, bank).0)
  {
    if user.Some? {
      var category := NormalizeCategory(rawCategory);
      OpenKeepsValid(t, user.value, category, ChooseQuestions(category, QuestionCount(count), reply, parse, bank));
    }
  }
}
