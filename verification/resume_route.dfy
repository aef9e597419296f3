/**
 * `POST /api/resume/analyze`: validates an uploaded résumé, scores its text by
 * keyword coverage (`calculateATSScore`) and stores one `resume` row.
 */
module ResumeRoute {
  import opened Wrappers
  import opened Text
  import opened Store

  // ------------------------------------------------------------ keyword coverage

  /** `commonKeywords`. */
  const Keywords: seq<string> := [
    "experience", "skills", "education", "work", "project", "team", "management",
    "leadership", "communication", "problem-solving", "analytical", "technical"]

  /** No number lies in ranges that all start above it. */
  lemma {:induction false} BelowRanges(n: int, ranges: seq<(int, int)>)
    requires forall i :: 0 <= i < |ranges| ==> n < ranges[i].0
    ensures !InRanges(n, ranges)
  {
    if ranges != [] {
      BelowRanges(n, ranges[1..]);
    }
  }

  /** A printable ASCII character other than the space is not whitespace. */
  lemma PrintableCharNotSpace(c: char)
    requires 0x21 <= c as int <= 0x7E
    ensures !IsSpace(c)
  {
    var n := c as int;
    var rest := SpaceRanges[2..];
    assert forall i :: 0 <= i < |rest| ==> 0xA0 <= rest[i].0;
    BelowRanges(n, rest);
    assert SpaceRanges[1..][0] == (0x20, 0x20) && SpaceRanges[1..][1..] == rest;
    assert !InRanges(n, SpaceRanges[1..]);
  }

  /** Every keyword is a non-empty word without whitespace. */
  lemma KeywordsAreWords()
    ensures forall i :: 0 <= i < |Keywords| ==> Keywords[i] != [] && NoSpace(Keywords[i])
  {
    forall i | 0 <= i < |Keywords| ensures Keywords[i] != [] && NoSpace(Keywords[i]) {
      var k := Keywords[i];
      forall j | 0 <= j < |k| ensures !IsSpace(k[j]) {
        assert 'a' <= k[j] <= 'z' || k[j] == '-';
        PrintableCharNotSpace(k[j]);
      }
    }
  }

  /** `resumeWords.some(word => word.includes(keyword))`. */
  predicate SomeWordContains(words: seq<string>, keyword: string)
  {
    exists w :: w in words && Contains(w, keyword)
  }

  /** `commonKeywords.filter(keyword => resumeWords.some(...))`. */
  function MatchedKeywords(words: seq<string>, keywords: seq<string>): (matched: seq<string>)
    ensures |matched| <= |keywords|
    ensures forall k :: k in matched ==> k in keywords && SomeWordContains(words, k)
    ensures forall k :: k in keywords && SomeWordContains(words, k) ==> k in matched
  {
    if keywords == [] then []
    else if SomeWordContains(words, keywords[0]) then [keywords[0]] + MatchedKeywords(words, keywords[1..])
    else MatchedKeywords(words, keywords[1..])
  }

  /** `calculateATSScore(resumeText, jobDescription)`: the share of keywords matched, as a
      percentage capped at 100. The job description is not consulted. */
  function ATSScore(resumeText: string, jobDescription: Option<string>): (score: real)
    ensures 0.0 <= score <= 100.0
  {
    Percentage(|MatchedKeywords(Split(Lower(resumeText)), Keywords)|, |Keywords|)
  }

  /** `Math.min(100, (matched / total) * 100)`; the cap never applies to a share. */
  function Percentage(matched: nat, total: nat): (p: real)
    requires matched <= total && total > 0
    ensures p == matched as real * 100.0 / total as real
    ensures 0.0 <= p <= 100.0
  {
    ShareAtMostOne(matched as real, total as real);
    var ratio := (matched as real / total as real) * 100.0;
    if ratio <= 100.0 then ratio else 100.0
  }

  /** A part of a positive whole is a share between 0 and 1, and a hundred times that
      share is the same as a hundred times the part, over the whole. */
  lemma ShareAtMostOne(part: real, whole: real)
    requires whole > 0.0 && 0.0 <= part <= whole
    ensures 0.0 <= part / whole <= 1.0
    ensures (part / whole) * 100.0 == part * 100.0 / whole
  {
    var q := part / whole;
    var r := part * 100.0 / whole;
    assert q * whole == part;
    assert r * whole == part * 100.0;
    assert (q * 100.0) * whole == r * whole;
  }

  /** How many of `keywords` occur as substrings of `s`: the reference definition of coverage. */
  function CountContained(s: string, keywords: seq<string>): (n: nat)
    ensures n <= |keywords|
  {
    if keywords == [] then 0
    else (if Contains(s, keywords[0]) then 1 else 0) + CountContained(s, keywords[1..])
  }

  /** Matching against the split words is matching against the whole text. */
  lemma {:induction false} MatchedIsContained(s: string, keywords: seq<string>)
    requires forall i :: 0 <= i < |keywords| ==> keywords[i] != [] && NoSpace(keywords[i])
    ensures |MatchedKeywords(Split(s), keywords)| == CountContained(s, keywords)
  {
    if keywords != [] {
      assert forall i :: 0 <= i < |keywords[1..]| ==> keywords[1..][i] == keywords[i + 1];
      SplitContains(s, keywords[0]);
      MatchedIsContained(s, keywords[1..]);
    }
  }

  /** The score is 100·k/12, where k counts the keywords occurring in the lower-cased text. */
  lemma ATSScoreIsCoverage(resumeText: string, jobDescription: Option<string>)
    ensures ATSScore(resumeText, jobDescription) == CountContained(Lower(resumeText), Keywords) as real * 100.0 / 12.0
  {
    KeywordsMatchedInText(Lower(resumeText));
  }

  /** Matching the listed keywords against the words of `s` counts those occurring in `s`. */
  lemma KeywordsMatchedInText(s: string)
    ensures |MatchedKeywords(Split(s), Keywords)| == CountContained(s, Keywords)
  {
    KeywordsAreWords();
    MatchedIsContained(s, Keywords);
  }

  /** All keywords present is exactly a full score; none present is exactly zero. */
  lemma {:induction false} CountContainedExtremes(s: string, keywords: seq<string>)
    ensures CountContained(s, keywords) == |keywords| <==> forall i :: 0 <= i < |keywords| ==> Contains(s, keywords[i])
    ensures CountContained(s, keywords) == 0 <==> forall i :: 0 <= i < |keywords| ==> !Contains(s, keywords[i])
  {
    if keywords != [] {
      CountContainedExtremes(s, keywords[1..]);
      assert forall i :: 1 <= i < |keywords| ==> keywords[i] == keywords[1..][i - 1];
    }
  }

  lemma ATSScoreExtremes(resumeText: string, jobDescription: Option<string>)
    ensures ATSScore(resumeText, jobDescription) == 100.0
        <==> forall i :: 0 <= i < |Keywords| ==> Contains(Lower(resumeText), Keywords[i])
    ensures ATSScore(resumeText, jobDescription) == 0.0
        <==> forall i :: 0 <= i < |Keywords| ==> !Contains(Lower(resumeText), Keywords[i])
  {
    ATSScoreIsCoverage(resumeText, jobDescription);
    CountContainedExtremes(Lower(resumeText), Keywords);
  }

  /** Upper and lower case score alike. */
  lemma ATSScoreIgnoresCase(resumeText: string, jobDescription: Option<string>)
    ensures ATSScore(Lower(resumeText), jobDescription) == ATSScore(resumeText, jobDescription)
  {
    LowerIdempotent(resumeText);
  }

  /** The job description has no influence on the score. */
  lemma ATSScoreIgnoresJobDescription(resumeText: string, jd1: Option<string>, jd2: Option<string>)
    ensures ATSScore(resumeText, jd1) == ATSScore(resumeText, jd2)
  {
  }

  /** Coverage can only grow when every keyword found in `s` is also found in `t`. */
  lemma {:induction false} CountContainedMonotone(s: string, t: string, keywords: seq<string>)
    requires forall k :: k in keywords && Contains(s, k) ==> Contains(t, k)
    ensures CountContained(s, keywords) <= CountContained(t, keywords)
  {
    if keywords != [] {
      CountContainedMonotone(s, t, keywords[1..]);
    }
  }

  /** Appending text to a résumé never lowers its score. */
  lemma ATSScoreAppendMonotone(resumeText: string, more: string, jobDescription: Option<string>)
    ensures ATSScore(resumeText, jobDescription) <= ATSScore(resumeText + more, jobDescription)
  {
    var s, t := Lower(resumeText), Lower(resumeText + more);
    LowerAppend(resumeText, more);
    forall k | k in Keywords && Contains(s, k) ensures Contains(t, k) {
      ContainsAppend(s, Lower(more), k);
    }
    CountContainedMonotone(s, t, Keywords);
    ATSScoreIsCoverage(resumeText, jobDescription);
    ATSScoreIsCoverage(resumeText + more, jobDescription);
  }

  // ------------------------------------------------------------ the route

  const PdfType := "application/pdf"
  const DocxType := "application/vnd.openxmlformats-officedocument.wordprocessingml.document"

  /** `allowedTypes`. */
  const AllowedTypes: seq<string> := [PdfType, DocxType]

  /** `maxSize`: 10 MiB. */
  const MaxSize := 10 * 1024 * 1024

  /** The uploaded `file` form field. */
  datatype Upload = Upload(name: string, mimeType: string, size: nat)

  /** What `pdf-parse` or `mammoth` made of the file: the raw text, or an exception. */
  datatype Extraction = ParseFailed | Extracted(text: string)

  /** The route's replies. */
  datatype ResumeResponse =
    | Unauthorized
    | NoFile
    | UnsupportedType
    | TooLarge
    | Unreadable
    | NoText
    | Analyzed(id: Id, atsScore: real, feedback: string, filename: string)
  {
    function HttpStatus(): int
    {
      match this
      case Unauthorized => 401
      case Analyzed(_, _, _, _) => 200
      case _ => 400
    }
  }

  /** Everything after validation: one `resume` row holding the text, its score and the
      feedback, and the reply echoing them. `now` stands for `Date.now()`. */
  function Save(t: Tables, user: UserId, upload: Upload, text: string, score: real, now: int, feedback: string)
    : (r: (Tables, ResumeResponse))
    ensures r.1.Analyzed? && r.1.id == t.nextId && r.1.atsScore == score && r.0.nextId == t.nextId + 1
    ensures |r.0.resumes| == |t.resumes| + 1 && r.0.resumes[|t.resumes|].atsScore == score
  {
    (t.(resumes := t.resumes + [Resume(t.nextId, user, now, upload.name, text, score, feedback)], nextId := t.nextId + 1),
     Analyzed(t.nextId, score, feedback, upload.name))
  }

  /** The handler as a function of the tables it finds. `user` is the verified token's user,
      `extraction` what the parser for the file's type produced, and `feedback` the text
      `generateAIFeedback` returns. */
  function Analyze(t: Tables, user: Option<UserId>, file: Option<Upload>, jobDescription: Option<string>,
                   extraction: Extraction, now: int, feedback: string): (r: (Tables, ResumeResponse))
    ensures r.1.Analyzed? <==>
      && user.Some? && file.Some? && file.value.mimeType in AllowedTypes && file.value.size <= MaxSize
      && extraction.Extracted? && Trim(extraction.text) != []
    ensures !r.1.Analyzed? ==> r.0 == t
    ensures r.1.Analyzed? ==>
      && r.1.atsScore == ATSScore(extraction.text, jobDescription) && 0.0 <= r.1.atsScore <= 100.0
      && |r.0.resumes| == |t.resumes| + 1
  {
    if user.None? then (t, Unauthorized)
    else if file.None? then (t, NoFile)
    else if file.value.mimeType !in AllowedTypes then (t, UnsupportedType)
    else if file.value.size > MaxSize then (t, TooLarge)
    else if extraction.ParseFailed? then (t, Unreadable)
    else if Trim(extraction.text) == [] then (t, NoText)
    else Save(t, user.value, file.value, extraction.text, ATSScore(extraction.text, jobDescription), now, feedback)
  }

  /** The handler, updating the store in place. */
  method AnalyzeResume(db: Database, user: Option<UserId>, file: Option<Upload>, jobDescription: Option<string>,
                       extraction: Extraction, now: int, feedback: string) returns (resp: ResumeResponse)
    requires db.Valid()
    modifies db
    ensures (db.Contents(), resp) == Analyze(old(db.Contents()), user, file, jobDescription, extraction, now, feedback)
    ensures db.Valid()
  {
    if user.None? {
      return Unauthorized;
    }
    if file.None? {
      return NoFile;
    }
    var upload := file.value;
    if upload.mimeType !in AllowedTypes {
      return UnsupportedType;
    }
    if upload.size > MaxSize {
      return TooLarge;
    }
    var resumeText := "";
    match extraction {
      case ParseFailed =>
        return Unreadable;
      case Extracted(text) =>
        resumeText := text;
    }
    if Trim(resumeText) == [] {
      return NoText;
    }
    var atsScore := ATSScore(resumeText, jobDescription);
    resp := SaveResume(db, user.value, upload, resumeText, atsScore, now, feedback);
  }

  /** The handler from the score on: `resume.create` and the reply. */
  method SaveResume(db: Database, user: UserId, upload: Upload, text: string, score: real, now: int, feedback: string)
    returns (resp: ResumeResponse)
    requires db.Valid()
    modifies db
    ensures (db.Contents(), resp) == Save(old(db.Contents()), user, upload, text, score, now, feedback)
    ensures db.Valid()
  {
    var id := db.CreateResume(user, now, upload.name, text, score, feedback);
    resp := Analyzed(id, score, feedback, upload.name);
  }

  // ------------------------------------------------------------ properties of the route

  /** The checks run in the handler's order, each failure is a 401 or 400, and a rejected
      upload leaves the store as it was; blank text means whitespace only. */
  lemma AnalyzeChecksInOrder(t: Tables, user: Option<UserId>, file: Option<Upload>, jobDescription: Option<string>,
                             extraction: Extraction, now: int, feedback: string)
    ensures var (t', r) := Analyze(t, user, file, jobDescription, extraction, now, feedback);
      && (r.Unauthorized? <==> user.None?)
      && (r.NoFile? <==> user.Some? && file.None?)
      && (r.UnsupportedType? <==> user.Some? && file.Some? && file.value.mimeType !in AllowedTypes)
      && (r.TooLarge? <==>
            user.Some? && file.Some? && file.value.mimeType in AllowedTypes && file.value.size > MaxSize)
      && (r.Unreadable? <==>
            user.Some? && file.Some? && file.value.mimeType in AllowedTypes && file.value.size <= MaxSize
            && extraction.ParseFailed?)
      && (r.NoText? <==>
            user.Some? && file.Some? && file.value.mimeType in AllowedTypes && file.value.size <= MaxSize
            && extraction.Extracted? && AllSpace(extraction.text))
      && (r.HttpStatus() == 200 <==> r.Analyzed?)
      && (!r.Analyzed? ==> t' == t && r.HttpStatus() in {400, 401})
  {
    if extraction.Extracted? {
      TrimEmptyIff(extraction.text);
    }
  }

  /** An accepted upload is analysed and saved with the score of its extracted text. */
  lemma AnalyzeIsSave(t: Tables, user: Option<UserId>, file: Option<Upload>, jobDescription: Option<string>,
                      extraction: Extraction, now: int, feedback: string)
    requires Analyze(t, user, file, jobDescription, extraction, now, feedback).1.Analyzed?
    ensures user.Some? && file.Some? && extraction.Extracted? && !AllSpace(extraction.text)
    ensures Analyze(t, user, file, jobDescription, extraction, now, feedback)
         == Save(t, user.value, file.value, extraction.text, ATSScore(extraction.text, jobDescription), now, feedback)
  {
    TrimEmptyIff(extraction.text);
  }

  /** Saving creates exactly one résumé row under the counter, an id no stored résumé has
      in a valid store, whose stored score, name and
      feedback are the ones the reply reports; nothing else changes. */
  lemma SaveStoresReportedScore(t: Tables, user: UserId, upload: Upload, text: string, score: real, now: int,
                                feedback: string)
    ensures var (t', r) := Save(t, user, upload, text, score, now, feedback);
      && r.Analyzed? && r.id == t.nextId && t'.nextId == t.nextId + 1
      && |t'.resumes| == |t.resumes| + 1
      && (forall i :: 0 <= i < |t.resumes| ==> t'.resumes[i] == t.resumes[i])
      && (var row := t'.resumes[|t.resumes|];
          row.id == r.id && row.userId == user && row.atsScore == r.atsScore && row.originalName == r.filename
          && row.content == text && row.feedback == r.feedback)
      && t'.interviews == t.interviews && t'.questions == t.questions && t'.answers == t.answers
    ensures TablesValid(t) ==>
      forall i :: 0 <= i < |t.resumes| ==> t.resumes[i].id != Save(t, user, upload, text, score, now, feedback).1.id
  {
    if TablesValid(t) {
      CounterIsFresh(t);
    }
  }

  /** The store's invariant survives the handler. */
  lemma AnalyzeKeepsValid(t: Tables, user: Option<UserId>, file: Option<Upload>, jobDescription: Option<string>,
                          extraction: Extraction, now: int, feedback: string)
    requires TablesValid(t)
    ensures TablesValid(Analyze(t, user, file, jobDescription, extraction, now, feedback).0)
  {
    if Analyze(t, user, file, jobDescription, extraction, now, feedback).1.Analyzed? {
      AnalyzeIsSave(t, user, file, jobDescription, extraction, now, feedback);
      SaveKeepsValid(t, user.value, file.value, extraction.text, ATSScore(extraction.text, jobDescription), now, feedback);
    }
  }

  /** Saving a résumé under the counter keeps the store's invariant. */
  lemma SaveKeepsValid(t: Tables, user: UserId, upload: Upload, text: string, score: real, now: int, feedback: string)
    requires TablesValid(t)
    ensures TablesValid(Save(t, user, upload, text, score, now, feedback).0)
  {
    CounterKeepsValid(t, t.nextId + 1);
    ResumesBelowAppend(t.resumes, Resume(t.nextId, user, now, upload.name, text, score, feedback), t.nextId + 1);
  }
}
