/**
 * The history page's derived figures: the average interview score, the number
 * of completed interviews, and the colour tiers for interview and ATS scores.
 */
module History {
  import opened Wrappers

  /** An `InterviewRecord` as the page lists it; `score` is nullable. */
  datatype InterviewRecord = InterviewRecord(kind: string, status: string, score: Option<real>)

  const CompletedStatus := "completed"

  /** `i.status === 'completed' && i.score !== null`. */
  predicate Counted(r: InterviewRecord)
  {
    r.status == CompletedStatus && r.score.Some?
  }

  /** The scores of the counted records, in order (the `filter` followed by `i.score || 0`). */
  function CountedScores(records: seq<InterviewRecord>): (scores: seq<real>)
    ensures |scores| <= |records|
    ensures scores == [] <==> forall i :: 0 <= i < |records| ==> !Counted(records[i])
    ensures forall i :: 0 <= i < |records| && Counted(records[i]) ==> records[i].score.value in scores
  {
    if records == [] then []
    else if Counted(records[0]) then [records[0].score.value] + CountedScores(records[1..])
    else CountedScores(records[1..])
  }

  /** Filtering a concatenation filters each part. */
  lemma {:induction false} CountedScoresAppend(a: seq<InterviewRecord>, b: seq<InterviewRecord>)
    ensures CountedScores(a + b) == CountedScores(a) + CountedScores(b)
  {
    if a == [] {
      assert a + b == b;
    } else {
      assert (a + b)[0] == a[0] && (a + b)[1..] == a[1..] + b;
      CountedScoresAppend(a[1..], b);
    }
  }

  function Sum(xs: seq<real>): real
  {
    if xs == [] then 0.0 else xs[0] + Sum(xs[1..])
  }

  /** `calculateAverageScore()`: the mean of the counted scores, or 0 when there are none. */
  function AverageScore(records: seq<InterviewRecord>): (avg: real)
    ensures CountedScores(records) == [] ==> avg == 0.0
  {
    var scores := CountedScores(records);
    if scores == [] then 0.0 else Sum(scores) / |scores| as real
  }

  lemma {:induction false} SumAtLeast(xs: seq<real>, lo: real)
    requires forall i :: 0 <= i < |xs| ==> lo <= xs[i]
    ensures |xs| as real * lo <= Sum(xs)
  {
    if xs != [] {
      assert forall i :: 0 <= i < |xs[1..]| ==> xs[1..][i] == xs[i + 1];
      SumAtLeast(xs[1..], lo);
    }
  }

  lemma {:induction false} SumAtMost(xs: seq<real>, hi: real)
    requires forall i :: 0 <= i < |xs| ==> xs[i] <= hi
    ensures Sum(xs) <= |xs| as real * hi
  {
    if xs != [] {
      assert forall i :: 0 <= i < |xs[1..]| ==> xs[1..][i] == xs[i + 1];
      SumAtMost(xs[1..], hi);
    }
  }

  /** Dividing by a positive count keeps a total's bounds per part. */
  lemma QuotientWithin(total: real, n: real, lo: real, hi: real)
    requires n > 0.0 && n * lo <= total <= n * hi
    ensures lo <= total / n <= hi
  {
    var q := total / n;
    assert q * n == total;
  }

  /** Dividing by a positive count keeps the sign of the total. */
  lemma QuotientSign(total: real, n: real)
    requires n > 0.0
    ensures total / n <= 0.0 <==> total <= 0.0
  {
    var q := total / n;
    assert q * n == total;
  }

  /** The mean of values within `lo..hi` is within `lo..hi`. */
  lemma MeanWithin(xs: seq<real>, lo: real, hi: real)
    requires xs != []
    requires forall i :: 0 <= i < |xs| ==> lo <= xs[i] <= hi
    ensures lo <= Sum(xs) / |xs| as real <= hi
  {
    SumAtLeast(xs, lo);
    SumAtMost(xs, hi);
    QuotientWithin(Sum(xs), |xs| as real, lo, hi);
  }

  /** If every counted score lies within `lo..hi`, so does the average; in particular the
      average lies between the least and the greatest counted score. */
  lemma AverageWithinScores(records: seq<InterviewRecord>, lo: real, hi: real)
    requires CountedScores(records) != []
    requires forall i :: 0 <= i < |CountedScores(records)| ==> lo <= CountedScores(records)[i] <= hi
    ensures lo <= AverageScore(records) <= hi
  {
    MeanWithin(CountedScores(records), lo, hi);
  }

  /** A record that is not completed, or has no score, does not move the average. */
  lemma AverageIgnoresUncounted(records: seq<InterviewRecord>, r: InterviewRecord)
    requires !Counted(r)
    ensures AverageScore(records + [r]) == AverageScore(records)
    ensures AverageScore([r] + records) == AverageScore(records)
  {
    CountedScoresAppend(records, [r]);
    CountedScoresAppend([r], records);
    assert [r][1..] == [];
    assert CountedScores(records) + CountedScores([r]) == CountedScores(records);
    assert CountedScores([r]) + CountedScores(records) == CountedScores(records);
  }

  /** A sum of non-negative values is zero exactly when every value is zero. */
  lemma {:induction false} SumZeroIff(xs: seq<real>)
    requires forall i :: 0 <= i < |xs| ==> 0.0 <= xs[i]
    ensures Sum(xs) <= 0.0 <==> forall i :: 0 <= i < |xs| ==> xs[i] == 0.0
  {
    if xs != [] {
      var tail := xs[1..];
      assert forall i :: 0 <= i < |tail| ==> tail[i] == xs[i + 1];
      SumZeroIff(tail);
      SumAtLeast(tail, 0.0);
    }
  }

  /** What the "Average Score" card shows. */
  datatype AverageDisplay = NotAvailable | Shown(average: real)

  /** `calculateAverageScore() > 0 ? … : 'N/A'`. */
  function AverageCard(records: seq<InterviewRecord>): (d: AverageDisplay)
    ensures d.NotAvailable? <==> AverageScore(records) <= 0.0
    ensures d.Shown? ==> d.average == AverageScore(records)
  {
    var avg := AverageScore(records);
    if avg > 0.0 then Shown(avg) else NotAvailable
  }

  /** With non-negative scores, the card reads N/A exactly when no score counts or every
      counted score is zero. */
  lemma NotAvailableIff(records: seq<InterviewRecord>)
    requires forall i :: 0 <= i < |CountedScores(records)| ==> 0.0 <= CountedScores(records)[i]
    ensures AverageCard(records).NotAvailable?
        <==> forall i :: 0 <= i < |CountedScores(records)| ==> CountedScores(records)[i] == 0.0
  {
    var scores := CountedScores(records);
    if scores != [] {
      SumZeroIff(scores);
      QuotientSign(Sum(scores), |scores| as real);
      assert AverageScore(records) == Sum(scores) / (|scores| as real);
      assert AverageCard(records).NotAvailable? <==> Sum(scores) <= 0.0;
      assert (forall i :: 0 <= i < |scores| ==> scores[i] == 0.0) <==> Sum(scores) <= 0.0;
    }
  }

  /** `interviews.filter(i => i.status === 'completed').length`. */
  function CompletedCount(records: seq<InterviewRecord>): (n: nat)
    ensures n <= |records|
    ensures n == 0 <==> forall i :: 0 <= i < |records| ==> records[i].status != CompletedStatus
    ensures n == |records| <==> forall i :: 0 <= i < |records| ==> records[i].status == CompletedStatus
  {
    if records == [] then 0
    else (if records[0].status == CompletedStatus then 1 else 0) + CompletedCount(records[1..])
  }

  /** Counting a concatenation counts each part; a single record counts one exactly when
      it is completed. */
  lemma {:induction false} CompletedCountAppend(a: seq<InterviewRecord>, b: seq<InterviewRecord>)
    ensures CompletedCount(a + b) == CompletedCount(a) + CompletedCount(b)
    ensures forall r :: CompletedCount([r]) == if r.status == CompletedStatus then 1 else 0
  {
    if a == [] {
      assert a + b == b;
    } else {
      assert (a + b)[0] == a[0] && (a + b)[1..] == a[1..] + b;
      CompletedCountAppend(a[1..], b);
    }
    forall r: InterviewRecord ensures CompletedCount([r]) == if r.status == CompletedStatus then 1 else 0 {
      assert [r][1..] == [];
    }
  }

  /** Completed interviews without a score are counted as completed but not averaged. */
  lemma {:induction false} CountedAmongCompleted(records: seq<InterviewRecord>)
    ensures |CountedScores(records)| <= CompletedCount(records)
    ensures |CountedScores(records)| == CompletedCount(records)
        <==> forall i :: 0 <= i < |records| && records[i].status == CompletedStatus ==> records[i].score.Some?
  {
    if records != [] {
      CountedAmongCompleted(records[1..]);
      assert forall i :: 1 <= i < |records| ==> records[i] == records[1..][i - 1];
    }
  }

  // ------------------------------------------------------------ tiers

  /** The three colour bands. */
  datatype Tier = Red | Yellow | Green

  function Rank(t: Tier): nat
  {
    match t
    case Red => 0
    case Yellow => 1
    case Green => 2
  }

  /** The band of an interview score on the 0..10 scale: at least 8, at least 6, or below. */
  function ScoreTier(score: real): (t: Tier)
    ensures t == Green <==> score >= 8.0
    ensures t == Yellow <==> 6.0 <= score < 8.0
    ensures t == Red <==> score < 6.0
  {
    if score >= 8.0 then Green else if score >= 6.0 then Yellow else Red
  }

  /** A higher score never falls in a lower band. */
  lemma ScoreTierMonotone(a: real, b: real)
    requires a <= b
    ensures Rank(ScoreTier(a)) <= Rank(ScoreTier(b))
  {
  }

  function TextClass(t: Tier): string
  {
    match t
    case Green => "text-green-600"
    case Yellow => "text-yellow-600"
    case Red => "text-red-600"
  }

  function BackgroundClass(t: Tier): string
  {
    match t
    case Green => "bg-green-100"
    case Yellow => "bg-yellow-100"
    case Red => "bg-red-100"
  }

  /** `getScoreColor(score)`. */
  function ScoreColor(score: real): (c: string)
    ensures c == TextClass(ScoreTier(score))
  {
    if score >= 8.0 then "text-green-600"
    else if score >= 6.0 then "text-yellow-600"
    else "text-red-600"
  }

  /** `getScoreBackground(score)`: the same bands as `getScoreColor`. */
  function ScoreBackground(score: real): (c: string)
    ensures c == BackgroundClass(ScoreTier(score))
  {
    if score >= 8.0 then "bg-green-100"
    else if score >= 6.0 then "bg-yellow-100"
    else "bg-red-100"
  }

  /** The band of an ATS score on the 0..100 scale: at least 80, at least 60, or below. */
  function AtsTier(atsScore: real): (t: Tier)
    ensures t == Green <==> atsScore >= 80.0
    ensures t == Yellow <==> 60.0 <= atsScore < 80.0
    ensures t == Red <==> atsScore < 60.0
  {
    if atsScore >= 80.0 then Green else if atsScore >= 60.0 then Yellow else Red
  }

  /** The ATS bands are the interview bands scaled by ten. */
  lemma AtsTierIsScaledScoreTier(atsScore: real)
    ensures AtsTier(atsScore) == ScoreTier(atsScore / 10.0)
  {
  }

  /** The class the résumé list gives an ATS score. */
  function AtsColor(atsScore: real): (c: string)
    ensures c == TextClass(AtsTier(atsScore))
  {
    if atsScore >= 80.0 then "text-green-600"
    else if atsScore >= 60.0 then "text-yellow-600"
    else "text-red-600"
  }
}
