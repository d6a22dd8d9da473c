/** The distress scorer (backend/distress.py): classify every fragment,
    keep the confident negative ones, and report their share as a
    percentage rounded to two decimals. */
module Distress {
  import opened Sequences

  /** What the sentiment classifier says of one text. */
  datatype Sentiment = Sentiment(polarity: string, score: real)

  /** One entry of `analyze_sentiment`'s result: the text with its classification. */
  datatype SentimentResult = SentimentResult(report: string, polarity: string, score: real)

  /** The pretrained classifier applied to a batch of texts. It is a black box:
      every property below holds whatever function is passed. */
  type Analyzer = seq<string> -> seq<Sentiment>

  const Negative: string := "NEGATIVE"

  /** The default of `distress_threshold` and `threshold`. */
  const DefaultThreshold: real := 0.9

  /** Python's `zip(reports, sentiments)` turned into result records: it stops
      at the shorter of the two. */
  function Zip(reports: seq<string>, sentiments: seq<Sentiment>): (results: seq<SentimentResult>)
    ensures |results| == if |reports| <= |sentiments| then |reports| else |sentiments|
    ensures forall k :: 0 <= k < |results| ==>
              results[k] == SentimentResult(reports[k], sentiments[k].polarity, sentiments[k].score)
  {
    if reports == [] || sentiments == [] then []
    else [SentimentResult(reports[0], sentiments[0].polarity, sentiments[0].score)]
         + Zip(reports[1..], sentiments[1..])
  }

  /** `analyze_sentiment`: classify the batch and pair every text with its verdict. */
  function AnalyzeSentiment(analyzer: Analyzer, reports: seq<string>): (results: seq<SentimentResult>)
    ensures |results| <= |reports|
    ensures |analyzer(reports)| == |reports| ==>
              && |results| == |reports|
              && forall k :: 0 <= k < |results| ==>
                   && results[k].report == reports[k]
                   && results[k].polarity == analyzer(reports)[k].polarity
                   && results[k].score == analyzer(reports)[k].score
  {
    Zip(reports, analyzer(reports))
  }

  /** A distress signal: a NEGATIVE verdict at or above the threshold. */
  predicate IsDistressSignal(result: SentimentResult, threshold: real) {
    result.polarity == Negative && result.score >= threshold
  }

  /** `detect_distress_signals`: the distress signals among the results. */
  function DetectDistressSignals(results: seq<SentimentResult>, threshold: real): (signals: seq<SentimentResult>)
    ensures |signals| <= |results|
    ensures forall k :: 0 <= k < |signals| ==> IsDistressSignal(signals[k], threshold)
    ensures forall x :: multiset(signals)[x] == if IsDistressSignal(x, threshold) then multiset(results)[x] else 0
    ensures IsSubsequence(signals, results)
  {
    if results == [] then []
    else
      var rest := DetectDistressSignals(results[1..], threshold);
      assert results == [results[0]] + results[1..];
      if IsDistressSignal(results[0], threshold) then
        var signals := [results[0]] + rest;
        assert signals[0] == results[0] && signals[1..] == rest;
        signals
      else rest
  }

  /** Every input that is a distress signal is kept: a NEGATIVE verdict exactly
      at the threshold counts, and nothing but NEGATIVE verdicts does. */
  lemma DetectKeepsSignals(results: seq<SentimentResult>, threshold: real, k: nat)
    requires k < |results|
    ensures results[k] in DetectDistressSignals(results, threshold) <==>
              results[k].polarity == Negative && results[k].score >= threshold
  {
    var signals := DetectDistressSignals(results, threshold);
    assert results[k] in multiset(results);
    if IsDistressSignal(results[k], threshold) {
      assert multiset(signals)[results[k]] > 0;
    }
  }

  /** 10000 * count / total (hundredths of a percent) rounded to the nearest
      integer, halves to the even neighbour as Python's `round` does. */
  function RoundedHundredths(count: nat, total: nat): (h: int)
    requires total > 0
    ensures 2 * (h * total - 10000 * count) <= total
    ensures 2 * (10000 * count - h * total) <= total
    ensures 2 * (h * total - 10000 * count) == total || 2 * (10000 * count - h * total) == total ==> h % 2 == 0
  {
    var q := 10000 * count / total;
    var r := 10000 * count % total;
    assert 10000 * count == q * total + r;
    assert (q + 1) * total == q * total + total;
    if 2 * r < total || (2 * r == total && q % 2 == 0) then q else q + 1
  }

  lemma MulMonotone(a: int, b: int, t: nat)
    requires a <= b
    ensures a * t <= b * t
  {
  }

  /** With no more signals than reports the rounded share stays within 0..10000;
      all signals gives exactly 10000 and none gives 0. */
  lemma RoundedHundredthsRange(count: nat, total: nat)
    requires 0 < total
    ensures count <= total ==> 0 <= RoundedHundredths(count, total) <= 10000
    ensures count == total ==> RoundedHundredths(count, total) == 10000
    ensures count == 0 ==> RoundedHundredths(count, total) == 0
  {
    var h := RoundedHundredths(count, total);
    if h < 0 {
      MulMonotone(h, -1, total);
    }
    if count <= total && h > 10000 {
      MulMonotone(10001, h, total);
    }
    if count == total && h < 10000 {
      MulMonotone(h, 9999, total);
    }
    if count == total && h > 10000 {
      MulMonotone(10001, h, total);
    }
    if count == 0 && h > 0 {
      MulMonotone(1, h, total);
    }
  }

  /** More signals never give a smaller rounded share. */
  lemma RoundedHundredthsMonotone(c1: nat, c2: nat, total: nat)
    requires 0 < total && c1 <= c2
    ensures RoundedHundredths(c1, total) <= RoundedHundredths(c2, total)
  {
    var h1, h2 := RoundedHundredths(c1, total), RoundedHundredths(c2, total);
    // h1 > h2 would need two ties one apart, which cannot both round to even
    MulGap(h1, h2, total);
  }

  lemma MulGap(a: int, b: int, t: nat)
    ensures a >= b + 1 ==> a * t >= b * t + t
    ensures a >= b + 2 ==> a * t >= b * t + 2 * t
  {
    if a >= b + 1 {
      MulMonotone(b + 1, a, t);
    }
    if a >= b + 2 {
      MulMonotone(b + 2, a, t);
    }
  }

  /** A rounding of 10000 * count / total to within half a unit is, read as
      hundredths, within 0.005 of the exact percentage. */
  lemma HundredthsClose(h: int, count: nat, total: nat)
    requires 0 < total
    requires 2 * (h * total - 10000 * count) <= total
    requires 2 * (10000 * count - h * total) <= total
    ensures -0.005 <= h as real / 100.0 - 100.0 * (count as real) / (total as real) <= 0.005
  {
    var t := total as real;
    var d := (h * total - 10000 * count) as real;
    assert d == (h as real) * t - 10000.0 * (count as real);
    var gap := h as real / 100.0 - 100.0 * (count as real) / t;
    assert gap * (100.0 * t) == d;
    assert (gap - 0.005) * (100.0 * t) == d - 0.5 * t;
    assert (gap + 0.005) * (100.0 * t) == d + 0.5 * t;
    ProductSign(gap - 0.005, 100.0 * t);
    ProductSign(gap + 0.005, 100.0 * t);
  }

  /** Multiplying by a positive number keeps the sign. */
  lemma ProductSign(x: real, y: real)
    requires 0.0 < y
    ensures x * y <= 0.0 ==> x <= 0.0
    ensures x * y >= 0.0 ==> x >= 0.0
  {
  }

  /** `calculate_distress_percentage`: the share of distress signals among the
      reports as a percentage with two decimals, 0.0 when there are no reports. */
  function CalculateDistressPercentage(totalReports: nat, signals: seq<SentimentResult>): (pct: real)
    ensures totalReports == 0 ==> pct == 0.0
    ensures |signals| <= totalReports ==> 0.0 <= pct <= 100.0
    ensures 0 < totalReports == |signals| ==> pct == 100.0
    ensures signals == [] ==> pct == 0.0
    ensures 0 < totalReports ==>
              -0.005 <= pct - 100.0 * (|signals| as real) / (totalReports as real) <= 0.005
  {
    if totalReports == 0 then 0.0
    else
      var h := RoundedHundredths(|signals|, totalReports);
      RoundedHundredthsRange(|signals|, totalReports);
      HundredthsClose(h, |signals|, totalReports);
      h as real / 100.0
  }

  /** For a fixed number of reports the percentage does not decrease as signals are added. */
  lemma PercentageMonotone(totalReports: nat, fewer: seq<SentimentResult>, more: seq<SentimentResult>)
    requires |fewer| <= |more|
    ensures CalculateDistressPercentage(totalReports, fewer) <= CalculateDistressPercentage(totalReports, more)
  {
    if totalReports > 0 {
      RoundedHundredthsMonotone(|fewer|, |more|, totalReports);
    }
  }

  /** Two signals among four reports give exactly 50.0. */
  lemma PercentageOfFourIsExact(s1: SentimentResult, s2: SentimentResult)
    ensures CalculateDistressPercentage(4, [s1, s2]) == 50.0
  {
    assert RoundedHundredths(2, 4) == 5000;
  }

  /** Below 20000 reports the rounding cannot hide a signal or a miss: the
      percentage is 0.0 only when there is no signal and 100.0 only when every
      report is one. */
  lemma PercentageExtremesIff(totalReports: nat, signals: seq<SentimentResult>)
    requires |signals| <= totalReports < 20000
    ensures CalculateDistressPercentage(totalReports, signals) == 0.0 <==> signals == []
    ensures 0 < totalReports ==>
              (CalculateDistressPercentage(totalReports, signals) == 100.0 <==> |signals| == totalReports)
  {
    if totalReports > 0 {
      var c, t := |signals|, totalReports;
      var h := RoundedHundredths(c, t);
      RoundedHundredthsRange(c, t);
    }
  }

  /** From 20000 reports on, one signal among 20001 reports rounds to 0.0 ... */
  lemma RareSignalRoundsToZero(s: SentimentResult)
    ensures CalculateDistressPercentage(20001, [s]) == 0.0
  {
    assert RoundedHundredths(1, 20001) == 0;
  }

  /** ... and 20000 signals among 20001 reports round to 100.0. */
  lemma RareMissRoundsToHundred(s: SentimentResult)
    ensures CalculateDistressPercentage(20001, seq(20000, _ => s)) == 100.0
  {
    assert RoundedHundredths(20000, 20001) == 10000;
  }

  /** `main`: classify, filter and aggregate. The result is always a
      percentage, and 0.0 for an empty description. */
  function Main(analyzer: Analyzer, reports: seq<string>, threshold: real): (pct: real)
    ensures 0.0 <= pct <= 100.0
    ensures reports == [] ==> pct == 0.0
  {
    var results := AnalyzeSentiment(analyzer, reports);
    var signals := DetectDistressSignals(results, threshold);
    CalculateDistressPercentage(|reports|, signals)
  }

  /** There are never more distress signals than reports, whatever the
      classifier returns. */
  lemma SignalsBounded(analyzer: Analyzer, reports: seq<string>, threshold: real)
    ensures |DetectDistressSignals(AnalyzeSentiment(analyzer, reports), threshold)| <= |reports|
  {
  }

  /** A description with no NEGATIVE verdict scores 0.0. */
  lemma NoNegativeVerdictScoresZero(analyzer: Analyzer, reports: seq<string>, threshold: real)
    requires forall k :: 0 <= k < |analyzer(reports)| ==> analyzer(reports)[k].polarity != Negative
    ensures Main(analyzer, reports, threshold) == 0.0
  {
  }

  /** When the classifier answers once per text and every answer is a
      confident NEGATIVE, a non-empty description scores 100.0. */
  lemma AllNegativeScoresHundred(analyzer: Analyzer, reports: seq<string>, threshold: real)
    requires reports != [] && |analyzer(reports)| == |reports|
    requires forall k :: 0 <= k < |reports| ==>
               analyzer(reports)[k].polarity == Negative && analyzer(reports)[k].score >= threshold
    ensures Main(analyzer, reports, threshold) == 100.0
  {
    var results := AnalyzeSentiment(analyzer, reports);
    AllSignalsKept(results, threshold);
  }

  lemma {:induction false} AllSignalsKept(results: seq<SentimentResult>, threshold: real)
    requires forall k :: 0 <= k < |results| ==> IsDistressSignal(results[k], threshold)
    ensures DetectDistressSignals(results, threshold) == results
  {
    if results != [] {
      AllSignalsKept(results[1..], threshold);
      assert results == [results[0]] + results[1..];
    }
  }
}
