/** One report followed from submission to notification: a three-sentence
    narrative is split into fragments, two of which the classifier calls
    confidently negative, so the report scores 66.67 and becomes Urgent
    (though not high risk for the analytics page). */
module Scenario {
  import Segmenter
  import Distress
  import Reports
  import Analytics


  const Sentences: seq<string> := ["I was hurt", "I am scared", "The weather was nice"]

  /** "I was hurt. I am scared. The weather was nice." */
  const Narrative: string := Segmenter.Narration(Sentences)

  /** A classifier that answers the three fragments with two confident
      NEGATIVE verdicts and one POSITIVE one (and nothing for other batches). */
  const Classifier: Distress.Analyzer :=
    texts => if texts == Sentences then
               [Distress.Sentiment("NEGATIVE", 0.95), Distress.Sentiment("NEGATIVE", 0.93),
                Distress.Sentiment("POSITIVE", 0.99)]
             else []

  /** The narrative splits at each full stop; the spaces after the stops are
      stripped and the empty piece after the last stop is dropped. */
  lemma NarrativeSegments()
    ensures Segmenter.Segment(Narrative) == Sentences
  {
    assert Segmenter.IsFragment(Sentences[0]);
    assert Segmenter.IsFragment(Sentences[1]);
    assert Segmenter.IsFragment(Sentences[2]);
    Segmenter.NarrationSegments(Sentences);
  }

  /** Two signals among three fragments: 2/3 is 66.666…, rounded to 66.67. */
  lemma FragmentsScore()
    ensures Distress.Main(Classifier, Sentences, Distress.DefaultThreshold) == 66.67
  {
    var results := Distress.AnalyzeSentiment(Classifier, Sentences);
    assert results == [Distress.SentimentResult(Sentences[0], "NEGATIVE", 0.95),
                       Distress.SentimentResult(Sentences[1], "NEGATIVE", 0.93),
                       Distress.SentimentResult(Sentences[2], "POSITIVE", 0.99)];
    assert Distress.DetectDistressSignals(results[2..], Distress.DefaultThreshold) == [];
    assert Distress.DetectDistressSignals(results, Distress.DefaultThreshold) == results[..2];
    assert Distress.RoundedHundredths(2, 3) == 6667;
  }

  /** 66.67 is above the Urgent cutoff but not above the high-risk one. */
  lemma ScoreIsUrgentNotHighRisk()
    ensures Reports.StatusFor(66.67) == Reports.Urgent
    ensures Analytics.HighRiskLabel(66.67) == 0
  {
  }

  /** The report handler on an empty table: the report is stored under id 1
      and scoring it emits the urgent-report event carrying the stored row. */
  method SubmitNarrative() returns (event: Reports.Notification)
    ensures event.UrgentReport? && event.id == 1
    ensures event.snapshot.description == Sentences
    ensures event.snapshot.distressPercentage == 66.67 && event.snapshot.status == Reports.Urgent
  {
    var store := new Reports.ReportStore();
    var id, descriptionList := store.Submit("2025-02-02", "Home", "Physical", Narrative, "Victim", "2025-03-01 09:30:45");
    NarrativeSegments();
    FragmentsScore();
    event := store.ProcessDistressAndNotify(id, descriptionList, Classifier);
  }
}
