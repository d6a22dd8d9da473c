# Distress scoring and report status rules, modelled in Dafny

This project models the deterministic core of the Gender-Based Violence Prevention and Reporting System:

- **Segmentation.** A submitted incident narrative is split into sentence fragments.
- **Scoring.** Each fragment is classified by a sentiment model. The confident NEGATIVE verdicts are counted, and their share is the report's *distress percentage*, rounded to two decimals.
- **Status.** A percentage strictly above 60 makes a report `Urgent`, otherwise `Pending`. This happens when a score is written back, and again for every row when the database is set up.
- **Analytics.** The analytics page labels rows above 70 as high risk. For each high-risk location it proposes measures based on the location's most common incident type and mean distress.

Modules:

- `Sequences` holds the subsequence relation both filters are specified with.
- `Segmenter` covers the comprehension `[s.strip() for s in description.split('.') if s.strip()]`.
  - `Split` is Python's `str.split('.')`.
  - `Strip` is `str.strip()`, with the whitespace set of `str.isspace` written out in full.
  - `Fragments` is the filter over the stripped pieces.
  - `Segment` is the whole comprehension.
  - The main lemmas: `Split` and `Join` are mutually inverse, the fragments are exactly the non-blank stripped pieces in order, segmentation keeps every non-separator character in order, it yields nothing exactly for blank input, and it inverts writing fragments out as prose (`Narration`).
- `Distress` covers `backend/distress.py`.
  - The sentiment classifier is a parameter: a function from a batch of texts to a sequence of (label, score) verdicts. Nothing is assumed about it.
  - `round(x, 2)` is modelled exactly on the rational `100 * count / total`. The result is in integer hundredths, rounded to the nearest value with ties to even, as Python's `round` does.
- `Reports` covers the `reports` table.
  - The table is the class `ReportStore`: a map from report id to row plus the SERIAL counter.
  - Its methods are the startup backfill, the insert done by the report form, and the write-back done by `process_distress_and_notify`.
  - Each method is specified by a function on the map (`Backfilled`, `WrittenBack`). Lemmas about those functions state idempotence, agreement of the two status rules, and "no other row changes".
- `Analytics` covers the `high_risk` label and the preventive-measures loop of the analytics page.
- `Scenario` follows one narrative end to end: it is segmented, scored 66.67 with a fixed classifier, marked Urgent and announced.

## Model

| member | source | states |
|---|---|---|
| Segmenter.IsWhitespace | backend/app.py:117 | the character set `str.strip()` removes: space, tab, newline and carriage return are in it; the full stop, digits and ASCII letters are not |
| Segmenter.Split | backend/app.py:117 | `description.split('.')`: no piece contains a full stop |
| Segmenter.SplitCount | backend/app.py:117 | `split('.')` yields exactly one piece more than there are full stops |
| Segmenter.JoinSplit | backend/app.py:117 | rejoining the pieces with '.' gives back the narrative, so the split loses nothing |
| Segmenter.SplitJoin | backend/app.py:117 | splitting a '.'-join of stop-free pieces gives back those pieces |
| Segmenter.SplitAtTerminator | backend/app.py:117 | a stop-free prefix followed by a full stop becomes the first piece, and the rest splits on its own |
| Segmenter.SplitWithoutTerminator | backend/app.py:117 | text without a full stop is one piece |
| Segmenter.ContentAppend | backend/app.py:117 | the non-separator characters of a concatenation are those of its parts, in order |
| Segmenter.ContentEmpty | backend/app.py:117 | text has no non-separator character iff it consists of full stops and whitespace |
| Segmenter.TrimStart | backend/app.py:117 | `lstrip()`: the result is a suffix, everything removed is whitespace, and the result does not start with whitespace |
| Segmenter.TrimEnd | backend/app.py:117 | `rstrip()`: the result is a prefix, everything removed is whitespace, and the result does not end with whitespace |
| Segmenter.TrimStartContent | backend/app.py:117 | `lstrip()` keeps every character that is neither whitespace nor '.', in order |
| Segmenter.TrimEndContent | backend/app.py:117 | `rstrip()` keeps every character that is neither whitespace nor '.', in order |
| Segmenter.TrimBothKeepsMembers | backend/app.py:117 | `strip()` introduces no character the text does not have |
| Segmenter.TrimBothEmpty | backend/app.py:117 | `strip()` gives the empty string exactly for all-whitespace text |
| Segmenter.TrimBothInfix | backend/app.py:117 | `strip()` returns a contiguous slice of the text, and every character cut off either end is whitespace |
| Segmenter.Strip | backend/app.py:117 | `strip()`: a contiguous slice of the text with no whitespace at either end, empty iff the text is all whitespace, and no character other than whitespace or '.' lost |
| Segmenter.StripCutsEnds | backend/app.py:117 | `strip()` cuts only whitespace, and only from the two ends: the result is a slice of the text outside which every character is whitespace |
| Segmenter.StripTrimmed | backend/app.py:117 | `strip()` leaves already trimmed text unchanged |
| Segmenter.TrimStartPadded | backend/app.py:117 | `lstrip()` removes exactly a whitespace prefix in front of text that starts with non-whitespace |
| Segmenter.StripPadded | backend/app.py:117 | `strip()` of leading whitespace plus trimmed text is that text |
| Segmenter.Fragments | backend/app.py:117 | the filter keeps at most one fragment per piece, and each is non-empty, stop-free and trimmed |
| Segmenter.FragmentsFilterStripped | backend/app.py:117 | the fragments are the stripped pieces in their original order (a subsequence), each non-blank stripped piece kept as often as it occurs and every blank one dropped |
| Segmenter.Segment | backend/app.py:117 | every fragment of `description_list` is non-empty, contains no '.', and has no leading or trailing whitespace |
| Segmenter.SegmentFilter | backend/app.py:117 | `description_list` is the stripped '.'-pieces of the narrative in order, with exactly the blank ones dropped: one fragment per non-blank piece |
| Segmenter.SegmentCount | backend/app.py:117 | there are at most (number of full stops + 1) fragments |
| Segmenter.ContentJoin | backend/app.py:117 | joining pieces with '.' adds no non-separator character |
| Segmenter.ContentFragments | backend/app.py:117 | stripping and dropping blank pieces keeps every non-separator character in order |
| Segmenter.SegmentKeepsContent | backend/app.py:117 | the fragments, concatenated, hold exactly the narrative's non-separator characters in their original order |
| Segmenter.SegmentEmptyIff | backend/app.py:117 | the list is empty iff the narrative is empty, blank, or only full stops and whitespace |
| Segmenter.JoinLength | backend/app.py:117 | a '.'-join is as long as its pieces plus one stop between each pair |
| Segmenter.FragmentsLength | backend/app.py:117 | the fragments are together no longer than the pieces |
| Segmenter.SegmentLength | backend/app.py:117 | the fragments together are at most as long as the narrative minus its full stops |
| Segmenter.FragmentsOfBlank | backend/app.py:117 | a single piece made only of whitespace yields no fragment |
| Segmenter.WhitespaceHasNoTerminator | backend/app.py:117 | whitespace never contains the full stop |
| Segmenter.Pieces | backend/app.py:117 | the '.'-separated pieces of n sentences written out as prose number n + 1 (one per sentence and the empty tail); that `Split` returns them is `SplitJoin` |
| Segmenter.PiecesHaveNoTerminator | backend/app.py:117 | none of the pieces of prose contains a full stop |
| Segmenter.PiecesFragments | backend/app.py:117 | stripping and filtering the pieces of prose gives back exactly the sentences, in order |
| Segmenter.NarrationSegments | backend/app.py:117 | segmentation undoes narration: trimmed, non-empty, stop-free sentences written as "s1. s2. s3." come back unchanged and in order |
| Distress.Zip | backend/distress.py:12-15 | `zip` pairs the i-th text with the i-th verdict and stops at the shorter input |
| Distress.AnalyzeSentiment | backend/distress.py:10-16 | at most one result per text; when the classifier answers once per text, one result per text, in order, each with its own text, label and score |
| Distress.IsDistressSignal | backend/distress.py:19 | a distress signal is a NEGATIVE verdict whose score is at least the threshold (inclusive) |
| Distress.DetectDistressSignals | backend/distress.py:18-19 | every kept result is NEGATIVE with score ≥ threshold; each such input is kept with its multiplicity and nothing else is; the output is an order-preserving subsequence |
| Distress.DetectKeepsSignals | backend/distress.py:19 | an input result is in the output iff it is NEGATIVE with score ≥ threshold (so exactly at the threshold counts) |
| Distress.AllSignalsKept | backend/distress.py:19 | when every result is a signal, the filter returns its input unchanged |
| Distress.RoundedHundredths | backend/distress.py:25 | `round(count / total * 100, 2)` in hundredths: within half a hundredth of the exact value, ties to even |
| Distress.RoundedHundredthsRange | backend/distress.py:24-25 | with count ≤ total the rounded value is in 0..10000; count = total gives 10000 and count = 0 gives 0 |
| Distress.RoundedHundredthsMonotone | backend/distress.py:24-25 | more signals never round lower |
| Distress.CalculateDistressPercentage | backend/distress.py:21-25 | total 0 gives 0.0 with no division; with no more signals than reports the result is in [0, 100]; all signals give 100.0 and none give 0.0; otherwise the result is within 0.005 of the exact percentage 100 * signals / total |
| Distress.PercentageMonotone | backend/distress.py:24-25 | for a fixed total, the percentage is non-decreasing in the number of signals |
| Distress.PercentageOfFourIsExact | backend/distress.py:24-25 | two signals among four reports give exactly 50.0 |
| Distress.PercentageExtremesIff | backend/distress.py:22-25 | below 20000 reports, 0.0 iff there is no signal and 100.0 iff every report is one |
| Distress.RareSignalRoundsToZero | backend/distress.py:25 | one signal in 20001 reports rounds to 0.0 |
| Distress.RareMissRoundsToHundred | backend/distress.py:25 | 20000 signals in 20001 reports round to 100.0 |
| Distress.Main | backend/distress.py:27-32 | the score of a description is always a percentage in [0, 100], and 0.0 for an empty description |
| Distress.SignalsBounded | backend/distress.py:27-30 | there are never more signals than reports, whatever the classifier returns |
| Distress.NoNegativeVerdictScoresZero | backend/distress.py:18-32 | a description with no NEGATIVE verdict scores 0.0 |
| Distress.AllNegativeScoresHundred | backend/distress.py:18-32 | a non-empty description whose every verdict is a confident NEGATIVE scores 100.0 |
| Reports.StatusFor | backend/app.py:54 | Urgent iff distress > 60 and Pending iff distress ≤ 60, so exactly 60 is Pending |
| Reports.Backfilled | backend/app.py:52-55 | the backfill keeps every row, gives each the status its distress calls for, and changes nothing but the status |
| Reports.BackfillIdempotent | backend/app.py:52-55 | running the backfill twice equals running it once |
| Reports.BackfillFixesConsistent | backend/app.py:52-55 | on a table whose statuses already follow the rule, the backfill changes nothing |
| Reports.BackfillErasesReviewed | backend/app.py:52-55 | after the backfill no row is Reviewed, and a Reviewed row is changed |
| Reports.WrittenBack | backend/app.py:74-96 | the row gets the score, Urgent iff score > 60 and Pending otherwise, and nothing else of it changes; every other row is unchanged; a missing id changes nothing |
| Reports.WriteBackAgreesWithBackfill | backend/app.py:54-76 | on a table whose statuses already follow the rule, the write-back keeps them following it, so a later backfill leaves the table as it is |
| Reports.WriteBackKeepsRange | backend/app.py:74-75 | writing back a percentage keeps every stored distress in [0, 100] |
| Reports.PutKeepsInvariants | backend/app.py:125-131 | inserting a row whose status and distress follow the rules keeps both table invariants |
| Reports.ReportStore.constructor | backend/app.py:40-51 | the freshly created table is empty and its first SERIAL id is 1 |
| Reports.ReportStore.SetupDatabase | backend/app.py:52-55 | the table afterwards is the backfill of the table before, and the id counter is unchanged |
| Reports.ReportStore.Submit | backend/app.py:117-131 | the fragments handed on are the segmentation of the narrative; the row is stored under a fresh id, Pending with distress 0.0; no other row changes |
| Reports.ReportStore.ProcessDistressAndNotify | backend/app.py:66-99 | the table afterwards is the write-back of `main(description_list)`; the urgent-report event is emitted iff the row exists and its score > 60, carrying the row as stored; with no such row and a score > 60 the handler aborts at the `fetchone()` |
| Analytics.HighRiskLabel | backend/app.py:235 | the label is 0 or 1, and 1 iff distress > 70, so exactly 70 is not high risk |
| Analytics.HighRiskColumn | backend/app.py:235 | the column has one label per row, each computed from that row's distress |
| Analytics.HighRiskIsUrgent | backend/app.py:235 | on a consistent table every high-risk row is Urgent, and a row at exactly 70 is Urgent but not high risk |
| Analytics.BaseMeasures | backend/app.py:260-266 | two measures for Physical, Sexual, Emotional and Economic and none for any other type; never the rapid response team |
| Analytics.PlanOf | backend/app.py:260-274 | the plan keeps the type and mean, starts with the base measures, and ends with "Deploy rapid response team" iff the mean distress > 80 |
| Analytics.SharedMeasures | backend/app.py:260-266 | Physical and Sexual incidents call for the same measures; the Physical, Emotional and Economic lists differ pairwise |
| Analytics.PlansFor | backend/app.py:254-274 | the `preventive_measures` dictionary after the loop holds at most one entry per area visited |
| Analytics.PlansForKeys | backend/app.py:254-274 | every location visited gets an entry and there is no other key |
| Analytics.PlansForLastWins | backend/app.py:270-274 | a location's entry is the plan of the last area naming it |
| Analytics.PreventiveMeasures | backend/app.py:254-274 | the loop builds exactly the `preventive_measures` dictionary specified by `PlansFor` |
| Scenario.NarrativeSegments | backend/app.py:117 | "I was hurt. I am scared. The weather was nice." segments into its three sentences |
| Scenario.FragmentsScore | backend/distress.py:27-32 | two confident NEGATIVE verdicts among three fragments score 66.67 |
| Scenario.ScoreIsUrgentNotHighRisk | backend/app.py:235 | 66.67 is Urgent but not high risk |
| Scenario.SubmitNarrative | backend/app.py:105-136 | submitting the narrative to an empty table stores it under id 1 and emits the urgent-report event with distress 66.67 |

## Left out

- The web layer is not modelled. This covers Flask routes, templates, `flash` and `redirect`, the admin login, and the session checks.
- SQL is replaced by the map of rows. psycopg2 connections, transactions and commits are not modelled, and neither is the `CREATE TABLE` statement beyond its defaults (a SERIAL id, status 'Pending', distress 0.0).
- The description is stored as its list of fragments. `json.dumps` and `json.loads` are taken to be inverse.
- Dates are opaque strings. The submission time, `datetime.now()`, is a parameter of `Submit`.
- The background `Thread` is not modelled. `Scenario.SubmitNarrative` runs the insert and the scoring one after the other, so interleavings with other requests are not captured.
- The SocketIO transport and the `strftime` formatting of the emitted snapshot are not modelled. The event carries the stored row as a value.
- The transformers sentiment pipeline is the `Analyzer` parameter. The model and its tokenisation are not part of this model.
- Scores and percentages are exact reals. Floating-point behaviour of the scores, of the division and of the REAL column is not modelled. `round(·, 2)` is modelled on the exact quotient, not on the binary float Python rounds.
- The analytics page's data preparation is not modelled: the pandas frame, the label encoders, the random forest, the train/test split, the accuracy and `risk_probability`. The grouping into high-risk locations is not modelled either.
- `Analytics.PreventiveMeasures` receives each high-risk location's most common incident type and mean distress as inputs (`AreaStats`). It does not compute `value_counts().index[0]` or `mean()` from the table.
- Reports.ReportStore.ProcessDistressAndNotify: a classifier that raises is not modelled. The `Analyzer` parameter always answers, so the model always writes a score back. In the source, an exception from the sentiment pipeline (for instance on an over-long fragment) ends the background thread before the UPDATE; the row then stays Pending with distress 0.0 and no event is emitted.
- Analytics.PlanOf: stores the mean distress unrounded. The source stores `round(avg_distress, 2)` in `avg_distress`; the rounding does not affect the measures, which use the unrounded mean.
- The sample-data block, the commented-out helpers and `frontend/js/scripts.js` are not part of this model.
- Reports.BackfillErasesReviewed: this is stated as a consequence of the backfill, not as a defect. The backfill overwrites an admin's 'Reviewed' status on every start-up. Whether that is intended cannot be told from the code.
