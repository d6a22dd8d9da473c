/** The reports table and the rules that set a report's status
    (backend/app.py: setup_database, process_distress_and_notify and the
    submission handler). The table is a map from report id to row. */
module Reports {
  import Segmenter
  import Distress

  datatype Status = Pending | Urgent | Reviewed

  /** One row of the `reports` table, without its id (the map key). */
  datatype Report = Report(
    incidentDate: string,
    location: string,
    incidentType: string,
    description: seq<string>,
    witnessRole: string,
    submissionDate: string,
    status: Status,
    distressPercentage: real)

  /** A report is Urgent when its distress percentage is strictly above this. */
  const UrgentCutoff: real := 60.0

  /** The status both the write-back and the startup backfill derive from a
      distress percentage. */
  function StatusFor(distress: real): (status: Status)
    ensures status == Urgent <==> distress > UrgentCutoff
    ensures status == Pending <==> distress <= UrgentCutoff
  {
    if distress > UrgentCutoff then Urgent else Pending
  }

  /** Every row's status is the one its distress percentage calls for. */
  predicate StatusConsistent(rows: map<nat, Report>) {
    forall id :: id in rows ==> rows[id].status == StatusFor(rows[id].distressPercentage)
  }

  /** Every row's distress percentage is a percentage. */
  predicate DistressInRange(rows: map<nat, Report>) {
    forall id :: id in rows ==> 0.0 <= rows[id].distressPercentage <= 100.0
  }

  /** `a` and `b` differ at most in their status. */
  predicate SameButStatus(a: Report, b: Report) {
    a.(status := b.status) == b
  }

  /** `a` and `b` differ at most in their status and distress percentage. */
  predicate SameButScore(a: Report, b: Report) {
    a.(status := b.status, distressPercentage := b.distressPercentage) == b
  }

  /** The table after the startup statement
      `UPDATE reports SET status = CASE WHEN distress_percentage > 60 THEN 'Urgent' ELSE 'Pending' END`. */
  function Backfilled(rows: map<nat, Report>): (updated: map<nat, Report>)
    ensures updated.Keys == rows.Keys
    ensures StatusConsistent(updated)
    ensures forall id :: id in rows ==> SameButStatus(updated[id], rows[id])
  {
    map id | id in rows :: rows[id].(status := StatusFor(rows[id].distressPercentage))
  }

  /** Running the backfill twice is the same as running it once. */
  lemma BackfillIdempotent(rows: map<nat, Report>)
    ensures Backfilled(Backfilled(rows)) == Backfilled(rows)
  {
    BackfillFixesConsistent(Backfilled(rows));
  }

  /** On a table whose statuses already follow the rule the backfill changes nothing. */
  lemma BackfillFixesConsistent(rows: map<nat, Report>)
    requires StatusConsistent(rows)
    ensures Backfilled(rows) == rows
  {
    forall id | id in rows
      ensures Backfilled(rows)[id] == rows[id]
    {
      assert SameButStatus(Backfilled(rows)[id], rows[id]);
    }
  }

  /** The backfill overwrites a manually set Reviewed status: afterwards no row is Reviewed. */
  lemma BackfillErasesReviewed(rows: map<nat, Report>, id: nat)
    requires id in rows
    ensures Backfilled(rows)[id].status != Reviewed
    ensures rows[id].status == Reviewed ==> Backfilled(rows)[id] != rows[id]
  {
  }

  /** The table after `process_distress_and_notify` has stored score `pct` for
      report `id`: the distress percentage is set, then the status follows
      `pct > 60`. Without such a row both UPDATE statements touch nothing. */
  function WrittenBack(rows: map<nat, Report>, id: nat, pct: real): (updated: map<nat, Report>)
    ensures updated.Keys == rows.Keys
    ensures id in rows ==>
              && updated[id].distressPercentage == pct
              && (updated[id].status == Urgent <==> pct > UrgentCutoff)
              && (updated[id].status == Pending <==> pct <= UrgentCutoff)
              && SameButScore(updated[id], rows[id])
    ensures forall other :: other in rows && other != id ==> updated[other] == rows[other]
  {
    if id !in rows then rows
    else
      var scored := rows[id := rows[id].(distressPercentage := pct)];
      if pct > UrgentCutoff then scored[id := scored[id].(status := Urgent)]
      else scored[id := scored[id].(status := Pending)]
  }

  /** A freshly scored row gets the status the backfill would give it, so a
      restart after scoring leaves a consistent table as it is. */
  lemma WriteBackAgreesWithBackfill(rows: map<nat, Report>, id: nat, pct: real)
    requires StatusConsistent(rows)
    ensures StatusConsistent(WrittenBack(rows, id, pct))
    ensures Backfilled(WrittenBack(rows, id, pct)) == WrittenBack(rows, id, pct)
  {
    var updated := WrittenBack(rows, id, pct);
    forall other | other in updated
      ensures updated[other].status == StatusFor(updated[other].distressPercentage)
    {
      if other != id {
        assert updated[other] == rows[other];
      }
    }
    BackfillFixesConsistent(updated);
  }

  /** Writing back a percentage keeps every stored distress in 0..100. */
  lemma WriteBackKeepsRange(rows: map<nat, Report>, id: nat, pct: real)
    requires DistressInRange(rows) && 0.0 <= pct <= 100.0
    ensures DistressInRange(WrittenBack(rows, id, pct))
  {
    var updated := WrittenBack(rows, id, pct);
    forall other | other in updated
      ensures 0.0 <= updated[other].distressPercentage <= 100.0
    {
      if other != id {
        assert updated[other] == rows[other];
      }
    }
  }

  /** Storing a row whose status and distress follow the rules keeps the table's invariants. */
  lemma PutKeepsInvariants(rows: map<nat, Report>, id: nat, row: Report)
    ensures StatusConsistent(rows) && row.status == StatusFor(row.distressPercentage) ==>
              StatusConsistent(rows[id := row])
    ensures DistressInRange(rows) && 0.0 <= row.distressPercentage <= 100.0 ==>
              DistressInRange(rows[id := row])
  {
  }

  /** What `process_distress_and_notify` ends with. */
  datatype Notification =
    | UrgentReport(id: nat, snapshot: Report)  // 'new_urgent_report' emitted with the row as stored
    | NoEvent                                  // the score was at most 60
    | Aborted                                  // score above 60 but no such row: fetchone() gave None

  /** The `reports` table with its SERIAL id counter. */
  class ReportStore {
    var rows: map<nat, Report>
    var nextId: nat

    ghost predicate Valid()
      reads this
    {
      0 < nextId && forall id :: id in rows ==> 0 < id < nextId
    }

    /** An empty table whose first SERIAL id is 1. */
    constructor ()
      ensures Valid() && rows == map[] && nextId == 1
    {
      rows := map[];
      nextId := 1;
    }

    /** `setup_database` on an existing table: the status backfill. */
    method SetupDatabase()
      requires Valid()
      modifies this
      ensures Valid() && nextId == old(nextId)
      ensures rows == Backfilled(old(rows))
    {
      rows := Backfilled(rows);
    }

    /** The POST branch of `/report` up to the insert: segment the narrative and
        store the report unscored (distress 0.0, status left at its default
        'Pending'). Returns the generated id and the fragments handed to the
        scorer. */
    method Submit(incidentDate: string, location: string, incidentType: string,
                  description: string, witnessRole: string, submissionDate: string)
      returns (id: nat, descriptionList: seq<string>)
      requires Valid()
      modifies this
      ensures Valid()
      ensures descriptionList == Segmenter.Segment(description)
      ensures id == old(nextId) && id !in old(rows) && nextId == old(nextId) + 1
      ensures rows == old(rows)[id := Report(incidentDate, location, incidentType, descriptionList,
                                             witnessRole, submissionDate, Pending, 0.0)]
      ensures StatusConsistent(old(rows)) ==> StatusConsistent(rows)
      ensures DistressInRange(old(rows)) ==> DistressInRange(rows)
    {
      descriptionList := Segmenter.Segment(description);
      id := nextId;
      var row := Report(incidentDate, location, incidentType, descriptionList,
                        witnessRole, submissionDate, Pending, 0.0);
      PutKeepsInvariants(rows, id, row);
      rows := rows[id := row];
      nextId := nextId + 1;
    }

    /** `process_distress_and_notify`: score the fragments with the default
        threshold, store the score and the status it calls for, and emit the
        stored row when the report is urgent. */
    method ProcessDistressAndNotify(id: nat, descriptionList: seq<string>, analyzer: Distress.Analyzer)
      returns (event: Notification)
      requires Valid()
      modifies this
      ensures Valid() && nextId == old(nextId)
      ensures rows == WrittenBack(old(rows), id, Distress.Main(analyzer, descriptionList, Distress.DefaultThreshold))
      ensures event.UrgentReport? <==> id in old(rows) && Distress.Main(analyzer, descriptionList, Distress.DefaultThreshold) > UrgentCutoff
      ensures event.Aborted? <==> id !in old(rows) && Distress.Main(analyzer, descriptionList, Distress.DefaultThreshold) > UrgentCutoff
      ensures event.UrgentReport? ==> event.id == id && event.snapshot == rows[id] && event.snapshot.status == Urgent
      ensures StatusConsistent(old(rows)) ==> StatusConsistent(rows)
      ensures DistressInRange(old(rows)) ==> DistressInRange(rows)
    {
      var pct := Distress.Main(analyzer, descriptionList, Distress.DefaultThreshold);
      ghost var before := rows;
      if id in rows {
        rows := rows[id := rows[id].(distressPercentage := pct)];
      }
      if pct > UrgentCutoff {
        if id in rows {
          rows := rows[id := rows[id].(status := Urgent)];
          event := UrgentReport(id, rows[id]);
        } else {
          event := Aborted;
        }
      } else {
        if id in rows {
          rows := rows[id := rows[id].(status := Pending)];
        }
        event := NoEvent;
      }
      if StatusConsistent(before) {
        WriteBackAgreesWithBackfill(before, id, pct);
      }
      if DistressInRange(before) {
        WriteBackKeepsRange(before, id, pct);
      }
    }
  }
}
