/** The rule-based parts of the `/predictive_analytics` page
    (backend/app.py): the `high_risk` label and the preventive measures
    proposed for each high-risk location. */
module Analytics {
  import Reports

  /** A report is high risk when its distress percentage is strictly above this. */
  const HighRiskCutoff: real := 70.0

  /** A location's average distress strictly above this adds the rapid response measure. */
  const RapidResponseCutoff: real := 80.0

  const RapidResponse: string := "Deploy rapid response team"

  /** `(distress_percentage > 70).astype(int)` for one row. */
  function HighRiskLabel(distress: real): (risk: int)
    ensures risk == 0 || risk == 1
    ensures risk == 1 <==> distress > HighRiskCutoff
  {
    if distress > HighRiskCutoff then 1 else 0
  }

  /** The `high_risk` column over the whole table. */
  function HighRiskColumn(rows: map<nat, Reports.Report>): (labels: map<nat, int>)
    ensures labels.Keys == rows.Keys
    ensures forall id :: id in rows ==> labels[id] == HighRiskLabel(rows[id].distressPercentage)
  {
    map id | id in rows :: HighRiskLabel(rows[id].distressPercentage)
  }

  /** The two cutoffs are nested: on a table whose statuses follow the Urgent
      rule, every high-risk row is Urgent, and an Urgent row need not be high
      risk (a distress of exactly 70 is Urgent but not high risk). */
  lemma HighRiskIsUrgent(rows: map<nat, Reports.Report>, id: nat)
    requires Reports.StatusConsistent(rows) && id in rows
    ensures HighRiskColumn(rows)[id] == 1 ==> rows[id].status == Reports.Urgent
    ensures rows[id].distressPercentage == 70.0 ==>
              HighRiskColumn(rows)[id] == 0 && rows[id].status == Reports.Urgent
  {
  }

  /** The measures the most common incident type of a location calls for. */
  function BaseMeasures(incidentType: string): (measures: seq<string>)
    ensures RapidResponse !in measures
    ensures |measures| == 0 || |measures| == 2
    ensures measures == [] <==> incidentType !in {"Physical", "Sexual", "Emotional", "Economic"}
  {
    if incidentType == "Physical" || incidentType == "Sexual" then
      ["Increase security presence", "Conduct staff training"]
    else if incidentType == "Emotional" then
      ["Implement peer support", "Offer counseling"]
    else if incidentType == "Economic" then
      ["Provide financial aid", "Educate on reporting"]
    else []
  }

  /** Physical and Sexual incidents call for the same measures, and the three
      non-empty lists are pairwise different. */
  lemma SharedMeasures()
    ensures BaseMeasures("Physical") == BaseMeasures("Sexual")
    ensures BaseMeasures("Physical") != BaseMeasures("Emotional")
    ensures BaseMeasures("Physical") != BaseMeasures("Economic")
    ensures BaseMeasures("Emotional") != BaseMeasures("Economic")
  {
    assert BaseMeasures("Physical")[0] != BaseMeasures("Emotional")[0];
    assert BaseMeasures("Physical")[0] != BaseMeasures("Economic")[0];
    assert BaseMeasures("Emotional")[0] != BaseMeasures("Economic")[0];
  }

  /** What the analytics page knows about one high-risk location: its name,
      its most common incident type and its mean distress. */
  datatype AreaStats = AreaStats(location: string, commonType: string, avgDistress: real)

  /** One entry of `preventive_measures`. */
  datatype Plan = Plan(commonType: string, avgDistress: real, measures: seq<string>)

  /** The plan built for one area: the type's base measures, followed by the
      rapid response team exactly when the mean distress exceeds 80. */
  function PlanOf(area: AreaStats): (plan: Plan)
    ensures plan.commonType == area.commonType && plan.avgDistress == area.avgDistress
    ensures RapidResponse in plan.measures <==> area.avgDistress > RapidResponseCutoff
    ensures |plan.measures| == |BaseMeasures(area.commonType)| + if area.avgDistress > RapidResponseCutoff then 1 else 0
    ensures plan.measures[..|BaseMeasures(area.commonType)|] == BaseMeasures(area.commonType)
    ensures area.avgDistress > RapidResponseCutoff ==> plan.measures[|plan.measures| - 1] == RapidResponse
  {
    var base := BaseMeasures(area.commonType);
    Plan(area.commonType, area.avgDistress,
         if area.avgDistress > RapidResponseCutoff then base + [RapidResponse] else base)
  }

  /** `preventive_measures` after the loop has visited `areas` in order: each
      location is mapped to the plan of the last area naming it. */
  function PlansFor(areas: seq<AreaStats>): (plans: map<string, Plan>)
    ensures |plans| <= |areas|
  {
    if areas == [] then map[]
    else PlansFor(areas[..|areas| - 1])[areas[|areas| - 1].location := PlanOf(areas[|areas| - 1])]
  }

  /** The locations of `areas`. */
  function Locations(areas: seq<AreaStats>): set<string> {
    set i | 0 <= i < |areas| :: areas[i].location
  }

  /** Every location visited gets exactly one entry, and no other key appears. */
  lemma {:induction false} PlansForKeys(areas: seq<AreaStats>)
    ensures PlansFor(areas).Keys == Locations(areas)
  {
    if areas != [] {
      var init := areas[..|areas| - 1];
      PlansForKeys(init);
      forall l | l in Locations(areas)
        ensures l in PlansFor(areas)
      {
        var i :| 0 <= i < |areas| && areas[i].location == l;
        if i < |areas| - 1 {
          assert init[i] == areas[i];
        }
      }
      forall l | l in PlansFor(areas)
        ensures l in Locations(areas)
      {
        if l != areas[|areas| - 1].location {
          var i :| 0 <= i < |init| && init[i].location == l;
          assert areas[i] == init[i];
        }
      }
    }
  }

  /** No later area names the same location as `areas[i]`. */
  predicate LastFor(areas: seq<AreaStats>, i: nat)
    requires i < |areas|
  {
    forall j :: i < j < |areas| ==> areas[j].location != areas[i].location
  }

  /** The entry of a location is the plan of the last area naming it; when the
      locations are distinct (as the grouped high-risk areas are) every area's
      plan is kept. */
  lemma {:induction false} PlansForLastWins(areas: seq<AreaStats>, i: nat)
    requires i < |areas| && LastFor(areas, i)
    ensures areas[i].location in PlansFor(areas)
    ensures PlansFor(areas)[areas[i].location] == PlanOf(areas[i])
  {
    if i < |areas| - 1 {
      var init := areas[..|areas| - 1];
      assert init[i] == areas[i];
      assert LastFor(init, i);
      PlansForLastWins(init, i);
    }
  }

  /** The loop that fills `preventive_measures`, one location at a time. */
  method PreventiveMeasures(areas: seq<AreaStats>) returns (plans: map<string, Plan>)
    ensures plans == PlansFor(areas)
  {
    plans := map[];
    for n := 0 to |areas|
      invariant plans == PlansFor(areas[..n])
    {
      var area := areas[n];
      var measures := BaseMeasures(area.commonType);
      if area.avgDistress > RapidResponseCutoff {
        measures := measures + [RapidResponse];
      }
      assert areas[..n + 1][..n] == areas[..n];
      plans := plans[area.location := Plan(area.commonType, area.avgDistress, measures)];
    }
    assert areas[..|areas|] == areas;
  }
}
