/** The application's record types. */
module Types {
  import opened Seqs
  import opened JsObject

  /** The four tabs. */
  datatype AppView = Schedule | Query | Admin | Stats

  /** One row of the roster: a name and a map from slot label to room. */
  datatype Invigilator = Invigilator(name: string, schedule: Dict<string>)

  /** Every schedule is a well-formed object. */
  ghost predicate WellFormedRoster(roster: seq<Invigilator>)
  {
    forall i :: 0 <= i < |roster| ==> roster[i].schedule.Valid()
  }

  /** `Object.keys(inv.schedule).length`: `Object.keys` lists each created key once, so this is
      the number of slots the schedule holds a room for, whatever that room is. */
  function ScheduleSize(inv: Invigilator): (n: nat)
    requires inv.schedule.Valid()
    ensures n == |inv.schedule.values|
  {
    DistinctCardinality(inv.schedule.order);
    assert (set k | k in inv.schedule.order) == inv.schedule.values.Keys;
    |inv.schedule.order|
  }
}
