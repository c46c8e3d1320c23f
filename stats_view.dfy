/** The statistics page (`stats` of the statistics view): the workload ranking, the busiest and
    least busy invigilator, the number of assignments per room, and one detail row per slot. */
module StatsView {
  import opened Wrappers
  import opened Seqs
  import opened Text
  import opened JsObject
  import opened Types
  import Sorting
  import SlotParser
  import AdminView

  /** `{ name, assignments }` of one invigilator. */
  datatype Workload = Workload(name: string, assignments: nat)

  /** The comparator `b.assignments - a.assignments`: descending by assignments. */
  function ByAssignmentsDesc(w: Workload): int
  {
    -(w.assignments as int)
  }

  /** `invigilatorData.map(inv => ({ name, assignments }))`, before sorting. */
  function Workloads(roster: seq<Invigilator>): (r: seq<Workload>)
    requires WellFormedRoster(roster)
    ensures |r| == |roster|
    ensures forall i :: 0 <= i < |r| ==>
      r[i].name == roster[i].name && r[i].assignments == |roster[i].schedule.values|
  {
    if roster == [] then []
    else
      var init := roster[..|roster| - 1];
      var inv := roster[|roster| - 1];
      assert WellFormedRoster(init);
      Workloads(init) + [Workload(inv.name, ScheduleSize(inv))]
  }

  /** `invigilatorWorkload`: the workloads sorted by a stable descending sort. */
  function InvigilatorWorkload(roster: seq<Invigilator>): (r: seq<Workload>)
    requires WellFormedRoster(roster)
    ensures |r| == |roster|
  {
    Sorting.SortBy(Workloads(roster), ByAssignmentsDesc)
  }

  /** The ranking is non-increasing in the number of assignments. */
  lemma InvigilatorWorkloadRanked(roster: seq<Invigilator>)
    requires WellFormedRoster(roster)
    ensures forall i, j :: 0 <= i < j < |InvigilatorWorkload(roster)| ==>
      InvigilatorWorkload(roster)[i].assignments >= InvigilatorWorkload(roster)[j].assignments
  {
    var r := InvigilatorWorkload(roster);
    Sorting.SortBySorted(Workloads(roster), ByAssignmentsDesc);
    forall i, j | 0 <= i < j < |r|
      ensures r[i].assignments >= r[j].assignments
    {
      assert ByAssignmentsDesc(r[i]) <= ByAssignmentsDesc(r[j]);
    }
  }

  /** The ranking lists the same workloads as the roster, each as often. */
  lemma InvigilatorWorkloadPermutes(roster: seq<Invigilator>)
    requires WellFormedRoster(roster)
    ensures multiset(InvigilatorWorkload(roster)) == multiset(Workloads(roster))
  {
    Sorting.SortByPermutes(Workloads(roster), ByAssignmentsDesc);
  }

  /** Invigilators with the same number of assignments keep their roster order. */
  lemma InvigilatorWorkloadStable(roster: seq<Invigilator>, n: nat)
    requires WellFormedRoster(roster)
    ensures Sorting.WithKey(InvigilatorWorkload(roster), ByAssignmentsDesc, -(n as int))
         == Sorting.WithKey(Workloads(roster), ByAssignmentsDesc, -(n as int))
  {
    Sorting.SortByStable(Workloads(roster), ByAssignmentsDesc, -(n as int));
  }

  /** `invigilatorWorkload[0]`, with `None` for `undefined`. */
  function BusiestInvigilator(roster: seq<Invigilator>): (r: Option<Workload>)
    requires WellFormedRoster(roster)
    ensures r.None? <==> roster == []
  {
    var w := InvigilatorWorkload(roster);
    if w == [] then None else Some(w[0])
  }

  /** `invigilatorWorkload[invigilatorWorkload.length - 1]`, with `None` for `undefined`. */
  function LeastBusyInvigilator(roster: seq<Invigilator>): (r: Option<Workload>)
    requires WellFormedRoster(roster)
    ensures r.None? <==> roster == []
  {
    var w := InvigilatorWorkload(roster);
    if w == [] then None else Some(w[|w| - 1])
  }

  /** The busiest invigilator is the first one in roster order with the most assignments; there
      is none only for an empty roster. */
  lemma BusiestInvigilatorIsFirstMax(roster: seq<Invigilator>)
    requires WellFormedRoster(roster)
    ensures BusiestInvigilator(roster).None? <==> roster == []
    ensures roster != [] ==>
      exists i :: 0 <= i < |roster|
        && BusiestInvigilator(roster) == Some(Workload(roster[i].name, |roster[i].schedule.values|))
        && (forall j :: 0 <= j < |roster| ==> |roster[j].schedule.values| <= |roster[i].schedule.values|)
        && (forall j :: 0 <= j < i ==> |roster[j].schedule.values| < |roster[i].schedule.values|)
  {
    var s := Workloads(roster);
    if roster != [] {
      var i := Sorting.SortByFirst(s, ByAssignmentsDesc);
      forall j | 0 <= j < |roster|
        ensures |roster[j].schedule.values| <= |roster[i].schedule.values|
      {
        assert ByAssignmentsDesc(s[i]) <= ByAssignmentsDesc(s[j]);
      }
      forall j | 0 <= j < i
        ensures |roster[j].schedule.values| < |roster[i].schedule.values|
      {
        assert ByAssignmentsDesc(s[i]) < ByAssignmentsDesc(s[j]);
      }
    }
  }

  /** The least busy invigilator is the LAST one in roster order with the fewest assignments;
      there is none only for an empty roster. */
  lemma LeastBusyInvigilatorIsLastMin(roster: seq<Invigilator>)
    requires WellFormedRoster(roster)
    ensures LeastBusyInvigilator(roster).None? <==> roster == []
    ensures roster != [] ==>
      exists i :: 0 <= i < |roster|
        && LeastBusyInvigilator(roster) == Some(Workload(roster[i].name, |roster[i].schedule.values|))
        && (forall j :: 0 <= j < |roster| ==> |roster[i].schedule.values| <= |roster[j].schedule.values|)
        && (forall j :: i < j < |roster| ==> |roster[i].schedule.values| < |roster[j].schedule.values|)
  {
    var s := Workloads(roster);
    if roster != [] {
      var i := Sorting.SortByLast(s, ByAssignmentsDesc);
      assert LeastBusyInvigilator(roster) == Some(s[i]);
      assert s[i] == Workload(roster[i].name, |roster[i].schedule.values|);
      forall j | 0 <= j < |roster|
        ensures |roster[i].schedule.values| <= |roster[j].schedule.values|
      {
        assert ByAssignmentsDesc(s[j]) <= ByAssignmentsDesc(s[i]);
      }
      forall j | i < j < |roster|
        ensures |roster[i].schedule.values| < |roster[j].schedule.values|
      {
        assert ByAssignmentsDesc(s[j]) < ByAssignmentsDesc(s[i]);
      }
    }
  }

  /** Every room of every schedule, roster by roster, each schedule in `Object.values` order:
      one room per schedule key, so as many as the dashboard's `totalAssignments`. */
  function AllLocations(roster: seq<Invigilator>): (r: seq<string>)
    requires WellFormedRoster(roster)
    ensures |r| == AdminView.TotalAssignments(roster)
  {
    if roster == [] then []
    else
      var init := roster[..|roster| - 1];
      assert WellFormedRoster(init);
      AllLocations(init) + roster[|roster| - 1].schedule.Values()
  }

  /** The counters are, key for key, the occurrences in `seen`, in first-occurrence order. */
  ghost predicate Tallies(d: Dict<nat>, seen: seq<string>)
  {
    d.Valid() && d.order == Distinct(seen) && forall l :: l in d.values ==> d.values[l] == Count(seen, l)
  }

  /** One more room: `locationDistribution[location] = (locationDistribution[location] || 0) + 1`. */
  function CountLocation(d: Dict<nat>, location: string): Dict<nat>
  {
    d.Put(location, (match d.Get(location) case Some(n) => n case None => 0) + 1)
  }

  /** Counting one more room keeps the counters in step with the rooms seen. */
  lemma CountLocationTallies(d: Dict<nat>, seen: seq<string>, location: string)
    requires Tallies(d, seen)
    ensures Tallies(CountLocation(d, location), seen + [location])
  {
    var e := CountLocation(d, location);
    var t := seen + [location];
    assert t[..|t| - 1] == seen && t[|t| - 1] == location;
    DistinctMembership(seen, location);
    forall l | l in e.values
      ensures e.values[l] == Count(t, l)
    {
      assert Count(t, l) == Count(seen, l) + (if location == l then 1 else 0);
      if l != location {
        assert e.values[l] == d.values[l];
      }
    }
  }

  /** The inner `forEach` over one schedule's rooms. */
  method CountSchedule(d: Dict<nat>, ghost seen: seq<string>, rooms: seq<string>) returns (e: Dict<nat>)
    requires Tallies(d, seen)
    ensures Tallies(e, seen + rooms)
  {
    e := d;
    var k := 0;
    assert seen + rooms[..k] == seen;
    while k < |rooms|
      invariant k <= |rooms|
      invariant Tallies(e, seen + rooms[..k])
    {
      CountLocationTallies(e, seen + rooms[..k], rooms[k]);
      PrefixSnoc(seen, rooms, k);
      e := CountLocation(e, rooms[k]);
      k := k + 1;
    }
    assert rooms[..k] == rooms;
  }

  /** `locationDistribution`: how often each room occurs over all schedules, keyed by room in
      first-occurrence order. */
  method LocationDistribution(roster: seq<Invigilator>) returns (d: Dict<nat>)
    requires WellFormedRoster(roster)
    ensures Tallies(d, AllLocations(roster))
  {
    d := EmptyDict();
    var r := 0;
    while r < |roster|
      invariant r <= |roster|
      invariant WellFormedRoster(roster[..r])
      invariant Tallies(d, AllLocations(roster[..r]))
    {
      var prefix := roster[..r + 1];
      assert prefix[..r] == roster[..r] && prefix[r] == roster[r];
      assert WellFormedRoster(prefix);
      d := CountSchedule(d, AllLocations(roster[..r]), roster[r].schedule.Values());
      r := r + 1;
    }
    assert roster[..r] == roster;
  }

  /** `{ name, count }` of one room. */
  datatype LocationCount = LocationCount(name: string, count: nat)

  /** The comparator `b.count - a.count`: descending by count. */
  function ByCountDesc(c: LocationCount): int
  {
    -(c.count as int)
  }

  /** `Object.entries(locationDistribution).map(([name, count]) => ({ name, count }))`. */
  function LocationCounts(d: Dict<nat>): (r: seq<LocationCount>)
    requires d.Valid()
    ensures |r| == |d.order|
    ensures forall i :: 0 <= i < |r| ==> r[i].name == d.Keys()[i] && r[i].count == d.values[r[i].name]
  {
    var e := d.Entries();
    seq(|e|, i requires 0 <= i < |e| => LocationCount(e[i].0, e[i].1))
  }

  /** `locationData`: the room counts sorted by a stable descending sort. */
  function LocationData(d: Dict<nat>): (r: seq<LocationCount>)
    requires d.Valid()
    ensures |r| == |d.order|
  {
    Sorting.SortBy(LocationCounts(d), ByCountDesc)
  }

  /** The counts of `cs` added up. */
  function TotalCount(cs: seq<LocationCount>): nat
  {
    if cs == [] then 0 else cs[0].count + TotalCount(cs[1..])
  }

  lemma {:induction false} TotalCountAppend(a: seq<LocationCount>, b: seq<LocationCount>)
    ensures TotalCount(a + b) == TotalCount(a) + TotalCount(b)
    decreases |a|
  {
    if a == [] {
      assert a + b == b;
    } else {
      assert (a + b)[1..] == a[1..] + b;
      TotalCountAppend(a[1..], b);
    }
  }

  lemma {:induction false} TotalCountPermutation(a: seq<LocationCount>, b: seq<LocationCount>)
    requires multiset(a) == multiset(b)
    ensures TotalCount(a) == TotalCount(b)
    decreases |a|
  {
    if a != [] {
      var i := PermutationHead(a, b);
      TotalCountPermutation(a[1..], b[..i] + b[i + 1..]);
      TotalCountAppend(b[..i], [b[i]] + b[i + 1..]);
      TotalCountAppend(b[..i], b[i + 1..]);
    } else {
      assert |b| == |multiset(b)| == 0;
    }
  }

  /** Each count is the number of occurrences of its room, so the counts, in key order, add up
      like the occurrence counts of the keys. */
  lemma {:induction false} TotalOfCounts(cs: seq<LocationCount>, keys: seq<string>, all: seq<string>)
    requires |cs| == |keys|
    requires forall i :: 0 <= i < |cs| ==> cs[i].name == keys[i] && cs[i].count == Count(all, keys[i])
    ensures TotalCount(cs) == SumCounts(keys, all)
    decreases |cs|
  {
    if cs != [] {
      TotalOfCounts(cs[1..], keys[1..], all);
    }
  }

  /** Each entry of `locationData` is an entry of the distribution. */
  lemma LocationDataEntry(d: Dict<nat>, i: nat) returns (k: nat)
    requires d.Valid() && i < |LocationData(d)|
    ensures k < |LocationCounts(d)| && LocationData(d)[i] == LocationCounts(d)[k]
  {
    var cs := LocationCounts(d);
    var r := LocationData(d);
    Sorting.SortByPermutes(cs, ByCountDesc);
    assert r[i] in multiset(cs);
    k :| 0 <= k < |cs| && cs[k] == r[i];
  }

  /** Each entry of the distribution is an entry of `locationData`. */
  lemma DistributionEntry(d: Dict<nat>, k: nat) returns (i: nat)
    requires d.Valid() && k < |LocationCounts(d)|
    ensures i < |LocationData(d)| && LocationData(d)[i] == LocationCounts(d)[k]
  {
    var cs := LocationCounts(d);
    var r := LocationData(d);
    Sorting.SortByPermutes(cs, ByCountDesc);
    assert cs[k] in multiset(r);
    i :| 0 <= i < |r| && r[i] == cs[k];
  }

  /** Each entry of `locationData` counts the occurrences of its room. */
  lemma LocationDataCounts(roster: seq<Invigilator>, d: Dict<nat>)
    requires WellFormedRoster(roster) && Tallies(d, AllLocations(roster))
    ensures forall i :: 0 <= i < |LocationData(d)| ==>
      LocationData(d)[i].count == Count(AllLocations(roster), LocationData(d)[i].name)
  {
    var r := LocationData(d);
    var all := AllLocations(roster);
    forall i | 0 <= i < |r|
      ensures r[i].count == Count(all, r[i].name)
    {
      var k := LocationDataEntry(d, i);
      TalliedEntry(d, all, k);
    }
  }

  /** Each entry of a tally of `all` counts the occurrences of its room in `all`. */
  lemma TalliedEntry(d: Dict<nat>, all: seq<string>, k: nat)
    requires Tallies(d, all) && k < |LocationCounts(d)|
    ensures LocationCounts(d)[k].count == Count(all, LocationCounts(d)[k].name)
  {
    assert LocationCounts(d)[k].name in d.Keys();
  }

  /** Every room that occurs in some schedule is named in `locationData`. */
  lemma LocationDataHasRoom(roster: seq<Invigilator>, d: Dict<nat>, room: string) returns (i: nat)
    requires WellFormedRoster(roster) && Tallies(d, AllLocations(roster))
    requires room in AllLocations(roster)
    ensures i < |LocationData(d)| && LocationData(d)[i].name == room
  {
    var all := AllLocations(roster);
    DistinctMembership(all, room);
    var keys := d.Keys();
    var k :| 0 <= k < |keys| && keys[k] == room;
    i := DistributionEntry(d, k);
  }

  /** Every room named in `locationData` occurs in some schedule. */
  lemma LocationDataRoomOccurs(roster: seq<Invigilator>, d: Dict<nat>, i: nat)
    requires WellFormedRoster(roster) && Tallies(d, AllLocations(roster))
    requires i < |LocationData(d)|
    ensures LocationData(d)[i].name in AllLocations(roster)
  {
    var k := LocationDataEntry(d, i);
    DistinctMembership(AllLocations(roster), LocationData(d)[i].name);
  }

  /** `locationData` names exactly the rooms that occur in some schedule. */
  lemma LocationDataRooms(roster: seq<Invigilator>, d: Dict<nat>, room: string)
    requires WellFormedRoster(roster) && Tallies(d, AllLocations(roster))
    ensures room in AllLocations(roster) <==>
      exists i :: 0 <= i < |LocationData(d)| && LocationData(d)[i].name == room
  {
    if room in AllLocations(roster) {
      var i := LocationDataHasRoom(roster, d, room);
    }
    if exists i :: 0 <= i < |LocationData(d)| && LocationData(d)[i].name == room {
      var i :| 0 <= i < |LocationData(d)| && LocationData(d)[i].name == room;
      LocationDataRoomOccurs(roster, d, i);
    }
  }

  function RoomName(c: LocationCount): string
  {
    c.name
  }

  /** No room is listed twice. */
  lemma LocationDataDistinctRooms(d: Dict<nat>)
    requires d.Valid()
    ensures forall i, j :: 0 <= i < j < |LocationData(d)| ==> LocationData(d)[i].name != LocationData(d)[j].name
  {
    var cs := LocationCounts(d);
    var r := LocationData(d);
    assert forall p, q :: 0 <= p < q < |cs| ==> RoomName(cs[p]) != RoomName(cs[q]) by {
      var keys := d.Keys();
      forall p, q | 0 <= p < q < |cs|
        ensures RoomName(cs[p]) != RoomName(cs[q])
      {
        assert keys[p] != keys[q];
      }
    }
    Sorting.SortByPermutes(cs, ByCountDesc);
    PermutationDistinctBy(cs, r, RoomName);
    forall i, j | 0 <= i < j < |r|
      ensures r[i].name != r[j].name
    {
      assert RoomName(r[i]) != RoomName(r[j]);
    }
  }

  /** `locationData` is in non-increasing order of count. */
  lemma LocationDataRanked(d: Dict<nat>)
    requires d.Valid()
    ensures forall i, j :: 0 <= i < j < |LocationData(d)| ==> LocationData(d)[i].count >= LocationData(d)[j].count
  {
    var r := LocationData(d);
    Sorting.SortBySorted(LocationCounts(d), ByCountDesc);
    forall i, j | 0 <= i < j < |r|
      ensures r[i].count >= r[j].count
    {
      assert ByCountDesc(r[i]) <= ByCountDesc(r[j]);
    }
  }

  /** Rooms with equal counts keep the key order of the distribution. */
  lemma LocationDataStable(d: Dict<nat>, n: nat)
    requires d.Valid()
    ensures Sorting.WithKey(LocationData(d), ByCountDesc, -(n as int))
         == Sorting.WithKey(LocationCounts(d), ByCountDesc, -(n as int))
  {
    Sorting.SortByStable(LocationCounts(d), ByCountDesc, -(n as int));
  }

  /** The counts of `locationData` add up to the number of assignments over all schedules. */
  lemma LocationDataTotal(roster: seq<Invigilator>, d: Dict<nat>)
    requires WellFormedRoster(roster) && Tallies(d, AllLocations(roster))
    ensures TotalCount(LocationData(d)) == |AllLocations(roster)|
  {
    var cs := LocationCounts(d);
    Sorting.SortByPermutes(cs, ByCountDesc);
    TotalCountPermutation(LocationData(d), cs);
    TalliesTotal(d, AllLocations(roster));
  }

  /** The counts of a tally of `all`, in key order, add up to the length of `all`. */
  lemma TalliesTotal(d: Dict<nat>, all: seq<string>)
    requires Tallies(d, all)
    ensures TotalCount(LocationCounts(d)) == |all|
  {
    var keys := d.Keys();
    TotalOfCounts(LocationCounts(d), keys, all);
    SumCountsPermutation(keys, Distinct(all), all);
    SumCountsOfDistinct(all);
  }

  /** `inv.schedule[header]` is truthy: present and not the empty string. */
  predicate HasRoom(inv: Invigilator, header: string)
  {
    header in inv.schedule.values && inv.schedule.values[header] != ""
  }

  /** `invigilatorData.filter(inv => inv.schedule[header])`. */
  function Assigned(roster: seq<Invigilator>, header: string): (r: seq<Invigilator>)
    ensures |r| <= |roster|
    ensures forall i :: 0 <= i < |r| ==> HasRoom(r[i], header)
  {
    Filter(roster, inv => HasRoom(inv, header))
  }

  /** `assignments.map(inv => inv.schedule[header])`. */
  function RoomsAt(holders: seq<Invigilator>, header: string): (r: seq<string>)
    requires forall i :: 0 <= i < |holders| ==> HasRoom(holders[i], header)
    ensures |r| == |holders|
    ensures forall i :: 0 <= i < |r| ==> HasRoom(holders[i], header) && r[i] == holders[i].schedule.values[header] && r[i] != ""
  {
    if holders == [] then []
    else
      var inv := holders[|holders| - 1];
      assert HasRoom(inv, header);
      RoomsAt(holders[..|holders| - 1], header) + [inv.schedule.values[header]]
  }

  /** One entry of `scheduleDetails`. */
  datatype DetailRow = DetailRow(date: string, time: string, period: string, invigilatorCount: nat, locations: string)

  /** The row of one slot: its parsed fields, how many invigilators hold a room in it and the
      distinct rooms joined with ", ". */
  function Detail(roster: seq<Invigilator>, header: string): (r: DetailRow)
    ensures var info := SlotParser.ParseHeader(header);
      r.date == info.date && r.time == info.time && r.period == info.period
    ensures r.invigilatorCount == |Assigned(roster, header)| <= |roster|
    ensures exists rooms ::
      r.locations == Join(rooms, ", ") && FirstOccurrences(rooms, RoomsAt(Assigned(roster, header), header))
    ensures r.locations == "" <==> r.invigilatorCount == 0
  {
    var info := SlotParser.ParseHeader(header);
    var holders := Assigned(roster, header);
    var rooms := Distinct(RoomsAt(holders, header));
    DistinctFirstOccurrences(RoomsAt(holders, header));
    JoinEmpty(rooms, ", ");
    assert |holders| > 0 ==> RoomsAt(holders, header)[0] in rooms;
    DetailRow(info.date, info.time, info.period, |holders|, Join(rooms, ", "))
  }

  /** `scheduleDetails`: one row per header, in header order. */
  function ScheduleDetails(headers: seq<string>, roster: seq<Invigilator>): (r: seq<DetailRow>)
    ensures |r| == |headers|
    ensures forall i :: 0 <= i < |r| ==> r[i] == Detail(roster, headers[i])
  {
    seq(|headers|, i requires 0 <= i < |headers| => Detail(roster, headers[i]))
  }

  /** The invigilators counted for a slot are, in roster order, every occurrence of those with a
      non-empty room in it and nobody else. */
  lemma AssignedMembers(roster: seq<Invigilator>, header: string)
    ensures IsSubsequence(Assigned(roster, header), roster)
    ensures forall x :: Count(Assigned(roster, header), x) == if HasRoom(x, header) then Count(roster, x) else 0
  {
    var keep := (inv: Invigilator) => HasRoom(inv, header);
    FilterSubsequence(roster, keep);
    forall x
      ensures Count(Assigned(roster, header), x) == if HasRoom(x, header) then Count(roster, x) else 0
    {
      FilterCount(roster, keep, x);
    }
  }

  /** The invigilators holding the slot's key with an empty room. */
  function EmptyRooms(roster: seq<Invigilator>, header: string): nat
  {
    if roster == [] then 0
    else
      var inv := roster[|roster| - 1];
      EmptyRooms(roster[..|roster| - 1], header)
        + (if header in inv.schedule.values && inv.schedule.values[header] == "" then 1 else 0)
  }

  /** The statistics count an invigilator for a slot only when the room is non-empty, the
      dashboard whenever the key is present: the two counts differ by the empty rooms. */
  lemma {:induction false} DetailCountAgainstSlotCount(roster: seq<Invigilator>, header: string)
    ensures |Assigned(roster, header)| + EmptyRooms(roster, header) == AdminView.SlotCount(roster, header)
    ensures |Assigned(roster, header)| <= AdminView.SlotCount(roster, header)
    ensures |Assigned(roster, header)| == AdminView.SlotCount(roster, header) <==>
      forall i :: 0 <= i < |roster| && header in roster[i].schedule.values ==> roster[i].schedule.values[header] != ""
    decreases |roster|
  {
    if roster != [] {
      var init := roster[..|roster| - 1];
      DetailCountAgainstSlotCount(init, header);
      if forall i :: 0 <= i < |roster| && header in roster[i].schedule.values ==> roster[i].schedule.values[header] != "" {
        assert forall i :: 0 <= i < |init| ==> init[i] == roster[i];
      } else {
        var i :| 0 <= i < |roster| && header in roster[i].schedule.values && roster[i].schedule.values[header] == "";
        if i < |init| {
          assert init[i] == roster[i];
          EmptyRoomsPositive(init, header, i);
        }
      }
      if forall i :: 0 <= i < |init| && header in init[i].schedule.values ==> init[i].schedule.values[header] != "" {
        EmptyRoomsNone(init, header);
      }
    }
  }

  lemma {:induction false} EmptyRoomsPositive(roster: seq<Invigilator>, header: string, i: nat)
    requires i < |roster| && header in roster[i].schedule.values && roster[i].schedule.values[header] == ""
    ensures EmptyRooms(roster, header) > 0
    decreases |roster|
  {
    if i < |roster| - 1 {
      var init := roster[..|roster| - 1];
      assert init[i] == roster[i];
      EmptyRoomsPositive(init, header, i);
    }
  }

  lemma {:induction false} EmptyRoomsNone(roster: seq<Invigilator>, header: string)
    requires forall i :: 0 <= i < |roster| && header in roster[i].schedule.values ==> roster[i].schedule.values[header] != ""
    ensures EmptyRooms(roster, header) == 0
    decreases |roster|
  {
    if roster != [] {
      var init := roster[..|roster| - 1];
      assert forall i :: 0 <= i < |init| ==> init[i] == roster[i];
      EmptyRoomsNone(init, header);
    }
  }

  /** Everything the statistics page shows. */
  datatype StatsReport = StatsReport(
    invigilatorWorkload: seq<Workload>,
    busiestInvigilator: Option<Workload>,
    leastBusyInvigilator: Option<Workload>,
    locationData: seq<LocationCount>,
    scheduleDetails: seq<DetailRow>)

  /** The `stats` computation. */
  method ComputeStats(headers: seq<string>, roster: seq<Invigilator>) returns (s: StatsReport)
    requires WellFormedRoster(roster)
    ensures s.invigilatorWorkload == InvigilatorWorkload(roster)
    ensures s.busiestInvigilator == BusiestInvigilator(roster)
    ensures s.leastBusyInvigilator == LeastBusyInvigilator(roster)
    ensures exists d :: Tallies(d, AllLocations(roster)) && s.locationData == LocationData(d)
    ensures s.scheduleDetails == ScheduleDetails(headers, roster)
  {
    var distribution := LocationDistribution(roster);
    var locations := LocationData(distribution);
    assert Tallies(distribution, AllLocations(roster)) && locations == LocationData(distribution);
    s := StatsReport(InvigilatorWorkload(roster), BusiestInvigilator(roster), LeastBusyInvigilator(roster),
      locations, ScheduleDetails(headers, roster));
  }
}
