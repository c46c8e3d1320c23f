/** The committee dashboard (`summary` of the admin view): totals, the number of invigilators per
    slot, and the busiest and least busy slot. */
module AdminView {
  import opened Wrappers
  import opened Seqs
  import opened JsObject
  import opened Types

  /** `totalAssignments`: the schedule sizes added up over the roster. */
  function TotalAssignments(roster: seq<Invigilator>): nat
    requires WellFormedRoster(roster)
  {
    if roster == [] then 0
    else TotalAssignments(roster[..|roster| - 1]) + ScheduleSize(roster[|roster| - 1])
  }

  /** The number of invigilators whose schedule has the key `h`, whatever its room. */
  function SlotCount(roster: seq<Invigilator>, h: string): (n: nat)
    ensures n <= |roster|
  {
    if roster == [] then 0
    else SlotCount(roster[..|roster| - 1], h) + (if h in roster[|roster| - 1].schedule.values then 1 else 0)
  }

  /** A slot label with its count: an entry of `assignmentsPerSlot`. */
  type SlotEntry = (string, nat)

  datatype Summary = Summary(
    totalInvigilators: nat,
    totalSlots: nat,
    totalAssignments: nat,
    assignmentsPerSlot: Dict<nat>,
    busiestSlot: SlotEntry,
    /** `None` stands for the initial `["", Infinity]`, which survives only without slots. */
    leastBusySlot: Option<SlotEntry>)

  /** `reduce((max, entry) => entry[1] > max[1] ? entry : max, acc)`. */
  function BusiestFrom(entries: seq<SlotEntry>, acc: SlotEntry): SlotEntry
  {
    if entries == [] then acc
    else BusiestFrom(entries[1..], if entries[0].1 > acc.1 then entries[0] else acc)
  }

  /** `busiestSlot`. */
  function BusiestSlot(entries: seq<SlotEntry>): SlotEntry
  {
    BusiestFrom(entries, ("", 0))
  }

  /** `reduce((min, entry) => entry[1] < min[1] ? entry : min, acc)`, with `None` for an
      accumulator of `Infinity`. */
  function LeastFrom(entries: seq<SlotEntry>, acc: Option<SlotEntry>): Option<SlotEntry>
  {
    if entries == [] then acc
    else LeastFrom(entries[1..], if acc.None? || entries[0].1 < acc.value.1 then Some(entries[0]) else acc)
  }

  /** `leastBusySlot`. */
  function LeastBusySlot(entries: seq<SlotEntry>): Option<SlotEntry>
  {
    LeastFrom(entries, None)
  }

  /** `headers.forEach(header => assignmentsPerSlot[header] = 0)`. */
  method ZeroCounters(headers: seq<string>) returns (perSlot: Dict<nat>)
    ensures perSlot.Valid() && perSlot.order == Distinct(headers)
    ensures forall h :: h in perSlot.values ==> perSlot.values[h] == 0
  {
    perSlot := EmptyDict();
    var i := 0;
    while i < |headers|
      invariant i <= |headers|
      invariant perSlot.Valid() && perSlot.order == Distinct(headers[..i])
      invariant forall h :: h in perSlot.values ==> perSlot.values[h] == 0
    {
      assert headers[..i + 1][..i] == headers[..i];
      perSlot := perSlot.Put(headers[i], 0);
      i := i + 1;
    }
    assert headers[..i] == headers;
  }

  /** One invigilator's pass: every key of the schedule that already has a counter adds one to
      it; keys that name no header are skipped. */
  method Tally(perSlot: Dict<nat>, schedule: Dict<string>) returns (d: Dict<nat>)
    requires perSlot.Valid() && schedule.Valid()
    ensures d.Valid() && d.order == perSlot.order
    ensures forall h :: h in d.values <==> h in perSlot.values
    ensures forall h :: h in d.values ==>
      d.values[h] == perSlot.values[h] + (if h in schedule.values then 1 else 0)
  {
    var keys := schedule.Keys();
    d := perSlot;
    var k := 0;
    while k < |keys|
      invariant k <= |keys|
      invariant d.Valid() && d.order == perSlot.order
      invariant forall h :: h in d.values <==> h in perSlot.values
      invariant forall h :: h in d.values ==>
        d.values[h] == perSlot.values[h] + (if h in keys[..k] then 1 else 0)
    {
      var slot := keys[k];
      ghost var before := d;
      assert keys[..k + 1] == keys[..k] + [slot];
      assert slot !in keys[..k];
      if slot in d.values {
        d := d.Put(slot, d.values[slot] + 1);
      }
      forall h | h in d.values
        ensures d.values[h] == perSlot.values[h] + (if h in keys[..k + 1] then 1 else 0)
      {
        if h != slot {
          assert d.values[h] == before.values[h];
          assert h in keys[..k + 1] <==> h in keys[..k];
        }
      }
      k := k + 1;
    }
    assert keys[..k] == keys;
  }

  /** The `summary` computation: the counters start at 0 for every header, and then each key of
      each schedule that names a header adds one to that header's counter. */
  method ComputeSummary(headers: seq<string>, roster: seq<Invigilator>) returns (s: Summary)
    requires WellFormedRoster(roster)
    ensures s.totalInvigilators == |roster| && s.totalSlots == |headers|
    ensures s.totalAssignments == TotalAssignments(roster)
    ensures s.assignmentsPerSlot.Valid() && s.assignmentsPerSlot.order == Distinct(headers)
    ensures forall h :: h in s.assignmentsPerSlot.values ==>
      s.assignmentsPerSlot.values[h] == SlotCount(roster, h)
    ensures s.busiestSlot == BusiestSlot(s.assignmentsPerSlot.Entries())
    ensures s.leastBusySlot == LeastBusySlot(s.assignmentsPerSlot.Entries())
  {
    var perSlot := ZeroCounters(headers);
    var total := 0;
    var r := 0;
    while r < |roster|
      invariant r <= |roster|
      invariant total == TotalAssignments(roster[..r])
      invariant perSlot.Valid() && perSlot.order == Distinct(headers)
      invariant forall h :: h in perSlot.values ==> perSlot.values[h] == SlotCount(roster[..r], h)
    {
      var prefix := roster[..r + 1];
      assert prefix[..r] == roster[..r] && prefix[r] == roster[r];
      assert TotalAssignments(prefix) == TotalAssignments(roster[..r]) + ScheduleSize(roster[r]);
      total := total + |roster[r].schedule.Keys()|;
      perSlot := Tally(perSlot, roster[r].schedule);
      forall h | h in perSlot.values
        ensures perSlot.values[h] == SlotCount(prefix, h)
      {
        assert SlotCount(prefix, h) == SlotCount(roster[..r], h) + (if h in roster[r].schedule.values then 1 else 0);
      }
      r := r + 1;
    }
    assert roster[..r] == roster;
    var entries := perSlot.Entries();
    s := Summary(|roster|, |headers|, total, perSlot, BusiestSlot(entries), LeastBusySlot(entries));
  }

  /** With a starting accumulator, the fold keeps it unless some entry beats it, and then returns
      the first entry with the largest count. */
  lemma {:induction false} BusiestFromFirstMax(entries: seq<SlotEntry>, acc: SlotEntry)
    ensures (forall j :: 0 <= j < |entries| ==> entries[j].1 <= acc.1) ==> BusiestFrom(entries, acc) == acc
    ensures (exists j :: 0 <= j < |entries| && entries[j].1 > acc.1) ==>
      exists i :: 0 <= i < |entries| && BusiestFrom(entries, acc) == entries[i] && entries[i].1 > acc.1
        && (forall j :: 0 <= j < |entries| ==> entries[j].1 <= entries[i].1)
        && (forall j :: 0 <= j < i ==> entries[j].1 < entries[i].1)
    decreases |entries|
  {
    if entries != [] {
      var next := if entries[0].1 > acc.1 then entries[0] else acc;
      var rest := entries[1..];
      assert BusiestFrom(entries, acc) == BusiestFrom(rest, next);
      BusiestFromFirstMax(rest, next);
      if exists j :: 0 <= j < |rest| && rest[j].1 > next.1 {
        var i' :| 0 <= i' < |rest| && BusiestFrom(rest, next) == rest[i'] && rest[i'].1 > next.1
          && (forall j :: 0 <= j < |rest| ==> rest[j].1 <= rest[i'].1)
          && (forall j :: 0 <= j < i' ==> rest[j].1 < rest[i'].1);
        assert entries[i' + 1] == rest[i'];
        assert BusiestFrom(entries, acc) == entries[i' + 1] && entries[i' + 1].1 > acc.1;
        forall j | 0 <= j < |entries|
          ensures entries[j].1 <= entries[i' + 1].1
        {
          if j > 0 { assert entries[j] == rest[j - 1]; }
        }
        forall j | 0 <= j < i' + 1
          ensures entries[j].1 < entries[i' + 1].1
        {
          if j > 0 { assert entries[j] == rest[j - 1]; }
        }
      } else if entries[0].1 > acc.1 {
        forall j | 0 <= j < |entries|
          ensures entries[j].1 <= entries[0].1
        {
          if j > 0 { assert entries[j] == rest[j - 1]; }
        }
      } else {
        forall j | 0 <= j < |entries|
          ensures entries[j].1 <= acc.1
        {
          if j > 0 { assert entries[j] == rest[j - 1]; }
        }
      }
    }
  }

  /** `busiestSlot` is `["", 0]` when no slot has an invigilator, and otherwise the first entry
      with the largest count. */
  lemma BusiestSlotIsFirstMax(entries: seq<SlotEntry>)
    ensures (forall j :: 0 <= j < |entries| ==> entries[j].1 == 0) ==> BusiestSlot(entries) == ("", 0)
    ensures (exists j :: 0 <= j < |entries| && entries[j].1 > 0) ==>
      exists i :: 0 <= i < |entries| && BusiestSlot(entries) == entries[i]
        && (forall j :: 0 <= j < |entries| ==> entries[j].1 <= entries[i].1)
        && (forall j :: 0 <= j < i ==> entries[j].1 < entries[i].1)
  {
    BusiestFromFirstMax(entries, ("", 0));
  }

  /** Without an accumulator the fold takes the first entry; from then on it keeps the first entry
      with the smallest count. */
  lemma {:induction false} LeastFromFirstMin(entries: seq<SlotEntry>, acc: Option<SlotEntry>)
    ensures entries == [] ==> LeastFrom(entries, acc) == acc
    ensures acc.Some? && (forall j :: 0 <= j < |entries| ==> entries[j].1 >= acc.value.1) ==>
      LeastFrom(entries, acc) == acc
    ensures (acc.None? && entries != []) || (acc.Some? && exists j :: 0 <= j < |entries| && entries[j].1 < acc.value.1) ==>
      exists i :: 0 <= i < |entries| && LeastFrom(entries, acc) == Some(entries[i])
        && (forall j :: 0 <= j < |entries| ==> entries[i].1 <= entries[j].1)
        && (forall j :: 0 <= j < i ==> entries[i].1 < entries[j].1)
    decreases |entries|
  {
    if entries != [] {
      var next := if acc.None? || entries[0].1 < acc.value.1 then Some(entries[0]) else acc;
      var rest := entries[1..];
      assert LeastFrom(entries, acc) == LeastFrom(rest, next);
      LeastFromFirstMin(rest, next);
      if exists j :: 0 <= j < |rest| && rest[j].1 < next.value.1 {
        var i' :| 0 <= i' < |rest| && LeastFrom(rest, next) == Some(rest[i'])
          && (forall j :: 0 <= j < |rest| ==> rest[i'].1 <= rest[j].1)
          && (forall j :: 0 <= j < i' ==> rest[i'].1 < rest[j].1);
        assert entries[i' + 1] == rest[i'];
        forall j | 0 <= j < |entries|
          ensures entries[i' + 1].1 <= entries[j].1
        {
          if j > 0 { assert entries[j] == rest[j - 1]; }
        }
        forall j | 0 <= j < i' + 1
          ensures entries[i' + 1].1 < entries[j].1
        {
          if j > 0 { assert entries[j] == rest[j - 1]; }
        }
      } else {
        forall j | 0 <= j < |entries|
          ensures next.value.1 <= entries[j].1
        {
          if j > 0 { assert entries[j] == rest[j - 1]; }
        }
      }
    }
  }

  /** `leastBusySlot` is "none" exactly when there are no slots, and otherwise the first entry
      with the smallest count. */
  lemma LeastBusySlotIsFirstMin(entries: seq<SlotEntry>)
    ensures LeastBusySlot(entries).None? <==> entries == []
    ensures entries != [] ==>
      exists i :: 0 <= i < |entries| && LeastBusySlot(entries) == Some(entries[i])
        && (forall j :: 0 <= j < |entries| ==> entries[i].1 <= entries[j].1)
        && (forall j :: 0 <= j < i ==> entries[i].1 < entries[j].1)
  {
    LeastFromFirstMin(entries, None);
  }

  /** The counters of the slots `hs` added up. */
  function SumSlotCounts(hs: seq<string>, roster: seq<Invigilator>): nat
  {
    if hs == [] then 0 else SlotCount(roster, hs[0]) + SumSlotCounts(hs[1..], roster)
  }

  /** How many of the slots `hs` a schedule holds a room for. */
  function Hits(hs: seq<string>, rooms: map<string, string>): nat
  {
    if hs == [] then 0 else (if hs[0] in rooms then 1 else 0) + Hits(hs[1..], rooms)
  }

  lemma {:induction false} SumSlotCountsSnoc(hs: seq<string>, roster: seq<Invigilator>, inv: Invigilator)
    ensures SumSlotCounts(hs, roster + [inv]) == SumSlotCounts(hs, roster) + Hits(hs, inv.schedule.values)
    decreases |hs|
  {
    if hs != [] {
      assert (roster + [inv])[..|roster|] == roster;
      SumSlotCountsSnoc(hs[1..], roster, inv);
    }
  }

  /** Distinct slots hit distinct keys of the schedule. */
  lemma {:induction false} HitsCardinality(hs: seq<string>, rooms: map<string, string>)
    requires NoDuplicates(hs)
    ensures Hits(hs, rooms) == |set h | h in hs && h in rooms|
    decreases |hs|
  {
    if hs != [] {
      var rest := hs[1..];
      assert NoDuplicates(rest);
      HitsCardinality(rest, rooms);
      var hit := set h | h in hs && h in rooms;
      var hitRest := set h | h in rest && h in rooms;
      assert hs[0] !in rest;
      assert hit == hitRest + (if hs[0] in rooms then {hs[0]} else {});
    }
  }

  /** Each key of a schedule is counted for at most one slot, so the slot counters add up to at
      most `totalAssignments`; they add up to exactly that when every key of every schedule is one
      of the headers. */
  lemma {:induction false} SlotCountsBounded(headers: seq<string>, roster: seq<Invigilator>)
    requires WellFormedRoster(roster)
    ensures SumSlotCounts(Distinct(headers), roster) <= TotalAssignments(roster)
    ensures (forall i, k :: 0 <= i < |roster| && k in roster[i].schedule.values ==> k in headers) ==>
      SumSlotCounts(Distinct(headers), roster) == TotalAssignments(roster)
    decreases |roster|
  {
    var hs := Distinct(headers);
    if roster == [] {
      SumSlotCountsEmpty(hs);
    } else {
      var init := roster[..|roster| - 1];
      var inv := roster[|roster| - 1];
      assert roster == init + [inv];
      SlotCountsBounded(headers, init);
      SumSlotCountsSnoc(hs, init, inv);
      HitsCardinality(hs, inv.schedule.values);
      var hit := set h | h in hs && h in inv.schedule.values;
      assert hit <= inv.schedule.values.Keys;
      SubsetCardinality(hit, inv.schedule.values.Keys);
      if forall i, k :: 0 <= i < |roster| && k in roster[i].schedule.values ==> k in headers {
        forall k | k in inv.schedule.values
          ensures k in hit
        {
          assert k in headers;
        }
        assert hit == inv.schedule.values.Keys;
      }
    }
  }

  lemma {:induction false} SumSlotCountsEmpty(hs: seq<string>)
    ensures SumSlotCounts(hs, []) == 0
    decreases |hs|
  {
    if hs != [] {
      SumSlotCountsEmpty(hs[1..]);
    }
  }

  lemma SubsetCardinality<T>(a: set<T>, b: set<T>)
    requires a <= b
    ensures |a| <= |b|
  {
    assert b == a + (b - a);
  }
}
