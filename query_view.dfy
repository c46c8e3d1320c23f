/** The per-invigilator view: the invigilator picked by name, and that invigilator's assignments
    grouped by day, each day ordered by start time and the days in calendar order. */
module QueryView {
  import opened Wrappers
  import opened Seqs
  import opened Text
  import opened JsObject
  import opened Types
  import opened SlotParser
  import Sorting

  /** `invigilatorData.find(inv => inv.name === selectedInvigilatorName)`: the first invigilator
      with that name, `None` for `undefined`. */
  function FindInvigilator(roster: seq<Invigilator>, name: string): (r: Option<Invigilator>)
    ensures r.None? <==> forall i :: 0 <= i < |roster| ==> roster[i].name != name
    ensures r.Some? ==>
      exists i :: 0 <= i < |roster| && roster[i] == r.value && roster[i].name == name
        && forall j :: 0 <= j < i ==> roster[j].name != name
  {
    if roster == [] then None
    else if roster[0].name == name then
      assert roster[0].name == name;
      Some(roster[0])
    else
      var r := FindInvigilator(roster[1..], name);
      assert r.Some? ==>
        exists i :: 0 <= i < |roster| && roster[i] == r.value && roster[i].name == name
          && forall j :: 0 <= j < i ==> roster[j].name != name
      by {
        if r.Some? {
          var i :| 0 <= i < |roster[1..]| && roster[1..][i] == r.value && roster[1..][i].name == name
            && forall j :: 0 <= j < i ==> roster[1..][j].name != name;
          assert roster[i + 1] == r.value;
          forall j | 0 <= j < i + 1
            ensures roster[j].name != name
          {
            if j > 0 {
              assert roster[j] == roster[1..][j - 1];
            }
          }
        }
      }
      r
  }

  /** `{ time, period, location }`: one assignment on a day. */
  datatype Entry = Entry(time: string, period: string, location: string)

  /** One `[header, location]` of `Object.entries(schedule)` as an assignment on a date: `None` when
      the label does not match the slot pattern, which drops the entry. */
  function DatedEntry(header: string, location: string): (r: Option<(string, Entry)>)
    ensures r.Some? ==> IsDate(r.value.0)
  {
    MatchSlotLeftmost(header);
    match MatchSlot(header)
    case None => None
    case Some(m) =>
      if m.info.date != "" && m.info.time != "" && m.info.period != "" then
        Some((m.info.date, Entry(m.info.time, m.info.period, location)))
      else
        None
  }

  /** A match always captures a date, a time and a period, so the `if (date && time && period)`
      test never fails: an entry is kept exactly when its label matches, and then carries the
      groups `parseHeader` reads from the same label. */
  lemma DatedEntryParses(header: string, location: string)
    ensures MatchSlot(header).Some? ==>
      var info := MatchSlot(header).value.info;
      DatedEntry(header, location) == Some((info.date, Entry(info.time, info.period, location)))
    ensures DatedEntry(header, location).Some? <==> MatchSlot(header).Some?
    ensures DatedEntry(header, location).None? ==> ParseHeader(header) == SlotInfo(header, "", "")
    ensures DatedEntry(header, location).Some? ==>
      var x := DatedEntry(header, location).value;
      ParseHeader(header) == SlotInfo(x.0, x.1.time, x.1.period)
      && IsDate(x.0) && IsTimeRange(x.1.time) && IsPeriod(x.1.period) && x.1.location == location
  {
    MatchSlotLeftmost(header);
    if MatchSlot(header).Some? {
      var m := MatchSlot(header).value;
      assert MatchAt(header, m.at) == Some(m.info);
      assert |m.info.date| == 10;
    }
  }

  /** The assignments of `entries` whose label matches, in entry order. */
  function Matches(entries: seq<(string, string)>): (ms: seq<(string, Entry)>)
    ensures |ms| <= |entries|
    ensures forall i :: 0 <= i < |ms| ==> IsDate(ms[i].0)
  {
    if entries == [] then []
    else
      Matches(entries[..|entries| - 1]) + MatchOf(entries[|entries| - 1])
  }

  /** The assignment an entry contributes: none, or the one its label yields. */
  function MatchOf(entry: (string, string)): (r: seq<(string, Entry)>)
    ensures |r| <= 1 && forall k :: 0 <= k < |r| ==> IsDate(r[k].0)
  {
    match DatedEntry(entry.0, entry.1) case None => [] case Some(x) => [x]
  }

  /** The date of each assignment. */
  function Dates(ms: seq<(string, Entry)>): (ds: seq<string>)
    ensures |ds| == |ms| && forall i :: 0 <= i < |ms| ==> ds[i] == ms[i].0
  {
    seq(|ms|, i requires 0 <= i < |ms| => ms[i].0)
  }

  /** The assignments on `date`, in their order in `ms`. */
  function DayGroup(ms: seq<(string, Entry)>, date: string): (r: seq<Entry>)
    ensures |r| <= |ms|
  {
    if ms == [] then []
    else
      var last := ms[|ms| - 1];
      DayGroup(ms[..|ms| - 1], date) + if last.0 == date then [last.1] else []
  }

  /** The comparator of the day sort: the start `H:MM` or `HH:MM` of the time range as
      `H * 100 + MM`. With two minute digits this orders times as `parseFloat("H.MM")` does. */
  function StartKey(e: Entry): int
  {
    var t := e.time;
    if |t| >= 4 && t[1] == ':' then DigitValue(t[0]) * 100 + DigitsValue(t[2..4])
    else if |t| >= 5 then DigitsValue(t[..2]) * 100 + DigitsValue(t[3..5])
    else 0
  }

  /** The comparator of the date sort: `YYYY-MM-DD` as the number `YYYYMMDD`, which orders
      calendar dates as their `Date` time values do. */
  function DateKey(d: string): int
  {
    if |d| >= 10 then DigitsValue(d[..4] + d[5..7] + d[8..10]) else 0
  }

  /** What `groupedSchedule` holds for the assignments `ms`: one key per date, the dates sorted,
      and under each date its assignments sorted by start time. */
  function Grouping(ms: seq<(string, Entry)>): Dict<seq<Entry>>
  {
    var dates := Distinct(Dates(ms));
    Dict(Sorting.SortBy(dates, DateKey), map d | d in dates :: Sorting.SortBy(DayGroup(ms, d), StartKey))
  }

  /** `groups` after the `forEach` has seen the assignments `ms`. */
  ghost predicate Grouped(g: Dict<seq<Entry>>, ms: seq<(string, Entry)>)
  {
    g.Valid() && g.order == Distinct(Dates(ms)) && forall d :: d in g.values ==> g.values[d] == DayGroup(ms, d)
  }

  lemma {:induction false} DayGroupAbsent(ms: seq<(string, Entry)>, date: string)
    requires forall i :: 0 <= i < |ms| ==> ms[i].0 != date
    ensures DayGroup(ms, date) == []
    decreases |ms|
  {
    if ms != [] {
      DayGroupAbsent(ms[..|ms| - 1], date);
    }
  }

  lemma {:induction false} DayGroupPresent(ms: seq<(string, Entry)>, i: nat)
    requires i < |ms|
    ensures |DayGroup(ms, ms[i].0)| > 0
    decreases |ms|
  {
    if i < |ms| - 1 {
      DayGroupPresent(ms[..|ms| - 1], i);
    }
  }

  /** Each assignment goes to its own date's group: the group of `date` holds `e` as often as `ms`
      holds `(date, e)`. */
  lemma {:induction false} DayGroupCount(ms: seq<(string, Entry)>, date: string, e: Entry)
    ensures Count(DayGroup(ms, date), e) == Count(ms, (date, e))
    decreases |ms|
  {
    if ms != [] {
      var last := ms[|ms| - 1];
      var prev := DayGroup(ms[..|ms| - 1], date);
      DayGroupCount(ms[..|ms| - 1], date, e);
      CountAppend(prev, if last.0 == date then [last.1] else [], e);
      assert Count([last.1], e) == if last.1 == e then 1 else 0 by {
        assert [last.1][..0] == [];
      }
    }
  }

  lemma DayGroupSnoc(ms: seq<(string, Entry)>, x: (string, Entry), date: string)
    ensures DayGroup(ms + [x], date) == DayGroup(ms, date) + if x.0 == date then [x.1] else []
  {
    assert (ms + [x])[..|ms|] == ms;
  }

  /** One `push` keeps `groups` in step with the assignments seen. */
  lemma PushGrouped(g: Dict<seq<Entry>>, ms: seq<(string, Entry)>, date: string, e: Entry)
    requires Grouped(g, ms)
    ensures Grouped(Push(g, date, e), ms + [(date, e)])
  {
    var ms', h := ms + [(date, e)], Push(g, date, e);
    assert h.Valid() && h.order == Distinct(Dates(ms')) by {
      PushEffect(g, date, e);
      DistinctSnoc(Dates(ms), date);
      DatesSnoc(ms, (date, e));
    }
    assert forall d :: d in h.values ==> h.values[d] == DayGroup(ms', d) by {
      if date !in g.values {
        DayGroupAbsentKey(g, ms, date);
      }
      PushDayGroups(g, ms, date, e);
    }
  }

  lemma DatesSnoc(ms: seq<(string, Entry)>, x: (string, Entry))
    ensures Dates(ms + [x]) == Dates(ms) + [x.0]
  {
    var a, b := Dates(ms + [x]), Dates(ms) + [x.0];
    forall i | 0 <= i < |a|
      ensures a[i] == b[i]
    {
      if i < |ms| {
        assert (ms + [x])[i] == ms[i];
      }
    }
  }

  /** A date the object lacks has no assignments. */
  lemma DayGroupAbsentKey(g: Dict<seq<Entry>>, ms: seq<(string, Entry)>, date: string)
    requires Grouped(g, ms) && date !in g.values
    ensures DayGroup(ms, date) == []
  {
    forall i | 0 <= i < |ms|
      ensures ms[i].0 != date
    {
      assert Dates(ms)[i] == ms[i].0;
      DistinctMembership(Dates(ms), date);
    }
    DayGroupAbsent(ms, date);
  }

  /** After the push, each array is the day group of its date among the assignments seen. */
  lemma PushDayGroups(g: Dict<seq<Entry>>, ms: seq<(string, Entry)>, date: string, e: Entry)
    requires forall d :: d in g.values ==> g.values[d] == DayGroup(ms, d)
    requires date !in g.values ==> DayGroup(ms, date) == []
    ensures forall d :: d in Push(g, date, e).values ==> Push(g, date, e).values[d] == DayGroup(ms + [(date, e)], d)
  {
    PushEffect(g, date, e);
    forall d | d in Push(g, date, e).values
      ensures Push(g, date, e).values[d] == DayGroup(ms + [(date, e)], d)
    {
      DayGroupSnoc(ms, (date, e), d);
    }
  }

  lemma MatchesSnoc(entries: seq<(string, string)>, i: nat)
    requires i < |entries|
    ensures var x := DatedEntry(entries[i].0, entries[i].1);
      Matches(entries[..i + 1]) == if x.Some? then Matches(entries[..i]) + [x.value] else Matches(entries[..i])
  {
    assert entries[..i + 1][..i] == entries[..i];
  }

  /** The `forEach` over `Object.entries(selectedInvigilator.schedule)` building `groups`. */
  method GroupByDate(entries: seq<(string, string)>) returns (groups: Dict<seq<Entry>>)
    ensures Grouped(groups, Matches(entries))
  {
    groups := EmptyDict();
    var i := 0;
    ghost var seen: seq<(string, Entry)> := [];
    assert entries[..0] == [];
    while i < |entries|
      invariant i <= |entries|
      invariant seen == Matches(entries[..i])
      invariant Grouped(groups, seen)
    {
      var header, location := entries[i].0, entries[i].1;
      MatchesSnoc(entries, i);
      DatedEntryParses(header, location);
      var m := MatchSlot(header);
      if m.Some? {
        var date, time, period := m.value.info.date, m.value.info.time, m.value.info.period;
        if date != "" && time != "" && period != "" {
          PushGrouped(groups, seen, date, Entry(time, period, location));
          groups := Push(groups, date, Entry(time, period, location));
          seen := seen + [(date, Entry(time, period, location))];
        }
      }
      i := i + 1;
    }
    assert entries[..i] == entries;
  }

  /** The days `done` of `groups` are sorted by start time in `sorted`, the others are as they
      were, and the keys and their order are those of `groups`. */
  ghost predicate SortedDays(sorted: Dict<seq<Entry>>, groups: Dict<seq<Entry>>, done: seq<string>)
  {
    && sorted.order == groups.order
    && (forall d :: d in sorted.values <==> d in groups.values)
    && forall d :: d in sorted.values ==>
      sorted.values[d] == if d in done then Sorting.SortBy(groups.values[d], StartKey) else groups.values[d]
  }

  /** Sorting one more day keeps `SortedDays`. */
  lemma SortDayStep(sorted: Dict<seq<Entry>>, groups: Dict<seq<Entry>>, done: seq<string>, date: string)
    requires SortedDays(sorted, groups, done) && date in sorted.values && date !in done
    ensures SortedDays(sorted.Put(date, Sorting.SortBy(sorted.values[date], StartKey)), groups, done + [date])
  {
    forall d
      ensures d in done + [date] <==> d in done || d == date
    {
    }
  }

  /** The `for..in` loop sorting each day's assignments by start time; the keys and their order do
      not change. */
  method SortEachDay(groups: Dict<seq<Entry>>) returns (sorted: Dict<seq<Entry>>)
    requires groups.Valid()
    ensures sorted.order == groups.order && forall d :: d in sorted.values <==> d in groups.values
    ensures forall d :: d in sorted.values ==> sorted.values[d] == Sorting.SortBy(groups.values[d], StartKey)
  {
    var keys := groups.Keys();
    sorted := groups;
    assert keys[..0] == [];
    for j := 0 to |keys|
      invariant SortedDays(sorted, groups, keys[..j])
    {
      var date := keys[j];
      assert date !in keys[..j];
      SortDayStep(sorted, groups, keys[..j], date);
      TakeSnoc(keys, j);
      sorted := sorted.Put(date, Sorting.SortBy(sorted.values[date], StartKey));
    }
    assert keys[..|keys|] == keys;
  }

  /** The `forEach` over `sortedDates` copying each day into `sortedGroups`. */
  method CopyInOrder(groups: Dict<seq<Entry>>, dates: seq<string>) returns (r: Dict<seq<Entry>>)
    requires NoDuplicates(dates) && forall i :: 0 <= i < |dates| ==> dates[i] in groups.values
    ensures r.order == dates
    ensures r.values == map d | d in dates :: groups.values[d]
  {
    r := EmptyDict();
    var k := 0;
    while k < |dates|
      invariant k <= |dates|
      invariant r.order == dates[..k]
      invariant r.values == map d | d in dates[..k] :: groups.values[d]
    {
      assert dates[k] !in dates[..k];
      assert dates[..k + 1] == dates[..k] + [dates[k]];
      r := r.Put(dates[k], groups.values[dates[k]]);
      k := k + 1;
    }
    assert dates[..k] == dates;
  }

  /** `groupedSchedule`: `None` (`null`) when no invigilator is selected, otherwise the selected
      invigilator's matching assignments grouped as `Grouping` describes. */
  method GroupedSchedule(selected: Option<Invigilator>) returns (r: Option<Dict<seq<Entry>>>)
    requires selected.Some? ==> selected.value.schedule.Valid()
    ensures r.None? <==> selected.None?
    ensures selected.Some? ==> r == Some(Grouping(Matches(selected.value.schedule.Entries())))
  {
    if selected.None? {
      return None;
    }
    var ms := Matches(selected.value.schedule.Entries());
    var groups := GroupByDate(selected.value.schedule.Entries());
    var dates := Distinct(Dates(ms));
    var sorted := SortEachDay(groups);
    KeysOfDates(sorted, ms);
    var sortedDates := Sorting.SortBy(sorted.Keys(), DateKey);
    Sorting.SortByPermutes(dates, DateKey);
    PermutationNoDuplicates(dates, sortedDates);
    forall i | 0 <= i < |sortedDates|
      ensures sortedDates[i] in sorted.values
    {
      assert sortedDates[i] in multiset(dates);
    }
    var sortedGroups := CopyInOrder(sorted, sortedDates);
    assert forall d :: d in dates ==> d in sorted.values && sorted.values[d] == Sorting.SortBy(DayGroup(ms, d), StartKey)
    by {
      forall d | d in dates
        ensures d in sorted.values && sorted.values[d] == Sorting.SortBy(DayGroup(ms, d), StartKey)
      {
        assert d in groups.values;
      }
    }
    GroupingValues(ms, sortedDates, sorted.values, sortedGroups.values);
    r := Some(sortedGroups);
  }

  /** A `YYYY-MM-DD` key is not an array index, so date keys enumerate in creation order. */
  lemma DateIsNamed(d: string)
    requires IsDate(d)
    ensures IsNamedKey(d)
  {
    NonDigitIsNamed(d, 4);
  }

  lemma KeysOfDates(groups: Dict<seq<Entry>>, ms: seq<(string, Entry)>)
    requires groups.Valid() && groups.order == Distinct(Dates(ms))
    requires forall i :: 0 <= i < |ms| ==> IsDate(ms[i].0)
    ensures groups.Keys() == Distinct(Dates(ms))
  {
    var order := groups.order;
    forall i | 0 <= i < |order|
      ensures IsNamedKey(order[i])
    {
      var j :| 0 <= j < |Dates(ms)| && Dates(ms)[j] == order[i];
      DateIsNamed(order[i]);
    }
    EnumerationOrderOfNamedKeys(order);
  }

  /** Copying the sorted days in date order gives the days `Grouping` describes. */
  lemma GroupingValues(ms: seq<(string, Entry)>, sortedDates: seq<string>,
                       days: map<string, seq<Entry>>, copied: map<string, seq<Entry>>)
    requires sortedDates == Sorting.SortBy(Distinct(Dates(ms)), DateKey)
    requires forall d :: d in Distinct(Dates(ms)) ==>
      d in days && days[d] == Sorting.SortBy(DayGroup(ms, d), StartKey)
    requires forall i :: 0 <= i < |sortedDates| ==> sortedDates[i] in days
    requires copied == map d | d in sortedDates :: days[d]
    ensures copied == Grouping(ms).values
  {
    var dates := Distinct(Dates(ms));
    var g := Grouping(ms).values;
    assert forall d :: d in copied <==> d in g by {
      Sorting.SortByPermutes(dates, DateKey);
      forall d
        ensures d in copied <==> d in g
      {
        assert d in sortedDates <==> d in multiset(dates);
      }
    }
    assert forall d :: d in copied ==> copied[d] == g[d];
    MapExtensionality(copied, g);
  }

  lemma MapExtensionality<K, V>(a: map<K, V>, b: map<K, V>)
    requires forall k :: k in a <==> k in b
    requires forall k :: k in a ==> a[k] == b[k]
    ensures a == b
  {
  }

  /** Two dates with the same key are the same date. */
  lemma DateKeyInjective(a: string, b: string)
    requires IsDate(a) && IsDate(b) && DateKey(a) == DateKey(b)
    ensures a == b
  {
    var ka, kb := a[..4] + a[5..7] + a[8..10], b[..4] + b[5..7] + b[8..10];
    assert AllDigits(ka) && AllDigits(kb);
    DigitsValueInjective(ka, kb);
    forall i | 0 <= i < 10
      ensures a[i] == b[i]
    {
      if i < 4 {
        assert a[i] == ka[i] && b[i] == kb[i];
      } else if 5 <= i < 7 {
        assert a[i] == ka[i - 1] && b[i] == kb[i - 1];
      } else if 8 <= i {
        assert a[i] == ka[i - 2] && b[i] == kb[i - 2];
      }
    }
  }

  /** The result is a well-formed object whose keys enumerate in the sorted order: no date key is an
      array index. */
  lemma GroupingValid(ms: seq<(string, Entry)>)
    requires forall i :: 0 <= i < |ms| ==> IsDate(ms[i].0)
    ensures Grouping(ms).Valid() && Grouping(ms).Keys() == Grouping(ms).order
  {
    var dates := Distinct(Dates(ms));
    var g := Grouping(ms);
    Sorting.SortByPermutes(dates, DateKey);
    PermutationNoDuplicates(dates, g.order);
    forall k
      ensures k in g.values <==> k in g.order
    {
      assert k in g.order <==> k in multiset(dates);
    }
    forall i | 0 <= i < |g.order|
      ensures IsNamedKey(g.order[i])
    {
      assert g.order[i] in multiset(dates);
      var j :| 0 <= j < |ms| && ms[j].0 == g.order[i];
      DateIsNamed(g.order[i]);
    }
    EnumerationOrderOfNamedKeys(g.order);
  }

  /** There is a group for a date exactly when some matching assignment is on that date. */
  lemma GroupingDates(ms: seq<(string, Entry)>, date: string)
    ensures date in Grouping(ms).values <==> exists i :: 0 <= i < |ms| && ms[i].0 == date
  {
    var ds := Dates(ms);
    if exists i :: 0 <= i < |ms| && ms[i].0 == date {
      var i :| 0 <= i < |ms| && ms[i].0 == date;
      assert ds[i] in Distinct(ds);
    }
    if date in Grouping(ms).values {
      var k :| 0 <= k < |Distinct(ds)| && Distinct(ds)[k] == date;
      var i :| 0 <= i < |ds| && ds[i] == date;
    }
  }

  /** Every group holds at least one assignment. */
  lemma GroupingNonEmpty(ms: seq<(string, Entry)>)
    ensures forall d :: d in Grouping(ms).values ==> |Grouping(ms).values[d]| > 0
  {
    forall d | d in Grouping(ms).values
      ensures |Grouping(ms).values[d]| > 0
    {
      GroupingDates(ms, d);
      var i :| 0 <= i < |ms| && ms[i].0 == d;
      DayGroupPresent(ms, i);
    }
  }

  /** The dates are in strictly ascending order. */
  lemma GroupingDatesAscending(ms: seq<(string, Entry)>)
    requires forall i :: 0 <= i < |ms| ==> IsDate(ms[i].0)
    ensures forall i, j :: 0 <= i < j < |Grouping(ms).order| ==>
      DateKey(Grouping(ms).order[i]) < DateKey(Grouping(ms).order[j])
  {
    var dates := Distinct(Dates(ms));
    var order := Grouping(ms).order;
    Sorting.SortBySorted(dates, DateKey);
    Sorting.SortByPermutes(dates, DateKey);
    PermutationNoDuplicates(dates, order);
    forall i | 0 <= i < |order|
      ensures IsDate(order[i])
    {
      assert order[i] in multiset(dates);
      DistinctDateWellFormed(ms, order[i]);
    }
    forall i, j | 0 <= i < j < |order|
      ensures DateKey(order[i]) < DateKey(order[j])
    {
      if DateKey(order[i]) == DateKey(order[j]) {
        DateKeyInjective(order[i], order[j]);
      }
    }
  }

  /** Each of the distinct dates is the date of some assignment, so it is well formed. */
  lemma DistinctDateWellFormed(ms: seq<(string, Entry)>, d: string)
    requires forall i :: 0 <= i < |ms| ==> IsDate(ms[i].0)
    requires d in Distinct(Dates(ms))
    ensures IsDate(d)
  {
    var j :| 0 <= j < |ms| && ms[j].0 == d;
  }

  /** Within a day the assignments are in non-decreasing order of start time. */
  lemma GroupingDaySorted(ms: seq<(string, Entry)>, date: string)
    requires date in Grouping(ms).values
    ensures Sorting.SortedBy(Grouping(ms).values[date], StartKey)
  {
    Sorting.SortBySorted(DayGroup(ms, date), StartKey);
  }

  /** Assignments of a day that start at the same time keep their order among the schedule's
      entries. */
  lemma GroupingDayStable(ms: seq<(string, Entry)>, date: string, start: int)
    requires date in Grouping(ms).values
    ensures Sorting.WithKey(Grouping(ms).values[date], StartKey, start)
         == Sorting.WithKey(DayGroup(ms, date), StartKey, start)
  {
    Sorting.SortByStable(DayGroup(ms, date), StartKey, start);
  }

  /** Nothing is lost or duplicated: the group of `date` holds `e` exactly as often as `ms` holds
      `(date, e)`, and a date without a group has no assignments. */
  lemma GroupingCounts(ms: seq<(string, Entry)>, date: string, e: Entry)
    ensures date in Grouping(ms).values ==> Count(Grouping(ms).values[date], e) == Count(ms, (date, e))
    ensures date !in Grouping(ms).values ==> Count(ms, (date, e)) == 0
  {
    GroupingDates(ms, date);
    var group := DayGroup(ms, date);
    DayGroupCount(ms, date, e);
    if date in Grouping(ms).values {
      Sorting.SortByPermutes(group, StartKey);
      CountMultiset(group, e);
      CountMultiset(Grouping(ms).values[date], e);
    } else {
      assert forall i :: 0 <= i < |ms| ==> ms[i] != (date, e);
    }
  }

  /** Every entry whose label matches yields an assignment of the result. */
  lemma {:induction false} MatchedEntryKept(entries: seq<(string, string)>, i: nat)
    requires i < |entries| && DatedEntry(entries[i].0, entries[i].1).Some?
    ensures DatedEntry(entries[i].0, entries[i].1).value in Matches(entries)
    decreases |entries|
  {
    var n := |entries| - 1;
    var x := DatedEntry(entries[i].0, entries[i].1).value;
    var prev := Matches(entries[..n]);
    assert Matches(entries) == prev + MatchOf(entries[n]);
    if i < n {
      assert entries[..n][i] == entries[i];
      MatchedEntryKept(entries[..n], i);
      assert x in prev;
    } else {
      assert i == n;
      assert MatchOf(entries[i])[0] == x;
    }
  }

  /** Every assignment of the result comes from an entry whose label matches. */
  lemma {:induction false} KeptEntryMatched(entries: seq<(string, string)>, x: (string, Entry)) returns (i: nat)
    requires x in Matches(entries)
    ensures i < |entries| && DatedEntry(entries[i].0, entries[i].1) == Some(x)
    decreases |entries|
  {
    var n := |entries| - 1;
    var y := DatedEntry(entries[n].0, entries[n].1);
    assert Matches(entries) == Matches(entries[..n]) + if y.Some? then [y.value] else [];
    if y == Some(x) {
      i := n;
    } else {
      i := KeptEntryMatched(entries[..n], x);
      assert entries[..n][i] == entries[i];
    }
  }

  /** An invigilator none of whose labels matches gets an empty, non-null grouping. */
  lemma {:induction false} NoMatchesNoGroups(entries: seq<(string, string)>)
    requires forall i :: 0 <= i < |entries| ==> MatchSlot(entries[i].0).None?
    ensures Grouping(Matches(entries)) == Dict([], map[])
    decreases |entries|
  {
    if entries != [] {
      var n := |entries| - 1;
      NoMatchesNoGroups(entries[..n]);
      assert Matches(entries) == Matches(entries[..n]);
    }
  }
}
