/** The general schedule grid: the invigilators whose name contains the search term, one column
    per slot label, and the labels grouped under a heading per date. */
module ScheduleView {
  import opened Seqs
  import opened Text
  import opened JsObject
  import opened Types
  import opened SlotParser
  import opened GroupBy
  import StatsView

  /** Whether the lower-cased name of `inv` contains `t`; `lower` stands for `toLowerCase`. */
  predicate NameHit(inv: Invigilator, t: string, lower: string -> string)
  {
    Contains(lower(inv.name), t)
  }

  /** `filteredData`: the whole roster for an empty (falsy) search term, otherwise the
      invigilators whose lower-cased name contains the lower-cased term. */
  function FilterByName(roster: seq<Invigilator>, term: string, lower: string -> string): (r: seq<Invigilator>)
    ensures |r| <= |roster|
  {
    if term == "" then roster else Filter(roster, inv => NameHit(inv, lower(term), lower))
  }

  /** The filter keeps roster order and drops nothing for an empty term; for any other term it
      keeps every occurrence of a matching invigilator and none of the others. */
  lemma FilterByNameResult(roster: seq<Invigilator>, term: string, lower: string -> string)
    ensures IsSubsequence(FilterByName(roster, term, lower), roster)
    ensures term == "" ==> FilterByName(roster, term, lower) == roster
    ensures term != "" ==> forall x ::
      Count(FilterByName(roster, term, lower), x) == if Contains(lower(x.name), lower(term)) then Count(roster, x) else 0
    ensures term != "" ==> forall x ::
      x in FilterByName(roster, term, lower) <==> x in roster && Contains(lower(x.name), lower(term))
  {
    var keep := (inv: Invigilator) => NameHit(inv, lower(term), lower);
    if term == "" {
      SubsequenceOfSelf(roster);
    } else {
      FilterSubsequence(roster, keep);
      forall x
        ensures Count(Filter(roster, keep), x) == if Contains(lower(x.name), lower(term)) then Count(roster, x) else 0
      {
        FilterCount(roster, keep, x);
      }
    }
  }

  /** The content of the cell of `inv` under `header`: the room when `inv.schedule[header]` is
      truthy, otherwise `-`. */
  function Cell(inv: Invigilator, header: string): (r: string)
    ensures StatsView.HasRoom(inv, header) ==> r == inv.schedule.values[header]
    ensures !StatsView.HasRoom(inv, header) ==> r == "-"
  {
    match inv.schedule.Get(header)
    case Some(room) => if room != "" then room else "-"
    case None => "-"
  }

  /** The table body: for each row, the name and one cell per slot label. */
  function Grid(rows: seq<Invigilator>, headers: seq<string>): (r: seq<(string, seq<string>)>)
    ensures |r| == |rows| && forall i :: 0 <= i < |r| ==> r[i].0 == rows[i].name && |r[i].1| == |headers|
  {
    seq(|rows|, i requires 0 <= i < |rows| =>
      (rows[i].name, seq(|headers|, j requires 0 <= j < |headers| => Cell(rows[i], headers[j]))))
  }

  /** Whatever the search term, the grid has one row per filtered invigilator and a cell under
      every slot label, showing the room exactly when the invigilator has a non-empty one. */
  lemma GridShape(roster: seq<Invigilator>, term: string, lower: string -> string, headers: seq<string>)
    ensures var rows := FilterByName(roster, term, lower);
      var g := Grid(rows, headers);
      |g| == |rows| &&
      forall i :: 0 <= i < |g| ==>
        g[i].0 == rows[i].name && |g[i].1| == |headers| &&
        forall j :: 0 <= j < |headers| ==>
          (StatsView.HasRoom(rows[i], headers[j]) ==> g[i].1[j] == rows[i].schedule.values[headers[j]]) &&
          (!StatsView.HasRoom(rows[i], headers[j]) ==> g[i].1[j] == "-")
  {
  }

  /** The key a slot label is grouped under: its parsed date, or the whole label when the label
      does not match the slot pattern. */
  function DateOf(h: string): (r: string)
    ensures r == h || IsDate(r)
    ensures (forall i :: 0 <= i <= |h| ==> MatchAt(h, i).None?) ==> r == h
  {
    ParseHeader(h).date
  }

  /** `groupedHeaders`: the `forEach` over `headers` pushing each label under its parsed date. */
  method GroupedHeaders(headers: seq<string>) returns (groups: Dict<seq<string>>)
    ensures GroupedBy(groups, headers, DateOf)
  {
    groups := EmptyDict();
    GroupedByNothing(DateOf);
    assert headers[..0] == [];
    for i := 0 to |headers|
      invariant GroupedBy(groups, headers[..i], DateOf)
    {
      var h := headers[i];
      var date := DateOf(h);
      PushGroupedBy(groups, headers[..i], DateOf, h);
      TakeSnoc(headers, i);
      groups := Push(groups, date, h);
    }
    assert headers[..|headers|] == headers;
  }

  /** `dates`: `Object.keys(groupedHeaders)`. */
  function DateHeadings(g: Dict<seq<string>>): (ds: seq<string>)
    requires g.Valid()
    ensures forall i :: 0 <= i < |ds| ==> ds[i] in g.values
  {
    g.Keys()
  }

  /** Every label lies in the group of its parsed date (the whole label when it does not match),
      as often as it occurs in `headers`, and in no other group; each group keeps the order of
      `headers` and is non-empty. */
  lemma HeaderGroupsPartition(g: Dict<seq<string>>, headers: seq<string>, h: string)
    requires GroupedBy(g, headers, DateOf)
    ensures h in headers ==> DateOf(h) in g.values
    ensures forall d :: d in g.values ==> Count(g.values[d], h) == if DateOf(h) == d then Count(headers, h) else 0
    ensures forall d :: d in g.values ==> IsSubsequence(g.values[d], headers) && g.values[d] != []
  {
    GroupsPartition(g, headers, DateOf, h);
  }

  /** A label that does not match the slot pattern is grouped under the whole label. */
  lemma FallbackOwnGroup(g: Dict<seq<string>>, headers: seq<string>, i: nat)
    requires GroupedBy(g, headers, DateOf)
    requires i < |headers| && ParseHeader(headers[i]).time == ""
    ensures headers[i] in g.values && headers[i] in g.values[headers[i]]
  {
    var h := headers[i];
    GroupsPartition(g, headers, DateOf, h);
    assert DateOf(h) == h;
    assert Count(g.values[h], h) == Count(headers, h) > 0;
  }

  /** The date headings span every column exactly: their `colSpan`s add up to the number of slot
      labels. */
  lemma ColSpansCoverHeaders(g: Dict<seq<string>>, headers: seq<string>)
    requires GroupedBy(g, headers, DateOf)
    ensures SizeTotal(g, DateHeadings(g)) == |headers|
  {
    SizesCoverElements(g, headers, DateOf);
  }

  /** `dates` lists each grouping key once, and exactly the keys of the labels. */
  lemma DateHeadingsDistinct(g: Dict<seq<string>>, headers: seq<string>)
    requires GroupedBy(g, headers, DateOf)
    ensures NoDuplicates(DateHeadings(g))
    ensures forall d :: d in DateHeadings(g) <==> exists i :: 0 <= i < |headers| && DateOf(headers[i]) == d
  {
    forall d
      ensures d in DateHeadings(g) <==> exists i :: 0 <= i < |headers| && DateOf(headers[i]) == d
    {
      GroupedKeys(g, headers, DateOf, d);
    }
  }

  /** The date headings come in the object's key order: grouping keys that are array indices (only
      a fallback label can be one) first, ascending by value, then the others in first-occurrence
      order, not sorted. */
  lemma DateHeadingsOrder(g: Dict<seq<string>>, headers: seq<string>)
    requires GroupedBy(g, headers, DateOf)
    ensures Shaped(DateHeadings(g), |IndexKeys(g.order)|, NamedKeys(Distinct(KeysOf(headers, DateOf))))
  {
    EnumerationOrderShape(g.order);
  }

  /** A parsed date is never an array index. */
  lemma MatchedDateIsNamed(h: string)
    requires ParseHeader(h).time != ""
    ensures IsNamedKey(DateOf(h))
  {
    NonDigitIsNamed(DateOf(h), 4);
  }

  /** When every label matches the slot pattern, the date headings are the distinct dates in the
      order of their first label. */
  lemma DateHeadingsFirstOccurrence(g: Dict<seq<string>>, headers: seq<string>)
    requires GroupedBy(g, headers, DateOf)
    requires forall i :: 0 <= i < |headers| ==> ParseHeader(headers[i]).time != ""
    ensures DateHeadings(g) == Distinct(KeysOf(headers, DateOf))
  {
    forall k | 0 <= k < |g.order|
      ensures IsNamedKey(g.order[k])
    {
      GroupedKeys(g, headers, DateOf, g.order[k]);
      var i :| 0 <= i < |headers| && DateOf(headers[i]) == g.order[k];
      MatchedDateIsNamed(headers[i]);
    }
    EnumerationOrderOfNamedKeys(g.order);
  }
}
