/** The slot-label parser shared by the views: a leftmost search for the pattern
    `(\d{4}-\d{2}-\d{2})\s?\((\d{1,2}:\d{2}-\d{1,2}:\d{2})-(MORNING|EVENING)\)?`
    where MORNING and EVENING are the two Arabic period words below. The trailing `\)?` never
    changes the captured groups, so it is not scanned. At one start position the pattern can match
    in only one way: a `\d{1,2}` followed by `:` has one choice of length, and the two period words
    start with different letters. */
module SlotParser {
  import opened Wrappers
  import opened Text

  /** The morning period word (sad, beh, alef, hah, alef). */
  const Morning: string := "\U{0635}\U{0628}\U{0627}\U{062D}\U{0627}"
  /** The evening period word (meem, seen, alef, hamza). */
  const Evening: string := "\U{0645}\U{0633}\U{0627}\U{0621}"

  /** The fields of a slot label. */
  datatype SlotInfo = SlotInfo(date: string, time: string, period: string)

  /** A match of the pattern starting at position `at`. */
  datatype SlotMatch = SlotMatch(at: nat, info: SlotInfo)

  /** `\s`: the ECMAScript WhiteSpace and LineTerminator characters. */
  predicate IsSpace(c: char)
  {
    || c == '\t' || c == '\n' || c == '\U{000B}' || c == '\U{000C}' || c == '\r' || c == ' '
    || c == '\U{00A0}' || c == '\U{1680}' || ('\U{2000}' <= c <= '\U{200A}')
    || c == '\U{2028}' || c == '\U{2029}' || c == '\U{202F}' || c == '\U{205F}'
    || c == '\U{3000}' || c == '\U{FEFF}'
  }

  /** `DDDD-DD-DD`. */
  predicate IsDate(d: string)
  {
    && |d| == 10
    && IsDigit(d[0]) && IsDigit(d[1]) && IsDigit(d[2]) && IsDigit(d[3]) && d[4] == '-'
    && IsDigit(d[5]) && IsDigit(d[6]) && d[7] == '-' && IsDigit(d[8]) && IsDigit(d[9])
  }

  /** `D:DD` or `DD:DD`. */
  predicate IsClock(c: string)
  {
    || (|c| == 4 && IsDigit(c[0]) && c[1] == ':' && IsDigit(c[2]) && IsDigit(c[3]))
    || (|c| == 5 && IsDigit(c[0]) && IsDigit(c[1]) && c[2] == ':' && IsDigit(c[3]) && IsDigit(c[4]))
  }

  /** `D{1,2}:DD-D{1,2}:DD`. */
  predicate IsTimeRange(t: string)
  {
    || (|t| > 4 && IsClock(t[..4]) && t[4] == '-' && IsClock(t[5..]))
    || (|t| > 5 && IsClock(t[..5]) && t[5] == '-' && IsClock(t[6..]))
  }

  predicate IsPeriod(p: string)
  {
    p == Morning || p == Evening
  }

  /** `\d{4}-\d{2}-\d{2}` at position `i`. */
  predicate DateAt(s: string, i: nat)
  {
    i + 10 <= |s| && IsDate(s[i..i + 10])
  }

  /** `\s?\(` at position `j`: the position after the parenthesis. */
  function OpenParenAt(s: string, j: nat): Option<nat>
  {
    if j + 1 < |s| && IsSpace(s[j]) && s[j + 1] == '(' then Some(j + 2)
    else if j < |s| && s[j] == '(' then Some(j + 1)
    else None
  }

  /** `\d{1,2}:\d{2}` at position `j` (two hour digits tried first): the position after it. */
  function ClockAt(s: string, j: nat): Option<nat>
  {
    if j + 5 <= |s| && IsDigit(s[j]) && IsDigit(s[j + 1]) && s[j + 2] == ':'
      && IsDigit(s[j + 3]) && IsDigit(s[j + 4]) then Some(j + 5)
    else if j + 4 <= |s| && IsDigit(s[j]) && s[j + 1] == ':' && IsDigit(s[j + 2])
      && IsDigit(s[j + 3]) then Some(j + 4)
    else None
  }

  /** `\d{1,2}:\d{2}-\d{1,2}:\d{2}` at position `j`: the position after it. */
  function TimeRangeAt(s: string, j: nat): Option<nat>
  {
    match ClockAt(s, j)
    case None => None
    case Some(c) =>
      if c < |s| && s[c] == '-' then
        match ClockAt(s, c + 1)
        case None => None
        case Some(e) => Some(e)
      else None
  }

  /** `(MORNING|EVENING)` at position `j`. */
  function PeriodAt(s: string, j: nat): Option<string>
  {
    if j + |Morning| <= |s| && s[j..j + |Morning|] == Morning then Some(Morning)
    else if j + |Evening| <= |s| && s[j..j + |Evening|] == Evening then Some(Evening)
    else None
  }

  /** What `ClockAt` finds is a clock time of four or five characters. */
  lemma ClockAtShape(s: string, j: nat)
    ensures var r := ClockAt(s, j);
      r.Some? ==> r.value <= |s| && (r.value == j + 4 || r.value == j + 5) && IsClock(s[j..r.value])
  {
  }

  /** What `TimeRangeAt` finds is a well-formed time range. */
  lemma TimeRangeAtShape(s: string, j: nat)
    ensures var r := TimeRangeAt(s, j);
      r.Some? ==> j < r.value <= |s| && IsTimeRange(s[j..r.value])
  {
    ClockAtShape(s, j);
    if ClockAt(s, j).Some? {
      var c := ClockAt(s, j).value;
      ClockAtShape(s, c + 1);
      if TimeRangeAt(s, j).Some? {
        var e := TimeRangeAt(s, j).value;
        assert s[j..e][..c - j] == s[j..c];
        assert s[j..e][c - j + 1..] == s[c + 1..e];
      }
    }
  }

  /** What `PeriodAt` finds is one of the two period words, read at `j`. */
  lemma PeriodAtShape(s: string, j: nat)
    ensures var r := PeriodAt(s, j);
      r.Some? ==> IsPeriod(r.value) && OccursAt(s, r.value, j)
  {
  }

  /** The pattern anchored at position `i`, with its three captured groups. */
  function MatchAt(s: string, i: nat): (r: Option<SlotInfo>)
    ensures r.Some? ==> IsDate(r.value.date) && IsTimeRange(r.value.time) && IsPeriod(r.value.period)
    ensures r.Some? ==> i + 10 <= |s| && r.value.date == s[i..i + 10]
  {
    if !DateAt(s, i) then None
    else
      match OpenParenAt(s, i + 10)
      case None => None
      case Some(p) =>
        match TimeRangeAt(s, p)
        case None => None
        case Some(e) =>
          TimeRangeAtShape(s, p);
          PeriodAtShape(s, e + 1);
          if e < |s| && s[e] == '-' then
            match PeriodAt(s, e + 1)
            case None => None
            case Some(period) => Some(SlotInfo(s[i..i + 10], s[p..e], period))
          else None
  }

  /** The scan of `String.prototype.match` for a regular expression without the `g` flag: the
      first position from `i` up to `n` at which the pattern `f` matches, with what it matched. */
  function Leftmost<X>(f: nat -> Option<X>, i: nat, n: nat): Option<(nat, X)>
    requires i <= n
    decreases n - i
  {
    match f(i)
    case Some(x) => Some((i, x))
    case None => if i == n then None else Leftmost(f, i + 1, n)
  }

  /** The scan reports the leftmost matching position and nothing only when no position matches. */
  lemma {:induction false} LeftmostIsFirst<X>(f: nat -> Option<X>, i: nat, n: nat)
    requires i <= n
    ensures Leftmost(f, i, n).Some? ==>
      var (at, x) := Leftmost(f, i, n).value;
      i <= at <= n && f(at) == Some(x) && forall j :: i <= j < at ==> f(j).None?
    ensures Leftmost(f, i, n).None? ==> forall j :: i <= j <= n ==> f(j).None?
    decreases n - i
  {
    if f(i).None? && i < n {
      LeftmostIsFirst(f, i + 1, n);
    }
  }

  /** `header.match(pattern)`, with `None` for `null`: the leftmost match. */
  function MatchSlot(s: string): (r: Option<SlotMatch>)
    ensures r.Some? ==> r.value.at <= |s| && MatchAt(s, r.value.at) == Some(r.value.info)
  {
    LeftmostIsFirst((j: nat) => MatchAt(s, j), 0, |s|);
    match Leftmost((j: nat) => MatchAt(s, j), 0, |s|)
    case None => None
    case Some((at, info)) => Some(SlotMatch(at, info))
  }

  /** The match starts at the leftmost position where the pattern matches and carries that match's
      groups; there is none only when the pattern matches nowhere. */
  lemma MatchSlotLeftmost(s: string)
    ensures MatchSlot(s).Some? ==>
      var m := MatchSlot(s).value;
      m.at <= |s| && MatchAt(s, m.at) == Some(m.info) && forall j :: 0 <= j < m.at ==> MatchAt(s, j).None?
    ensures MatchSlot(s).None? ==> forall j :: 0 <= j <= |s| ==> MatchAt(s, j).None?
  {
    var f := (j: nat) => MatchAt(s, j);
    LeftmostIsFirst(f, 0, |s|);
    match Leftmost(f, 0, |s|)
    case None =>
      forall j | 0 <= j <= |s|
        ensures MatchAt(s, j).None?
      {
        assert f(j).None?;
      }
    case Some((at, info)) =>
      assert f(at) == MatchAt(s, at);
      forall j | 0 <= j < at
        ensures MatchAt(s, j).None?
      {
        assert f(j).None?;
      }
  }

  /** `parseHeader`: the leftmost match's three groups, or the whole label as the date and empty
      time and period when nothing matches. */
  function ParseHeader(s: string): (r: SlotInfo)
    ensures r.time == "" <==> forall i :: 0 <= i <= |s| ==> MatchAt(s, i).None?
    ensures r.time == "" ==> r == SlotInfo(s, "", "")
    ensures r.time != "" ==> IsDate(r.date) && IsTimeRange(r.time) && IsPeriod(r.period)
    ensures r.time != "" ==>
      exists i :: 0 <= i <= |s| && MatchAt(s, i) == Some(r) && forall j :: 0 <= j < i ==> MatchAt(s, j).None?
  {
    MatchSlotLeftmost(s);
    match MatchSlot(s)
    case None => SlotInfo(s, "", "")
    case Some(m) => m.info
  }

  /** The text the pattern consumes before its optional closing parenthesis, for the groups
      `date`, `time`, `period` and the text `sep` matched by `\s?`. */
  function Pattern(date: string, sep: string, time: string, period: string): string
  {
    date + sep + "(" + time + "-" + period
  }

  /** The pattern occurs at position `i` of `s`, with white-space text `sep` and groups `info`. */
  predicate OccursWith(s: string, i: nat, sep: string, info: SlotInfo)
  {
    && IsDate(info.date) && IsTimeRange(info.time) && IsPeriod(info.period)
    && (sep == "" || (|sep| == 1 && IsSpace(sep[0])))
    && OccursAt(s, Pattern(info.date, sep, info.time, info.period), i)
  }

  /** Where the parts of an occurrence of the pattern sit. */
  lemma PatternLayout(date: string, sep: string, time: string, period: string)
    requires |date| == 10
    ensures var w := Pattern(date, sep, time, period);
      var p := 10 + |sep| + 1;
      var e := p + |time|;
      && |w| == e + 1 + |period|
      && w[..10] == date && w[10..p - 1] == sep && w[p - 1] == '('
      && w[p..e] == time && w[e] == '-' && w[e + 1..] == period
  {
  }

  /** An occurrence of the pattern at `i` has its parts at the offsets `PatternLayout` gives. */
  lemma OccurrenceSlices(s: string, i: nat, date: string, sep: string, time: string, period: string)
    requires |date| == 10 && OccursAt(s, Pattern(date, sep, time, period), i)
    ensures var p := i + 10 + |sep| + 1;
      var e := p + |time|;
      && e + 1 + |period| <= |s|
      && s[i..i + 10] == date && s[i + 10..p - 1] == sep && s[p - 1] == '('
      && s[p..e] == time && s[e] == '-' && s[e + 1..e + 1 + |period|] == period
  {
    var w := Pattern(date, sep, time, period);
    var p := i + 10 + |sep| + 1;
    var e := p + |time|;
    var n := e + 1 + |period|;
    PatternLayout(date, sep, time, period);
    SliceOfOccurrence(s, w, i, 0, 10);
    SliceOfOccurrence(s, w, i, 10, p - 1 - i);
    SliceOfOccurrence(s, w, i, p - i, e - i);
    SliceOfOccurrence(s, w, i, e + 1 - i, |w|);
    assert s[p - 1] == s[i..n][p - 1 - i];
    assert s[e] == s[i..n][e - i];
  }

  /** A slice of an occurrence of `w` is the same slice of `w`. */
  lemma SliceOfOccurrence(s: string, w: string, i: nat, a: nat, b: nat)
    requires OccursAt(s, w, i) && a <= b <= |w|
    ensures s[i + a..i + b] == w[a..b]
  {
    forall k | a <= k < b
      ensures s[i + k] == w[k]
    {
      assert s[i..i + |w|][k] == s[i + k];
    }
  }

  /** Parts at the offsets `PatternLayout` gives make an occurrence of the pattern at `i`. */
  lemma SlicesOccurrence(s: string, i: nat, date: string, sep: string, time: string, period: string)
    requires |date| == 10
    requires var p := i + 10 + |sep| + 1;
      var e := p + |time|;
      && e + 1 + |period| <= |s|
      && s[i..i + 10] == date && s[i + 10..p - 1] == sep && s[p - 1] == '('
      && s[p..e] == time && s[e] == '-' && s[e + 1..e + 1 + |period|] == period
    ensures OccursAt(s, Pattern(date, sep, time, period), i)
  {
    var w := Pattern(date, sep, time, period);
    var p := i + 10 + |sep| + 1;
    var e := p + |time|;
    var n := e + 1 + |period|;
    PatternLayout(date, sep, time, period);
    forall k | 0 <= k < |w|
      ensures s[i..n][k] == w[k]
    {
      if k < 10 {
        assert w[k] == w[..10][k];
      } else if k < p - 1 - i {
        assert w[k] == w[10..p - 1 - i][k - 10];
      } else if k == p - 1 - i {
      } else if k < e - i {
        assert w[k] == w[p - i..e - i][k - (p - i)];
      } else if k == e - i {
      } else {
        assert w[k] == w[e + 1 - i..][k - (e + 1 - i)];
      }
    }
  }

  /** The positions the search passes through when it matches at `i`. */
  lemma MatchAtSteps(s: string, i: nat) returns (p: nat, e: nat)
    requires MatchAt(s, i).Some?
    ensures DateAt(s, i) && OpenParenAt(s, i + 10) == Some(p) && TimeRangeAt(s, p) == Some(e)
    ensures e < |s| && s[e] == '-' && PeriodAt(s, e + 1) == Some(MatchAt(s, i).value.period)
    ensures MatchAt(s, i).value == SlotInfo(s[i..i + 10], s[p..e], MatchAt(s, i).value.period)
    ensures p == i + 11 || (p == i + 12 && IsSpace(s[i + 10]))
    ensures s[p - 1] == '(' && OccursAt(s, MatchAt(s, i).value.period, e + 1)
  {
    p := OpenParenAt(s, i + 10).value;
    e := TimeRangeAt(s, p).value;
    PeriodAtShape(s, e + 1);
  }

  /** What the search finds at `i` is an occurrence of the pattern there. */
  lemma MatchAtOccurs(s: string, i: nat) returns (sep: string)
    requires MatchAt(s, i).Some?
    ensures OccursWith(s, i, sep, MatchAt(s, i).value)
  {
    var info := MatchAt(s, i).value;
    var p, e := MatchAtSteps(s, i);
    sep := s[i + 10..p - 1];
    assert sep != "" ==> sep[0] == s[i + 10];
    SlicesOccurrence(s, i, info.date, sep, info.time, info.period);
  }

  /** An occurrence of the pattern at `i` is found there, with its groups. */
  lemma OccurrenceMatches(s: string, i: nat, sep: string, info: SlotInfo)
    requires OccursWith(s, i, sep, info)
    ensures MatchAt(s, i) == Some(info)
  {
    var p := i + 10 + |sep| + 1;
    var e := p + |info.time|;
    OccurrenceParts(s, i, p, e, info.date, sep, info.time, info.period);
    PartsMatch(s, i, p, e, sep, info);
  }

  /** The pattern matches where its parts sit each at its own position. */
  lemma PartsMatch(s: string, i: nat, p: nat, e: nat, sep: string, info: SlotInfo)
    requires IsDate(info.date) && IsTimeRange(info.time) && IsPeriod(info.period)
    requires sep == "" || (|sep| == 1 && IsSpace(sep[0]))
    requires p == i + 10 + |sep| + 1 && e == p + |info.time|
    requires OccursAt(s, info.date, i) && OccursAt(s, sep, i + 10) && OccursAt(s, info.time, p)
    requires OccursAt(s, info.period, e + 1) && s[p - 1] == '(' && e < |s| && s[e] == '-'
    ensures MatchAt(s, i) == Some(info)
  {
    DateAtOccurrence(s, i, info.date);
    OpenParenOccurrence(s, i + 10, sep);
    TimeRangeAtOccurrence(s, p, info.time);
    PeriodAtOccurrence(s, e + 1, info.period);
    MatchAtParts(s, i, p, e, info);
  }

  lemma DateAtOccurrence(s: string, i: nat, d: string)
    requires IsDate(d) && OccursAt(s, d, i)
    ensures DateAt(s, i)
  {
  }

  /** The parts of an occurrence of the pattern at `i`, each at its own position. */
  lemma OccurrenceParts(s: string, i: nat, p: nat, e: nat, date: string, sep: string, time: string, period: string)
    requires |date| == 10 && p == i + 10 + |sep| + 1 && e == p + |time|
    requires OccursAt(s, Pattern(date, sep, time, period), i)
    ensures OccursAt(s, date, i) && OccursAt(s, sep, i + 10) && OccursAt(s, time, p) && OccursAt(s, period, e + 1)
    ensures s[p - 1] == '(' && e < |s| && s[e] == '-'
  {
    OccurrenceSlices(s, i, date, sep, time, period);
  }

  /** `\s?\(` where the text `sep` the optional white space matched is followed by `(`. */
  lemma OpenParenOccurrence(s: string, j: nat, sep: string)
    requires sep == "" || (|sep| == 1 && IsSpace(sep[0]))
    requires j + |sep| < |s| && s[j..j + |sep|] == sep && s[j + |sep|] == '('
    ensures OpenParenAt(s, j) == Some(j + |sep| + 1)
  {
    assert sep != "" ==> s[j] == sep[0];
  }

  /** The pattern matches at position `i` with groups `info` exactly when it occurs there with
      those groups: the search misses no occurrence and reports nothing that is not one. */
  lemma MatchAtExactly(s: string, i: nat, info: SlotInfo)
    ensures MatchAt(s, i) == Some(info) <==> exists sep :: OccursWith(s, i, sep, info)
  {
    if MatchAt(s, i) == Some(info) {
      var sep := MatchAtOccurs(s, i);
    }
    if exists sep :: OccursWith(s, i, sep, info) {
      var sep :| OccursWith(s, i, sep, info);
      OccurrenceMatches(s, i, sep, info);
    }
  }

  /** The label the data file writes for a slot: date, an optional single white-space character,
      then the time range and the period in parentheses. */
  function Label(date: string, sep: string, time: string, period: string): string
  {
    date + sep + "(" + time + "-" + period + ")"
  }

  lemma ClockAtOccurrence(s: string, j: nat, c: string)
    requires IsClock(c) && OccursAt(s, c, j)
    ensures ClockAt(s, j) == Some(j + |c|)
  {
    assert forall k :: 0 <= k < |c| ==> s[j + k] == c[k];
  }

  lemma TimeRangeAtOccurrence(s: string, j: nat, t: string)
    requires IsTimeRange(t) && OccursAt(s, t, j)
    ensures TimeRangeAt(s, j) == Some(j + |t|)
  {
    var c := if |t| > 4 && IsClock(t[..4]) && t[4] == '-' then 4 else 5;
    assert s[j..j + c] == t[..c];
    assert s[j + c] == t[c];
    assert s[j + c + 1..j + |t|] == t[c + 1..];
    ClockAtOccurrence(s, j, t[..c]);
    ClockAtOccurrence(s, j + c + 1, t[c + 1..]);
  }

  lemma PeriodAtOccurrence(s: string, j: nat, p: string)
    requires IsPeriod(p) && OccursAt(s, p, j)
    ensures PeriodAt(s, j) == Some(p)
  {
    if p == Evening {
      assert s[j] == Evening[0] != Morning[0];
      assert j + |Morning| <= |s| ==> s[j..j + |Morning|][0] != Morning[0];
    }
  }

  lemma MatchAtParts(s: string, i: nat, p: nat, e: nat, info: SlotInfo)
    requires DateAt(s, i) && OpenParenAt(s, i + 10) == Some(p) && TimeRangeAt(s, p) == Some(e)
    requires e < |s| && s[e] == '-' && PeriodAt(s, e + 1) == Some(info.period)
    requires |info.date| == 10 && OccursAt(s, info.date, i)
    requires e == p + |info.time| && OccursAt(s, info.time, p)
    ensures MatchAt(s, i) == Some(info)
  {
    assert s[i..i + 10] == info.date && s[p..e] == info.time;
  }

  /** Parsing a label built from well-formed fields gives those fields back. */
  lemma ParseLabel(date: string, sep: string, time: string, period: string)
    requires IsDate(date) && IsTimeRange(time) && IsPeriod(period)
    requires sep == "" || (|sep| == 1 && IsSpace(sep[0]))
    ensures ParseHeader(Label(date, sep, time, period)) == SlotInfo(date, time, period)
  {
    var s := Label(date, sep, time, period);
    var w := Pattern(date, sep, time, period);
    assert s == w + ")";
    assert s[..|w|] == w;
    OccurrenceMatches(s, 0, sep, SlotInfo(date, time, period));
    var r := ParseHeader(s);
    assert r.time != "";
    var k :| 0 <= k <= |s| && MatchAt(s, k) == Some(r) && forall j :: 0 <= j < k ==> MatchAt(s, j).None?;
    assert k == 0;
  }
}
