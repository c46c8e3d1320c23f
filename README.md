# Exam invigilation schedule viewer — verified model

The application shows an exam-invigilation timetable. Its data are a list of slot labels
(`headers`, e.g. `2025-01-12 (8:30-10:30-صباحا)`) and a roster of invigilators. Each
invigilator has a name and a `schedule` object that maps slot labels to rooms. This project
models the logic of the application's views and its login gate, and proves what each of them
computes:

- **Slot labels** (`SlotParser`). The regular expression
  `(\d{4}-\d{2}-\d{2})\s?\((\d{1,2}:\d{2}-\d{1,2}:\d{2})-(صباحا|مساء)\)?` is modelled as a
  leftmost-match search. `parseHeader` returns the three groups, or the whole label with an
  empty time and period when nothing matches.
- **Statistics** (`StatsView`):
  - the workload ranking, and the busiest and least busy invigilator;
  - the room distribution and its ranking;
  - the per-slot detail rows.
- **Personal schedule** (`QueryView`). The invigilator is found by name. The matching
  assignments are grouped by date, each day is sorted by start time, and the days are copied
  in ascending date order.
- **General grid** (`ScheduleView`):
  - the name filter;
  - the room-or-dash cells;
  - the grouping of slot labels under date headings and their column spans.
- **Dashboard** (`AdminView`). The summary holds the totals, the per-slot counters, and the
  busiest and least busy slots (the two `reduce` folds).
- **Shell** (`App`). The tab and login state machine, with the rendered view.
- **Password dialog** (`LoginModal`). The password check with its error message.

Supporting modules:

- `JsObject`: a JavaScript plain object, modelled as the keys in creation order plus a map.
  `Object.keys`, `Object.entries`, `Object.values` and `for..in` enumerate the keys as the
  language does: canonical array-index keys first, in ascending numeric order, then the other
  keys in creation order.
- `Sorting`: `Array.prototype.sort` as a stable insertion sort on an integer key. A descending
  comparator `b.x - a.x` is an ascending sort on `-x`.
- `GroupBy`: the shared "push onto `groups[key]`" idiom.
- `Seqs` and `Text`: sequence and string helpers (`filter`, `includes`, `join`).

A few behaviours of the code are worth knowing (the model follows the code):

- The grid keys a label that does not match the slot pattern by the whole label. Such a label
  therefore gets a date heading of its own, and a label that is itself a bare date
  (`2025-01-12`) joins the group of that date.
- The statistics count an invigilator for a slot only when the room is a non-empty string, but
  the dashboard counts every key present. `StatsView.DetailCountAgainstSlotCount` proves the
  two differ by exactly the number of empty rooms.
- `QueryView` keeps an assignment only when its label matches, and a match always captures
  all three groups, so the `date && time && period` test never fails
  (`QueryView.DatedEntryParses`).

## Model

| member | source | states |
|---|---|---|
| SlotParser.MatchAt | components/StatsView.tsx:5 | the pattern anchored at position i: a match captures the 10-character date found at i, a well-formed time range and one of the two period words |
| SlotParser.MatchAtExactly | components/StatsView.tsx:5 | the pattern matches at i with groups date, time and period exactly when the label reads, from i on, that date, at most one whitespace character, `(`, that time range, `-` and that period, each well-formed |
| SlotParser.MatchSlot | components/QueryView.tsx:21 | `header.match` without the `g` flag: a reported match starts inside the label and the pattern matches there with the reported groups; `MatchSlotLeftmost` adds that no earlier position matches |
| SlotParser.MatchSlotLeftmost | components/QueryView.tsx:21 | `header.match` returns the match that starts leftmost: it matches at its position and at no earlier one; no match means no position matches |
| SlotParser.ParseHeader | components/StatsView.tsx:4-12 | the time is empty exactly when the pattern matches nowhere, and the result is then `{date: label, time: '', period: ''}`; otherwise date, time and period are the well-formed groups of the leftmost match in the label |
| SlotParser.ParseLabel | components/ScheduleView.tsx:6-14 | a label built from a date, an optional whitespace, a time range and a period parses back to exactly those three parts |
| Types.ScheduleSize | components/AdminView.tsx:14 | `Object.keys(inv.schedule).length` is the number of slots the schedule holds, whatever the room |
| StatsView.InvigilatorWorkload | components/StatsView.tsx:29-32 | the stable descending sort of the workloads, one entry per invigilator; ranking, permutation and stability are the three rows below |
| StatsView.Workloads | components/StatsView.tsx:29-31 | one workload per invigilator, in roster order, with its name and its number of schedule keys |
| StatsView.InvigilatorWorkloadRanked | components/StatsView.tsx:29-32 | the ranking is non-increasing in assignments |
| StatsView.InvigilatorWorkloadPermutes | components/StatsView.tsx:29-32 | the ranking is a permutation of the unsorted workloads |
| StatsView.InvigilatorWorkloadStable | components/StatsView.tsx:32 | invigilators with equal assignments keep their roster order (stable sort) |
| StatsView.BusiestInvigilator | components/StatsView.tsx:60 | `invigilatorWorkload[0]`, absent (`undefined`) exactly for an empty roster |
| StatsView.LeastBusyInvigilator | components/StatsView.tsx:61 | `invigilatorWorkload[invigilatorWorkload.length - 1]`, absent (`undefined`) exactly for an empty roster |
| StatsView.BusiestInvigilatorIsFirstMax | components/StatsView.tsx:60 | the busiest invigilator is absent only for an empty roster; otherwise it is the first invigilator in roster order with the most assignments |
| StatsView.LeastBusyInvigilatorIsLastMin | components/StatsView.tsx:61 | the least busy invigilator is absent only for an empty roster; otherwise it is the last invigilator in roster order with the fewest assignments |
| StatsView.AllLocations | components/StatsView.tsx:35-36 | the rooms the nested `forEach` visits, schedule by schedule in `Object.values` order: one per schedule key, as many as the dashboard's `totalAssignments` |
| StatsView.CountLocation | components/StatsView.tsx:37 | `locationDistribution[location] = (locationDistribution[location] \|\| 0) + 1`; its effect is stated by `CountLocationTallies` |
| StatsView.CountLocationTallies | components/StatsView.tsx:37 | `(d[location] \|\| 0) + 1` keeps every counter equal to the occurrences of its room among the rooms seen, and keeps keys in first-occurrence order |
| StatsView.CountSchedule | components/StatsView.tsx:36-38 | counting one schedule's rooms extends the tally by exactly those rooms |
| StatsView.LocationDistribution | components/StatsView.tsx:34-39 | the distribution has one key per distinct room, in first-occurrence order, counting its occurrences over all schedules in `Object.values` order |
| StatsView.LocationCounts | components/StatsView.tsx:40-41 | one `{name, count}` per key of the distribution, in `Object.entries` order |
| StatsView.LocationData | components/StatsView.tsx:40-42 | the stable descending sort of the room counts, one row per key of the distribution |
| StatsView.LocationDataEntry | components/StatsView.tsx:40-42 | every row of `locationData` is an entry of the distribution |
| StatsView.DistributionEntry | components/StatsView.tsx:40-42 | every entry of the distribution is a row of `locationData` |
| StatsView.LocationDataCounts | components/StatsView.tsx:34-42 | each row's count is the number of times its room occurs over all schedules |
| StatsView.LocationDataHasRoom | components/StatsView.tsx:34-42 | every room that occurs in some schedule has a row |
| StatsView.LocationDataRoomOccurs | components/StatsView.tsx:34-42 | every row's room occurs in some schedule |
| StatsView.LocationDataRooms | components/StatsView.tsx:34-42 | a room has a row exactly when it occurs in some schedule |
| StatsView.LocationDataDistinctRooms | components/StatsView.tsx:40-41 | no room has two rows |
| StatsView.LocationDataRanked | components/StatsView.tsx:42 | the rows are non-increasing in count |
| StatsView.LocationDataStable | components/StatsView.tsx:42 | rooms with equal counts keep their key order (stable sort) |
| StatsView.LocationDataTotal | components/StatsView.tsx:34-42 | the counts add up to the total number of room entries over all schedules |
| StatsView.Assigned | components/StatsView.tsx:46 | at most the roster, and every kept invigilator holds a non-empty room in the slot |
| StatsView.AssignedMembers | components/StatsView.tsx:46 | the filter keeps roster order and keeps every occurrence of an invigilator with a non-empty room in the slot and no one else |
| StatsView.RoomsAt | components/StatsView.tsx:47 | one room per kept invigilator, namely its room in that slot, never empty |
| StatsView.Detail | components/StatsView.tsx:44-55 | date, time and period are `parseHeader`'s fields of the label; the count is the number of invigilators holding a non-empty room in the slot; the locations are the joined rooms of those invigilators, each once, in first-occurrence order; the joined list is empty exactly when nobody is counted |
| StatsView.ScheduleDetails | components/StatsView.tsx:44-56 | one detail row per slot label, in label order |
| StatsView.DetailCountAgainstSlotCount | components/StatsView.tsx:46-53 | the statistics count plus the empty rooms equals the dashboard counter of that slot; the two agree exactly when no room of the slot is empty |
| StatsView.EmptyRoomsPositive | components/StatsView.tsx:46 | one empty room in the slot makes the statistics count fall short |
| StatsView.EmptyRoomsNone | components/StatsView.tsx:46 | with no empty room in the slot nothing is missed |
| StatsView.ComputeStats | components/StatsView.tsx:28-65 | the statistics object holds the ranking, its first and last entries, a `locationData` built from a tally of all rooms, and the detail rows |
| AdminView.TotalAssignments | components/AdminView.tsx:9-15 | the running sum of `Object.keys(inv.schedule).length` over the roster, keys that are not slot labels included |
| AdminView.SlotCount | components/AdminView.tsx:16-19 | the number of invigilators whose schedule has the key, whatever the room, never more than the roster |
| AdminView.ZeroCounters | components/AdminView.tsx:11 | one zero counter per distinct slot label, in first-occurrence order |
| AdminView.Tally | components/AdminView.tsx:16-20 | a counter is incremented exactly when the schedule has that slot; no key is added |
| AdminView.SumSlotCountsSnoc | components/AdminView.tsx:13-21 | one more invigilator adds its number of known slots to the sum of the counters |
| AdminView.HitsCardinality | components/AdminView.tsx:16-20 | over distinct labels, the increments one schedule causes are the number of its slots that are labels |
| AdminView.SlotCountsBounded | components/AdminView.tsx:13-21 | the counters never add up to more than `totalAssignments`, and they equal it when every schedule key is a slot label |
| AdminView.ComputeSummary | components/AdminView.tsx:6-27 | the summary holds the roster size, the label count, the total of schedule sizes, per-slot counters equal to how many schedules hold each slot, and the two folds over those counters |
| AdminView.BusiestFrom | components/AdminView.tsx:23 | the `reduce` step `entry[1] > max[1] ? entry : max` from a given start; its result is stated by `BusiestFromFirstMax` |
| AdminView.BusiestSlot | components/AdminView.tsx:23 | the fold started from `["", 0]`; its result is stated by `BusiestSlotIsFirstMax` |
| AdminView.BusiestFromFirstMax | components/AdminView.tsx:23 | the fold keeps its start value unless some entry beats it, and otherwise returns the first entry with the largest count |
| AdminView.BusiestSlotIsFirstMax | components/AdminView.tsx:23 | the busiest slot is `["", 0]` when every counter is zero, and otherwise the first slot with the largest count |
| AdminView.LeastFrom | components/AdminView.tsx:24 | the `reduce` step `entry[1] < min[1] ? entry : min`, with `None` for the `Infinity` count; its result is stated by `LeastFromFirstMin` |
| AdminView.LeastBusySlot | components/AdminView.tsx:24 | the fold started from `["", Infinity]`; its result is stated by `LeastBusySlotIsFirstMin` |
| AdminView.LeastFromFirstMin | components/AdminView.tsx:24 | from the `Infinity` start the fold takes the first entry, then keeps the first entry with the smallest count |
| AdminView.LeastBusySlotIsFirstMin | components/AdminView.tsx:24 | the least busy slot is the `Infinity` start value exactly when there are no slots, and otherwise the first slot with the smallest count |
| QueryView.FindInvigilator | components/QueryView.tsx:11-13 | `find` returns nothing exactly when no name matches, and otherwise the first invigilator with that name |
| QueryView.DatedEntry | components/QueryView.tsx:21-24 | a kept entry's date is a well-formed date |
| QueryView.DatedEntryParses | components/QueryView.tsx:21-24 | an entry is kept exactly when its label matches; it then carries the date, time and period `parseHeader` reads from the same label, and its own room |
| QueryView.Matches | components/QueryView.tsx:20-31 | at most one assignment per schedule entry, each with a well-formed date |
| QueryView.MatchOf | components/QueryView.tsx:21-29 | one schedule entry contributes at most one assignment, and its date is well-formed |
| QueryView.DayGroup | components/QueryView.tsx:25-28 | the assignments pushed under one date, in entry order, never more than were matched |
| QueryView.MatchedEntryKept | components/QueryView.tsx:20-29 | every entry whose label matches contributes its assignment |
| QueryView.KeptEntryMatched | components/QueryView.tsx:20-29 | every assignment comes from an entry whose label matches |
| QueryView.DayGroupCount | components/QueryView.tsx:25-28 | a day's array holds each assignment as often as it occurs on that date |
| QueryView.PushGrouped | components/QueryView.tsx:25-28 | one push keeps `groups` equal to the grouping of the assignments seen: keys in first-occurrence order, each day's assignments in entry order |
| QueryView.GroupByDate | components/QueryView.tsx:18-31 | the `forEach` leaves `groups` equal to the grouping by date of the matching entries |
| QueryView.SortEachDay | components/QueryView.tsx:34-40 | each day is sorted by start time; the keys and their order do not change |
| QueryView.CopyInOrder | components/QueryView.tsx:45-48 | the copy has exactly the sorted dates as keys, in that order, each with its day |
| QueryView.GroupedSchedule | components/QueryView.tsx:15-52 | `null` exactly when no invigilator is selected; otherwise the grouping of the selected schedule's matching entries |
| QueryView.Grouping | components/QueryView.tsx:15-52 | the specification of the result: the dates sorted by `DateKey`, each holding its day sorted by `StartKey`; the `Grouping*` rows state its properties |
| QueryView.StartKey | components/QueryView.tsx:35-39 | the day sort's comparator key `H * 100 + MM` of the start time |
| QueryView.DateKey | components/QueryView.tsx:43 | the date sort's comparator key `YYYYMMDD` |
| QueryView.DateIsNamed | components/QueryView.tsx:43 | a date is never an array-index key |
| QueryView.KeysOfDates | components/QueryView.tsx:43 | `Object.keys(groups)` lists the dates in first-occurrence order |
| QueryView.DateKeyInjective | components/QueryView.tsx:43 | two dates with the same time value are the same date |
| QueryView.GroupingValues | components/QueryView.tsx:45-48 | the copied days are each date's assignments sorted by start time |
| QueryView.GroupingValid | components/QueryView.tsx:45-48 | the result is a well-formed object whose key enumeration is its insertion order |
| QueryView.GroupingDates | components/QueryView.tsx:20-31 | a date is a key of the result exactly when some kept assignment falls on it |
| QueryView.GroupingNonEmpty | components/QueryView.tsx:25-28 | no day of the result is empty |
| QueryView.GroupingDatesAscending | components/QueryView.tsx:43-48 | the days of the result are in strictly ascending date order |
| QueryView.GroupingDaySorted | components/QueryView.tsx:34-40 | each day is ordered by start time |
| QueryView.GroupingDayStable | components/QueryView.tsx:34-40 | assignments with the same start time keep their entry order |
| QueryView.GroupingCounts | components/QueryView.tsx:18-52 | each assignment appears in its day as often as it was matched, and a date without a day has no assignment |
| QueryView.NoMatchesNoGroups | components/QueryView.tsx:16-31 | a selected invigilator none of whose labels matches gets an empty object, not `null` |
| ScheduleView.FilterByName | components/ScheduleView.tsx:19-24 | the roster for an empty term, otherwise `filter` on the lower-cased name containing the lower-cased term; never longer than the roster |
| ScheduleView.FilterByNameResult | components/ScheduleView.tsx:19-24 | an empty term keeps the roster; any other term keeps, in roster order, every occurrence of the invigilators whose lower-cased name contains the lower-cased term, and only those |
| ScheduleView.Cell | components/ScheduleView.tsx:92-98 | a cell shows the room when it is non-empty, and `-` otherwise |
| ScheduleView.Grid | components/ScheduleView.tsx:85-102 | one row per invigilator shown, with its name and one cell per slot label |
| ScheduleView.GridShape | components/ScheduleView.tsx:85-102 | one row per filtered invigilator, with its name and one cell per slot label |
| ScheduleView.DateOf | components/ScheduleView.tsx:29 | the grouping key of a label is a well-formed date or the whole label, and the whole label when the pattern matches nowhere |
| ScheduleView.GroupedHeaders | components/ScheduleView.tsx:26-36 | the `forEach` leaves one key per parsed date (or whole label) in first-occurrence order, each holding its labels in label order |
| ScheduleView.DateHeadings | components/ScheduleView.tsx:38 | every heading is a key of the grouping |
| ScheduleView.HeaderGroupsPartition | components/ScheduleView.tsx:26-36 | every label lies in the group of its date, as often as it occurs, and in no other group; groups keep label order and are non-empty |
| ScheduleView.FallbackOwnGroup | components/ScheduleView.tsx:8 | a label that does not match is grouped under itself |
| ScheduleView.ColSpansCoverHeaders | components/ScheduleView.tsx:65-66 | the heading column spans add up to the number of slot labels |
| ScheduleView.DateHeadingsDistinct | components/ScheduleView.tsx:38 | each heading appears once, and the headings are exactly the grouping keys of the labels |
| ScheduleView.DateHeadingsOrder | components/ScheduleView.tsx:38 | array-index keys come first in ascending order, then the other keys in first-occurrence order |
| ScheduleView.MatchedDateIsNamed | components/ScheduleView.tsx:38 | a parsed date is never an array-index key |
| ScheduleView.DateHeadingsFirstOccurrence | components/ScheduleView.tsx:38 | when every label matches, the headings are the distinct dates in first-occurrence order |
| GroupBy.GroupedByNothing | components/ScheduleView.tsx:27 | the empty object groups the empty sequence |
| GroupBy.PushGroupedBy | components/ScheduleView.tsx:30-33 | creating the array if missing and pushing keeps the object equal to the grouping of the elements seen |
| GroupBy.GroupedKeys | components/ScheduleView.tsx:26-36 | the keys are exactly the keys of the elements |
| GroupBy.GroupsPartition | components/ScheduleView.tsx:26-36 | every element lies in its key's group as often as it occurs, and in no other; groups are non-empty subsequences |
| GroupBy.GroupLength | components/ScheduleView.tsx:66 | a group's length is how often its key occurs |
| GroupBy.SizesCoverElements | components/ScheduleView.tsx:66 | the group lengths in `Object.keys` order add up to the number of elements |
| JsObject.Dict.Keys | components/ScheduleView.tsx:38 | `Object.keys` lists each key of the object exactly once |
| JsObject.Dict.Values | components/StatsView.tsx:36 | `Object.values` gives the value of each key in `Object.keys` order |
| JsObject.Dict.Get | components/AdminView.tsx:17 | `this[k]`, `undefined` exactly when the key is absent |
| JsObject.Dict.Put | components/StatsView.tsx:37 | `this[k] = v` sets the value, appends a new key to the creation order, and keeps the object well-formed |
| JsObject.Dict.Entries | components/StatsView.tsx:40 | `Object.entries` pairs each key, in `Object.keys` order, with its value |
| JsObject.Push | components/QueryView.tsx:25-28 | `if (!d[k]) d[k] = []; d[k].push(v)`; its effect is stated by `PushEffect` |
| JsObject.PushEffect | components/QueryView.tsx:25-28 | the push appends to the key's array, creating it as the last key when missing |
| JsObject.EnumerationOrder | components/AdminView.tsx:23 | the enumeration lists the same keys as the creation order, permuted |
| JsObject.EnumerationOrderShape | components/AdminView.tsx:23 | the array-index keys come first in ascending numeric order, then the other keys in creation order |
| JsObject.EnumerationOrderOfNamedKeys | components/QueryView.tsx:43 | without array-index keys the enumeration is the creation order |
| Sorting.SortByPermutes | components/StatsView.tsx:32 | sorting is a permutation |
| Sorting.SortBySorted | components/StatsView.tsx:32 | the result is ordered by the key |
| Sorting.SortByStable | components/StatsView.tsx:32 | elements with equal keys keep their relative order |
| Sorting.SortByFirst | components/StatsView.tsx:60 | the first sorted element is the first one with the least key |
| Sorting.SortByLast | components/StatsView.tsx:61 | the last sorted element is the last one with the greatest key |
| Text.Contains | components/ScheduleView.tsx:22 | `includes`; characterised by `ContainsOccurrence` |
| Text.ContainsOccurrence | components/ScheduleView.tsx:22 | `includes` holds exactly when the term occurs at some position |
| Text.Join | components/StatsView.tsx:54 | `join(sep)`: the parts with the separator between neighbours |
| Text.JoinEmpty | components/StatsView.tsx:54 | joining non-empty room names is empty exactly when there are none |
| Seqs.Filter | components/ScheduleView.tsx:21-23 | `filter` keeps only accepted elements and never lengthens |
| Seqs.Distinct | components/StatsView.tsx:54 | `[...new Set(s)]`: no duplicates, the same elements as `s` |
| Seqs.DistinctFirstOccurrences | components/StatsView.tsx:54 | the distinct elements come in the order of their first occurrence |
| Seqs.FilterCount | components/ScheduleView.tsx:21-23 | `filter` keeps every occurrence of a kept element and none of a dropped one |
| Seqs.FilterSubsequence | components/ScheduleView.tsx:21-23 | `filter` keeps the original order |
| LoginModal.LoginModal.constructor | components/LoginModal.tsx:11-12 | a fresh dialog has an empty password and no error |
| LoginModal.LoginModal.OnChange | components/LoginModal.tsx:47 | typing replaces the password and leaves the error |
| LoginModal.LoginModal.HandleSubmit | components/LoginModal.tsx:14-22 | success exactly for `202030305`, leaving the dialog as it was; otherwise the fixed error message is shown and the input is cleared |
| LoginModal.LoginModal.ErrorShown | components/LoginModal.tsx:53 | the error line is rendered exactly when the message is non-empty |
| LoginModal.ResubmitWithoutTyping | components/LoginModal.tsx:16-20 | after a failed submit, submitting again without typing fails too, and the input stays cleared with the error shown |
| App.IsProtected | App.tsx:18 | the schedule, admin and statistics tabs need a login; the query tab does not |
| App.App.constructor | App.tsx:12-15 | the app starts on the query tab, logged out, with the dialog closed and no tab waiting |
| App.App.HandleTabClick | App.tsx:17-28 | a protected tab opens at once only for a logged-in user; otherwise it waits and the dialog opens while the shown tab stays; the query tab always opens; the login state never changes |
| App.App.HandleLoginSuccess | App.tsx:30-37 | logged in, dialog closed, and the waiting tab (if any) shown and cleared |
| App.App.HandleLogout | App.tsx:39-42 | logged out and back on the query tab |
| App.App.CloseModal | App.tsx:71 | only the dialog closes; the waiting tab stays recorded |
| App.App.SubmitLogin | App.tsx:69-73 | the user is logged in exactly when the typed password is the accepted one; on success the dialog closes, the waiting tab (if any) is shown and cleared, and the dialog's state is untouched; on failure the tabs and the waiting tab stay, and the dialog shows the error with a cleared input |
| App.App.RenderedView | App.tsx:44-56 | `null` exactly for a protected tab while logged out, otherwise the current tab's view |
| App.RenderNeverBlank | App.tsx:44-56 | in every reachable state the current tab's view is rendered, never `null` |

## Left out

- Markup, styling, icons, `Header.tsx` and the localised date formatting of the headings are not modelled; only the values the markup shows are.
- The data file: `headers` and `invigilatorData` are inputs of the operations.
- `toLowerCase` is a function parameter. The model does not fix a case mapping.
- `\s` is the ECMAScript whitespace set and `\d` is ASCII digits. There is no other Unicode handling.
- QueryView.StartKey: `parseFloat("H.MM")` is replaced by `H*100+MM`, which orders well-formed times the same way; floating point is not modelled.
- QueryView.DateKey: `new Date(d).getTime()` is replaced by `YYYYMMDD`, which orders well-formed dates the same way. Impossible calendar dates (`NaN` comparisons) are not modelled.
- The in-place `sort` calls and the in-place array pushes are modelled as value updates of the object.
- Prototype-inherited keys (`constructor`, `toString`, `__proto__`) are not modelled. With such a key as a date, slot or room, `groups[date]`, `assignmentsPerSlot[slot] !== undefined` and `locationDistribution[location] || 0` would see the inherited value.
- React rendering, memoisation and state batching are not modelled. Every handler reads its state before setting it, so batching does not change the result.
- The dialog's remount on each opening (fresh password and error) is a separate constructor call. `App.App.SubmitLogin` takes the dialog as a parameter, and the model does not tie one dialog to one opening.
- The query view's select and the grid's search box only store what the user picks or types. `QueryView.FindInvigilator` and `ScheduleView.FilterByName` take that value as a parameter.
- The password is compared in the browser; the security of that gate is out of scope.
- StatsView.BusiestInvigilator and StatsView.LeastBusyInvigilator: with an empty roster the page reads `.name` of `undefined` (components/StatsView.tsx:74 and :81) and rendering throws a `TypeError`; the model stops at the `undefined` value (`None`) and does not model the exception.
