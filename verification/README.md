# Countdown page: a Dafny model of its decision logic

This project models the parts of the hackathon countdown page that decide
something, and leaves out how they are drawn. Instants are integers: milliseconds
since the Unix epoch. Every "now" is a parameter.

- **Target selection** (`countdown-app.tsx`). On first load the page counts down to the
  earliest event strictly after now. When there is none, it counts down to a second clock
  reading plus one day. A date submitted from the drawer, or a click on an event, then
  replaces the target. The page state (`targetDate`, `selectedEvent`, `isDrawerOpen`) is
  the class `CountdownApp.CountdownApp`. Its invariant `Valid()` says that whenever an
  event is selected, the target is that event's date. The filter, the stable sort and
  the choice of the first element are functions, with lemmas saying that the choice is
  the earliest upcoming event. When dates tie, the choice is the first such event in
  list order. The shared event table is the constant `EventTimeline.EventDates`. The
  sort works on the filtered copy, so it cannot change the table.
- **Countdown** (`countdown-timer.tsx`). One run of `calculateTimeRemaining` is the
  method `CountdownTimer.CountdownTimer.CalculateTimeRemaining`. It is specified by the
  function `Tick`. The diff is split into days, hours, minutes, seconds and milliseconds
  with fixed 24-hour days. When the target is before now, luxon's `DateTime.diff`
  splits the size of the gap and then negates every component. The model does the same.
  The page judges the deadline past only when the milliseconds component is negative,
  and the model keeps that check as written (see Findings). `formatNumber` and the
  `padStart(2, "0")` of `TimeUnit` are `FormatNumber` and `TimeUnitText`, built on
  `Text.PadStart` and `Text.IntToString`.
- **City grid** (`city-grid.tsx`). The fifty-city table is written as its seven runs of
  same-region entries, joined back in table order. The `reduce` that builds one bucket
  per region is the method `CityGrid.GroupByRegion`. It loops over the list and appends
  each city to the bucket of its region, creating the bucket first if needed. It is
  proved equal to the specification `Grouped`. The grid walks `RegionOrder`. The lemmas
  prove three things about it: every city is shown exactly once, buckets keep list
  order, and city names are distinct.
- **Event timeline** (`event-timeline.tsx`). This covers the four-event table, the
  `find`-by-id lookup, the rule that toggles the "global times" panel, and the
  condition for showing the panel. The panel flag belongs to the class
  `EventTimeline.Timeline`. `CountdownApp.ClickTimelineEvent` puts the timeline's click
  handler together with the page's `handleEventSelect`.

Each event's date comes from the event's wall-clock fields and the UTC offset its zone
has on that date. The offset is −07:00, Pacific Daylight Time, for every event in the
table. `Civil.InstantOf` converts these into an instant, using a proleptic Gregorian
day count.

## Model

| member | source | states |
|---|---|---|
| Text.PadStart | src/components/countdown-timer.tsx:72 | `padStart` never cuts. The result is max(length, width) long, ends with the original string, and has only fill characters in front of it. When the string is already at least width long, it comes back unchanged. |
| Text.NatToString | src/components/countdown-timer.tsx:72 | `toString` of a natural number is at least one digit long, all digits, with no leading zero. Numbers of 10 or more have at least two digits. |
| Text.IntToString | src/components/countdown-timer.tsx:72 | `toString` of a non-negative integer is a digit string, with no leading zero, that reads back as the number. For a negative integer it is '-' followed by such a digit string, which reads back as the absolute value. |
| Text.ParseNatToString | src/components/countdown-timer.tsx:72 | Reading back the decimal text of n gives n. |
| Text.ParseNatLeadingZeros | src/components/countdown-timer.tsx:72 | Zeros added in front do not change the value a digit string reads as. |
| Text.NatToStringShort | src/components/countdown-timer.tsx:118 | A number below 10^k has at most k digits. |
| Text.NatToStringLong | src/components/countdown-timer.tsx:118 | A number of at least 10^k has more than k digits. |
| Civil.InstantOfReadsBack | src/components/event-timeline.tsx:25 | The instant `InstantOf` gives a valid wall-clock reading, shifted back by the zone's offset, falls on the reading's day (its day count) at the reading's time of day. So `fromObject` with a fixed offset loses nothing. |
| Civil.DivModUnique | src/components/countdown-timer.tsx:31-37 | Quotient and remainder fix a division. The uniqueness of the split and the read-back of an instant rest on this step. |
| Civil.CivilDayCount | src/components/event-timeline.tsx:25 | The day count behind `DateTime.fromObject` is 0 on 1970-01-01 and grows by one from each day to the next within a month. |
| EventTimeline.FindEvent | src/components/event-timeline.tsx:124 | `find` gives None exactly when no event has the id. Otherwise it gives an event with that id, and no event listed before it has that id. |
| EventTimeline.FindEventUnique | src/components/event-timeline.tsx:124 | When ids are distinct, looking up the id of any listed event returns that event. |
| EventTimeline.EventLookup | src/components/event-timeline.tsx:120 | Looking up any id of the event table returns exactly that event. |
| EventTimeline.EventTableFacts | src/components/event-timeline.tsx:18-51 | The table has four well-formed events with pairwise distinct ids, all in America/Los_Angeles. Their dates strictly increase. |
| EventTimeline.EventInstants | src/components/event-timeline.tsx:18-51 | The four dates are the instants 2025-05-08T01:00Z, 2025-05-30T16:00Z, 2025-07-01T06:59Z and 2025-07-26T23:00Z, which are the table's Pacific Daylight Time readings. |
| EventTimeline.EventLabelsMatchDates | src/components/event-timeline.tsx:18-51 | Each event's `day` label is the two-digit day of its date. Its `month` label is the name of its date's month. |
| EventTimeline.PanelVisible | src/components/event-timeline.tsx:110 | The panel is shown exactly when `showGlobalTimes` is true and a non-empty selected id is present. An empty id is falsy, as in JavaScript. |
| EventTimeline.GlobalTimeCards | src/components/event-timeline.tsx:123-138 | The panel's `map` gives one entry per major city. |
| EventTimeline.TimelinePanelCards | src/components/event-timeline.tsx:123-138 | Over the real table and the eight major cities, the panel has eight entries. They are all empty for an id no event has. Otherwise each is that city's card of the matching event's instant. |
| EventTimeline.NoMatchNoCards | src/components/event-timeline.tsx:124-125 | When no event has the selected id, every entry is empty, so no card is produced. |
| EventTimeline.MatchCards | src/components/event-timeline.tsx:123-137 | When an event has the selected id, each city's card carries that event's instant. |
| EventTimeline.Timeline.constructor | src/components/event-timeline.tsx:71 | The panel starts closed. |
| EventTimeline.NextShowGlobalTimes | src/components/event-timeline.tsx:75 | After a click, the panel flag is false exactly when it was true and the clicked event was already the selected one. |
| EventTimeline.Timeline.HandleEventClick | src/components/event-timeline.tsx:73-76 | A click always reports the clicked event to the parent. Clicking the already-selected event flips `showGlobalTimes`. Clicking any other event sets it to true. |
| EventTimeline.ClickThenPanel | src/components/event-timeline.tsx:75 | After a click, once the parent has selected the clicked event, the panel is shown unless it was already shown for that same event. |
| EventTimeline.DoubleClickRestores | src/components/event-timeline.tsx:75 | Two clicks on the selected event leave the panel flag as it was. |
| CityGrid.GroupByRegion | src/components/city-grid.tsx:71-80 | The one-pass `reduce` gives exactly the buckets of `Grouped`: one bucket per region that occurs, holding that region's cities in list order. |
| CityGrid.InRegionAbsent | src/components/city-grid.tsx:73-75 | A region that no city has gets an empty filter. This is why a bucket created on the first city of its region starts out empty. |
| CityGrid.InRegionMembers | src/components/city-grid.tsx:76 | A bucket holds exactly the cities of its region. |
| CityGrid.InRegionKeepsOrder | src/components/city-grid.tsx:76 | A bucket is a subsequence of the list: no city is reordered. |
| CityGrid.InRegionCount | src/components/city-grid.tsx:71-80 | A city occurs in its own region's bucket as often as in the list, and in no other bucket. |
| CityGrid.EveryCityInOwnBucket | src/components/city-grid.tsx:71-80 | Every city is in the bucket keyed by its own region. Every bucket holds only cities of its key's region, so no city is in another bucket. |
| CityGrid.BucketsKeepOrder | src/components/city-grid.tsx:71-80 | Within each bucket, cities keep their relative order from the list. |
| CityGrid.RegionCities | src/components/city-grid.tsx:92 | A region with no bucket shows no cities and is not an error. A region with a bucket shows that bucket. |
| CityGrid.GroupedRegion | src/components/city-grid.tsx:92 | Showing a region of the grouped list shows that region's filter, whether or not it has a bucket. |
| CityGrid.Displayed | src/components/city-grid.tsx:88-94 | The grid shows exactly the cities found in the bucket of some region of the order. |
| CityGrid.DisplayedCount | src/components/city-grid.tsx:88-94 | Walking a region order with no repeats shows each city as often as the list holds it if its region is in the order, and never otherwise. |
| CityGrid.DisplayedIsPermutation | src/components/city-grid.tsx:88-94 | If every region of the list is in the order and the order has no repeats, the grid shows a permutation of the list, with as many cities as the list. |
| CityGrid.CityTableFacts | src/components/city-grid.tsx:17-68 | The table has 50 cities. Every region it uses is in `regionOrder`, and `regionOrder` has no repeats. |
| CityGrid.CityNamesDistinct | src/components/city-grid.tsx:17-68 | No two cities share a name, so names can serve as card keys. |
| CityGrid.GridShowsEveryCity | src/components/city-grid.tsx:83-94 | The grid shows all 50 cities of the table, each exactly once. The buckets it walks are the regions' filters, so their sizes add up to 50. |
| CountdownTimer.Split | src/components/countdown-timer.tsx:31-37 | A non-negative span splits into days, hours < 24, minutes < 60, seconds < 60 and ms < 1000. Recombining them gives the span back. |
| CountdownTimer.SplitTotal | src/components/countdown-timer.tsx:31-37 | Splitting the total of normalized components gives those components back, so the split is unique. |
| CountdownTimer.Diff | src/components/countdown-timer.tsx:31-37 | The five components always add up to target − now. They are normalized when the target is not before now. When it is, they are a normalized split negated. |
| CountdownTimer.Tick | src/components/countdown-timer.tsx:39-59 | The countdown is judged past exactly when now > target and (now − target) is not a whole number of seconds. When past, every component is 0. Otherwise `isPast` is false and the components add up to target − now, normalized when the target is not before now. |
| CountdownTimer.CountdownTimer.constructor | src/components/countdown-timer.tsx:19-26 | The component starts with all components 0 and `isPast` false. |
| CountdownTimer.CountdownTimer.CalculateTimeRemaining | src/components/countdown-timer.tsx:29-60 | One evaluation leaves `timeRemaining` and `isPast` equal to `Tick(targetDate, now)`. |
| CountdownTimer.UpcomingCountdown | src/components/countdown-timer.tsx:52-59 | Before the deadline, the countdown is not past and shows the unique normalized split of the time left. |
| CountdownTimer.WholeSecondOverdueNotPast | src/components/countdown-timer.tsx:39 | A deadline a whole number of seconds ago is not judged past. The components then show negative values. |
| CountdownTimer.OneSecondOverdue | src/components/countdown-timer.tsx:39 | One second after the deadline, the state is 0 d, 0 h, 0 min, −1 s, 0 ms with `isPast` false. |
| CountdownTimer.IntendedTick | src/components/countdown-timer.tsx:39-49 | With the intended check, the countdown is past exactly when now > target. Otherwise the components are normalized and add up to target − now. |
| CountdownTimer.TickAgreesWithIntended | src/components/countdown-timer.tsx:39 | The as-written check and the intended check differ exactly when the deadline passed a whole number of seconds ago. |
| CountdownTimer.FormatNumber | src/components/countdown-timer.tsx:71-73 | `formatNumber(n, d)` has length max(len(str(n)), d), ends with str(n), and has only '0' before it. |
| CountdownTimer.TimeUnitText | src/components/countdown-timer.tsx:118 | The text of a time unit is at least two characters long. For a non-negative value it is a digit string that reads back as the value, and for values below 100 it is exactly two characters. |
| CountdownTimer.FormatNumberReadsBack | src/components/countdown-timer.tsx:71-73 | A padded non-negative number still reads as that number. |
| CountdownTimer.WideDaysUnchanged | src/components/countdown-timer.tsx:118 | A day count of 100 or more is shown with all its digits, unpadded and uncut. |
| CountdownTimer.UpcomingDisplayWidths | src/components/countdown-timer.tsx:87-97 | Before the deadline, hours, minutes and seconds show as exactly two characters, milliseconds as exactly three, and days as at least two. |
| CountdownApp.Upcoming | src/components/countdown-app.tsx:20 | The filter keeps exactly the events strictly after now. An event at exactly now is not kept. |
| CountdownApp.UpcomingConcat | src/components/countdown-app.tsx:20 | Filtering a concatenation filters each part and joins the results, so the filter keeps list order and multiplicity. |
| CountdownApp.InsertByDate | src/components/countdown-app.tsx:24 | Insertion adds exactly the one event: the result is the input's multiset plus that event. |
| CountdownApp.InsertByDatePosition | src/components/countdown-app.tsx:24 | The event goes in after every event strictly earlier than it and in front of the first event whose date is not earlier. The rest of the list is untouched. |
| CountdownApp.InsertByDateSorted | src/components/countdown-app.tsx:24 | Insertion into a sorted list keeps it sorted. |
| CountdownApp.SortByDate | src/components/countdown-app.tsx:24 | The sort gives a permutation of its input that is ordered by date. |
| CountdownApp.FirstEarliestIsFirstMinimum | src/components/countdown-app.tsx:24 | The first earliest event has the smallest date. Every event listed before it is strictly later. |
| CountdownApp.SortHeadIsFirstEarliest | src/components/countdown-app.tsx:24 | Because the sort is stable, its first element is the first earliest event. |
| CountdownApp.NextUpcoming | src/components/countdown-app.tsx:20-24 | The chosen event is None exactly when no event is after now. Otherwise it is a listed event strictly after now, with the smallest date among all events after now. |
| CountdownApp.UpcomingFirstEarliest | src/components/countdown-app.tsx:20-24 | The first earliest event of the filtered list sits in the event list after only events that are not upcoming or strictly later. |
| CountdownApp.NextUpcomingBreaksTiesByListOrder | src/components/countdown-app.tsx:20-24 | The chosen event sits in the event list after only events that are not upcoming or strictly later than it. So among upcoming events sharing the earliest date, the one listed first in the event list is chosen. |
| CountdownApp.CountdownApp.constructor | src/components/countdown-app.tsx:13-15 | The page starts with no target, no selected event, and the drawer closed. |
| CountdownApp.CountdownApp.LoadInitialTarget | src/components/countdown-app.tsx:18-31 | On first load, when an event is after now, `selectedEvent` is `NextUpcoming` and `targetDate` is its date. Otherwise `selectedEvent` stays null and `targetDate` is the second clock reading plus one day. The drawer flag is unchanged. |
| CountdownApp.CountdownApp.HandleDateSubmit | src/components/countdown-app.tsx:33-37 | A submitted date becomes the target, the selection is cleared, and the drawer closes. |
| CountdownApp.CountdownApp.HandleEventSelect | src/components/countdown-app.tsx:39-42 | The chosen event becomes the selection and its date the target. The drawer flag is unchanged. |
| CountdownApp.CountdownApp.OpenDrawer | src/components/countdown-app.tsx:82 | The floating button opens the drawer and keeps the page invariant. |
| CountdownApp.CountdownApp.CloseDrawer | src/components/countdown-app.tsx:91 | The drawer's close handler closes it and keeps the page invariant. |
| CountdownApp.CountdownApp.SelectedEventId | src/components/countdown-app.tsx:55 | The id handed to the timeline is present only when an event with a non-empty id is selected, and then it is that id. |
| CountdownApp.ClickTimelineEvent | src/components/event-timeline.tsx:73-76 | After a timeline click, the page has selected the event and targets its date. The panel is open unless it was already open for that event. |
| CountdownApp.LoadPicksFirstLaterEvent | src/components/countdown-app.tsx:18-31 | Because the table is in date order, the first load picks the first listed event that is after now. |

## Left out

- `setInterval(calculateTimeRemaining, 10)` and its `clearInterval` teardown (countdown-timer.tsx:62-68). The model covers one evaluation with now as a parameter.
- The real clock. `DateTime.now()` is a parameter. The load effect reads it twice (countdown-app.tsx:19 and :29), and the model takes the two readings as two parameters.
- Calendar-day and daylight-saving behaviour of luxon's `diff` in days and of `plus({ days: 1 })`. Days are fixed 24-hour spans.
- The IANA time zone database. The offset of America/Los_Angeles on the event dates is taken as −07:00, not derived from the zone's rules.
- What the city cards and the global-times cards display, through `setZone`, `toFormat` and `toLocal`, and the zone abbreviation "ZZZZ". A card is modelled as its city, zone and the instant it shows.
- `Math.floor` on the diff components. The components of a diff of whole milliseconds are integers, so the floor changes nothing.
- The `targetDate && ...` guard on rendering the countdown and grid, the "Custom Countdown" and title labels, and the other JSX, styling and animation.
- The JavaScript object behind the reduce's accumulator. Region names are map keys, so prototype keys such as "constructor" are not modelled.
- CountdownApp.SortByDate: the sort runs on the filtered copy as a pure stable insertion sort, not in place on an array. The model therefore does not capture the copy being reordered in place.
- date-time-drawer.tsx: its local-time setters, ISO validation and formatting are library calls. footer.tsx, loading.tsx and App.tsx are static markup and page composition.

## Findings

| source | as written | input that shows it | evidently intended | confidence | as-written member | corrected member |
|---|---|---|---|---|---|---|
| src/components/countdown-timer.tsx:39 | The deadline counts as passed only when the milliseconds component of the diff is negative. | Take now = target + 1000 ms. luxon negates every component of a negative diff, so the diff is 0 d 0 h 0 min −1 s 0 ms. The check does not fire, and the timer shows "-1" seconds instead of "already occurred". The same happens whenever the deadline passed a whole number of seconds ago. | Past whenever now is after the target. | not executed; relies on luxon splitting a negative diff by its size and negating every component | CountdownTimer.OneSecondOverdue | CountdownTimer.IntendedTick |

The component model, `CountdownTimer.CalculateTimeRemaining`, keeps the check as written,
because that is what the page does. `IntendedTick` has the intended check.
`TickAgreesWithIntended` proves that the two differ exactly on the inputs described above.
