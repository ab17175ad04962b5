/**
 * The countdown page: which deadline it counts down to. On first load it
 * picks the earliest event still ahead (or a day from now when none is);
 * afterwards a custom date from the drawer or a click on an event replaces
 * the target.
 */
module CountdownApp {
  import opened Wrappers
  import opened Civil
  import opened EventTimeline

  /** `events.filter((event) => event.date > now)`: the events strictly after now, in list order. */
  function Upcoming(events: seq<EventDate>, now: int): (r: seq<EventDate>)
    requires AllWellFormed(events)
    ensures AllWellFormed(r) && |r| <= |events|
    ensures forall e :: e in r <==> e in events && e.WellFormed() && e.Date() > now
  {
    if events == [] then []
    else
      var rest := Upcoming(events[1..], now);
      assert forall e :: e in events <==> e == events[0] || e in events[1..];
      if events[0].Date() > now then [events[0]] + rest else rest
  }

  lemma AllWellFormedConcat(a: seq<EventDate>, b: seq<EventDate>)
    requires AllWellFormed(a) && AllWellFormed(b)
    ensures AllWellFormed(a + b)
  {
    forall i | 0 <= i < |a + b| ensures (a + b)[i].WellFormed() {
      if i < |a| { assert (a + b)[i] == a[i]; } else { assert (a + b)[i] == b[i - |a|]; }
    }
  }

  /** Putting one element in front shifts the insertion point by one. */
  lemma InsertShift<T>(x: T, t: seq<T>, e: T, k: nat)
    requires k <= |t|
    ensures [x] + (t[..k] + [e] + t[k..]) == ([x] + t)[..k + 1] + [e] + ([x] + t)[k + 1..]
  {
    assert ([x] + t)[..k + 1] == [x] + t[..k];
    assert ([x] + t)[k + 1..] == t[k..];
  }

  /**
   * The filter works element by element: filtering a concatenation filters
   * each part, so it keeps list order and multiplicity.
   */
  lemma {:induction false} UpcomingConcat(a: seq<EventDate>, b: seq<EventDate>, now: int)
    requires AllWellFormed(a) && AllWellFormed(b)
    ensures AllWellFormed(a + b)
    ensures Upcoming(a + b, now) == Upcoming(a, now) + Upcoming(b, now)
  {
    var ab := a + b;
    AllWellFormedConcat(a, b);
    if a == [] {
      assert ab == b;
    } else {
      assert ab[0] == a[0] && ab[1..] == a[1..] + b;
      UpcomingConcat(a[1..], b, now);
      var head := if a[0].Date() > now then [a[0]] else [];
      assert Upcoming(ab, now) == head + Upcoming(ab[1..], now);
      assert Upcoming(a, now) == head + Upcoming(a[1..], now);
    }
  }

  predicate SortedByDate(s: seq<EventDate>)
    requires AllWellFormed(s)
  {
    forall i, j :: 0 <= i < j < |s| ==> s[i].Date() <= s[j].Date()
  }

  /** Puts e before the first event of a list whose date is not earlier than e's. */
  function InsertByDate(e: EventDate, sorted: seq<EventDate>): (r: seq<EventDate>)
    requires e.WellFormed() && AllWellFormed(sorted)
    ensures multiset(r) == multiset(sorted) + multiset{e} && |r| == |sorted| + 1
    ensures AllWellFormed(r)
    ensures r[0] == if sorted == [] || e.Date() <= sorted[0].Date() then e else sorted[0]
  {
    if sorted == [] || e.Date() <= sorted[0].Date() then [e] + sorted
    else
      var tail := InsertByDate(e, sorted[1..]);
      assert sorted == [sorted[0]] + sorted[1..];
      [sorted[0]] + tail
  }

  /**
   * r is sorted with e put in at position k: after every event strictly
   * earlier than e and before the first one that is not earlier, with the
   * rest of the list untouched.
   */
  predicate InsertedAt(e: EventDate, sorted: seq<EventDate>, r: seq<EventDate>, k: int)
    requires e.WellFormed() && AllWellFormed(sorted)
  {
    && 0 <= k <= |sorted|
    && r == sorted[..k] + [e] + sorted[k..]
    && (forall j :: 0 <= j < k ==> sorted[j].Date() < e.Date())
    && (k < |sorted| ==> e.Date() <= sorted[k].Date())
  }

  /** An event strictly earlier than e, put in front, moves the insertion point by one. */
  lemma InsertedAtCons(e: EventDate, x: EventDate, t: seq<EventDate>, r: seq<EventDate>, k: int)
    requires e.WellFormed() && x.WellFormed() && AllWellFormed(t) && AllWellFormed([x] + t)
    requires x.Date() < e.Date() && InsertedAt(e, t, r, k)
    ensures InsertedAt(e, [x] + t, [x] + r, k + 1)
  {
    var s := [x] + t;
    InsertShift(x, t, e, k);
    forall j | 0 <= j < k + 1 ensures s[j].Date() < e.Date() {
      if j > 0 { assert s[j] == t[j - 1]; }
    }
    assert k + 1 < |s| ==> s[k + 1] == t[k];
  }

  /** `InsertByDate` puts the event in at the place `InsertedAt` describes. */
  lemma {:induction false} InsertByDatePosition(e: EventDate, sorted: seq<EventDate>)
    requires e.WellFormed() && AllWellFormed(sorted)
    ensures exists k :: InsertedAt(e, sorted, InsertByDate(e, sorted), k)
  {
    if sorted == [] || e.Date() <= sorted[0].Date() {
      assert InsertedAt(e, sorted, InsertByDate(e, sorted), 0);
    } else {
      var t := sorted[1..];
      InsertByDatePosition(e, t);
      var k :| InsertedAt(e, t, InsertByDate(e, t), k);
      assert sorted == [sorted[0]] + t;
      InsertedAtCons(e, sorted[0], t, InsertByDate(e, t), k);
      assert InsertedAt(e, sorted, InsertByDate(e, sorted), k + 1);
    }
  }

  /** Inserting into a sorted list keeps it sorted. */
  lemma {:induction false} InsertByDateSorted(e: EventDate, sorted: seq<EventDate>)
    requires e.WellFormed() && AllWellFormed(sorted) && SortedByDate(sorted)
    ensures SortedByDate(InsertByDate(e, sorted))
  {
    if sorted != [] && e.Date() > sorted[0].Date() {
      var tail := InsertByDate(e, sorted[1..]);
      InsertByDateSorted(e, sorted[1..]);
      var r := [sorted[0]] + tail;
      forall i, j | 0 <= i < j < |r| ensures r[i].Date() <= r[j].Date() {
        if i == 0 {
          assert r[j] == tail[j - 1];
          assert r[j] in multiset(tail);
          assert r[j] == e || r[j] in multiset(sorted[1..]);
          if r[j] != e {
            var m :| 0 <= m < |sorted[1..]| && sorted[1..][m] == r[j];
            assert sorted[m + 1] == r[j];
          }
        } else {
          assert r[i] == tail[i - 1] && r[j] == tail[j - 1];
        }
      }
    }
  }

  /**
   * `upcomingEvents.sort((a, b) => a.date.toMillis() - b.date.toMillis())`:
   * a stable sort by date (events with equal dates keep their list order).
   */
  function SortByDate(s: seq<EventDate>): (r: seq<EventDate>)
    requires AllWellFormed(s)
    ensures multiset(r) == multiset(s) && |r| == |s|
    ensures AllWellFormed(r) && SortedByDate(r)
  {
    if s == [] then []
    else
      assert s == [s[0]] + s[1..];
      var rest := SortByDate(s[1..]);
      InsertByDateSorted(s[0], rest);
      InsertByDate(s[0], rest)
  }

  /** The first event in list order among those with the smallest date. */
  function FirstEarliest(s: seq<EventDate>): (r: EventDate)
    requires s != [] && AllWellFormed(s)
    ensures r.WellFormed()
  {
    if |s| == 1 then s[0]
    else
      var m := FirstEarliest(s[1..]);
      if s[0].Date() <= m.Date() then s[0] else m
  }

  /** FirstEarliest has the smallest date, and every event before it in the list is strictly later. */
  lemma {:induction false} FirstEarliestIsFirstMinimum(s: seq<EventDate>)
    requires s != [] && AllWellFormed(s)
    ensures exists k :: 0 <= k < |s| && s[k] == FirstEarliest(s)
                        && forall j :: 0 <= j < k ==> s[j].Date() > FirstEarliest(s).Date()
    ensures forall i :: 0 <= i < |s| ==> FirstEarliest(s).Date() <= s[i].Date()
  {
    if |s| == 1 {
      assert s[0] == FirstEarliest(s);
    } else {
      FirstEarliestIsFirstMinimum(s[1..]);
      var m := FirstEarliest(s[1..]);
      var k :| 0 <= k < |s[1..]| && s[1..][k] == m && forall j :: 0 <= j < k ==> s[1..][j].Date() > m.Date();
      if s[0].Date() > m.Date() {
        assert s[k + 1] == m;
        forall j | 0 <= j < k + 1 ensures s[j].Date() > m.Date() {
          if j > 0 { assert s[j] == s[1..][j - 1]; }
        }
      } else {
        assert s[0] == FirstEarliest(s);
      }
      forall i | 0 < i < |s| ensures FirstEarliest(s).Date() <= s[i].Date() {
        assert s[i] == s[1..][i - 1];
      }
    }
  }

  /** The stable sort puts FirstEarliest first. */
  lemma {:induction false} SortHeadIsFirstEarliest(s: seq<EventDate>)
    requires s != [] && AllWellFormed(s)
    ensures SortByDate(s)[0] == FirstEarliest(s)
  {
    if |s| > 1 {
      SortHeadIsFirstEarliest(s[1..]);
    }
  }

  /**
   * The event the page starts on: the first element of the sorted upcoming
   * events, or None when no event lies after now.
   */
  function NextUpcoming(events: seq<EventDate>, now: int): (r: Option<EventDate>)
    requires AllWellFormed(events)
    ensures r.None? <==> forall i :: 0 <= i < |events| ==> events[i].Date() <= now
    ensures r.Some? ==> r.value in events && r.value.WellFormed() && r.value.Date() > now
    ensures r.Some? ==> forall i :: 0 <= i < |events| && events[i].Date() > now ==> r.value.Date() <= events[i].Date()
  {
    var upcomingEvents := Upcoming(events, now);
    assert forall i :: 0 <= i < |events| && events[i].Date() > now ==> events[i] in upcomingEvents;
    if |upcomingEvents| > 0 then
      SortHeadIsFirstEarliest(upcomingEvents);
      FirstEarliestIsFirstMinimum(upcomingEvents);
      var next := SortByDate(upcomingEvents)[0];
      assert next in upcomingEvents;
      assert forall i :: 0 <= i < |events| && events[i].Date() > now ==> next.Date() <= events[i].Date() by {
        forall i | 0 <= i < |events| && events[i].Date() > now ensures next.Date() <= events[i].Date() {
          var m :| 0 <= m < |upcomingEvents| && upcomingEvents[m] == events[i];
        }
      }
      Some(next)
    else
      None
  }

  /**
   * The first earliest upcoming event sits in the list after only events that
   * are not upcoming or are strictly later than it.
   */
  lemma {:induction false} UpcomingFirstEarliest(events: seq<EventDate>, now: int)
    requires AllWellFormed(events) && Upcoming(events, now) != []
    ensures exists k :: 0 <= k < |events| && events[k] == FirstEarliest(Upcoming(events, now))
                        && forall j :: 0 <= j < k ==>
                             events[j].Date() <= now || events[j].Date() > FirstEarliest(Upcoming(events, now)).Date()
  {
    var u := Upcoming(events, now);
    var f := FirstEarliest(u);
    var rest := Upcoming(events[1..], now);
    if events[0].Date() > now && (rest == [] || events[0].Date() <= FirstEarliest(rest).Date()) {
      assert u == [events[0]] + rest;
      if rest != [] {
        assert u[1..] == rest;
      }
      assert events[0] == f;
    } else {
      if events[0].Date() > now {
        assert u == [events[0]] + rest && u[1..] == rest;
      }
      assert f == FirstEarliest(rest);
      UpcomingFirstEarliest(events[1..], now);
      var k :| 0 <= k < |events[1..]| && events[1..][k] == f
               && forall j :: 0 <= j < k ==> events[1..][j].Date() <= now || events[1..][j].Date() > f.Date();
      assert events[k + 1] == f;
      forall j | 0 <= j < k + 1 ensures events[j].Date() <= now || events[j].Date() > f.Date() {
        if j > 0 { assert events[j] == events[1..][j - 1]; }
      }
    }
  }

  /**
   * Among upcoming events that share the earliest date, the one listed first
   * is chosen: every event listed before it is either not upcoming or later.
   */
  lemma NextUpcomingBreaksTiesByListOrder(events: seq<EventDate>, now: int)
    requires AllWellFormed(events) && NextUpcoming(events, now).Some?
    ensures exists k :: 0 <= k < |events| && events[k] == NextUpcoming(events, now).value
                        && forall j :: 0 <= j < k ==>
                             events[j].Date() <= now || events[j].Date() > NextUpcoming(events, now).value.Date()
  {
    SortHeadIsFirstEarliest(Upcoming(events, now));
    UpcomingFirstEarliest(events, now);
  }

  /** The page's state: the target instant, the drawer flag and the selected event. */
  class CountdownApp {
    var targetDate: Option<int>
    var isDrawerOpen: bool
    var selectedEvent: Option<EventDate>

    /** Whenever an event is selected, the target is that event's date. */
    predicate Valid()
      reads this
    {
      selectedEvent.Some? ==> selectedEvent.value.WellFormed() && targetDate == Some(selectedEvent.value.Date())
    }

    constructor ()
      ensures Valid()
      ensures targetDate == None && !isDrawerOpen && selectedEvent == None
    {
      targetDate := None;
      isDrawerOpen := false;
      selectedEvent := None;
    }

    /**
     * The effect that runs once on first load, on the initial state. now is
     * the clock reading the filter uses; fallbackNow the second reading taken
     * when no event is ahead.
     */
    method LoadInitialTarget(now: int, fallbackNow: int)
      requires targetDate == None && selectedEvent == None
      modifies this
      ensures Valid() && isDrawerOpen == old(isDrawerOpen)
      ensures NextUpcoming(EventDates, now).Some? ==>
        selectedEvent == NextUpcoming(EventDates, now)
        && targetDate == Some(NextUpcoming(EventDates, now).value.Date())
      ensures NextUpcoming(EventDates, now).None? ==>
        selectedEvent == None && targetDate == Some(fallbackNow + MsPerDay)
    {
      EventTableFacts();
      var upcomingEvents := Upcoming(EventDates, now);
      if |upcomingEvents| > 0 {
        var nextEvent := SortByDate(upcomingEvents)[0];
        selectedEvent := Some(nextEvent);
        targetDate := Some(nextEvent.Date());
      } else {
        targetDate := Some(fallbackNow + MsPerDay);
      }
    }

    /** A date submitted from the drawer becomes the target; no event stays selected and the drawer closes. */
    method HandleDateSubmit(date: int)
      requires Valid()
      modifies this
      ensures Valid()
      ensures targetDate == Some(date) && selectedEvent == None && !isDrawerOpen
    {
      targetDate := Some(date);
      selectedEvent := None;
      isDrawerOpen := false;
    }

    /** A chosen event becomes the selection and its date the target; the drawer is left as it was. */
    method HandleEventSelect(event: EventDate)
      requires Valid() && event.WellFormed()
      modifies this
      ensures Valid()
      ensures selectedEvent == Some(event) && targetDate == Some(event.Date())
      ensures isDrawerOpen == old(isDrawerOpen)
    {
      selectedEvent := Some(event);
      targetDate := Some(event.Date());
    }

    /** The floating button opens the drawer. */
    method OpenDrawer()
      requires Valid()
      modifies this`isDrawerOpen
      ensures Valid() && isDrawerOpen
    {
      isDrawerOpen := true;
    }

    /** The drawer's close handler. */
    method CloseDrawer()
      requires Valid()
      modifies this`isDrawerOpen
      ensures Valid() && !isDrawerOpen
    {
      isDrawerOpen := false;
    }

    /** `selectedEvent?.id || null`: the id handed to the timeline; an empty id counts as none. */
    function SelectedEventId(): (r: Option<string>)
      reads this
      ensures r.Some? ==> selectedEvent.Some? && r.value == selectedEvent.value.id && r.value != ""
      ensures selectedEvent.Some? && selectedEvent.value.id != "" ==> r.Some?
    {
      if selectedEvent.Some? && selectedEvent.value.id != "" then Some(selectedEvent.value.id) else None
    }
  }

  /**
   * A click on an event card of the timeline: the timeline updates its panel
   * flag using the id selected before the click, and reports the event to the
   * page, which selects it. Afterwards the panel is open unless it was open
   * for this same event.
   */
  method ClickTimelineEvent(app: CountdownApp, timeline: Timeline, event: EventDate)
    requires app.Valid() && event.WellFormed() && event.id != ""
    requires app != timeline as object
    modifies app, timeline
    ensures app.Valid()
    ensures app.selectedEvent == Some(event) && app.targetDate == Some(event.Date())
    ensures timeline.PanelShown(app.SelectedEventId())
        <==> !(old(timeline.showGlobalTimes) && old(app.SelectedEventId()) == Some(event.id))
  {
    var reported := timeline.HandleEventClick(event, app.SelectedEventId());
    app.HandleEventSelect(reported);
    ClickThenPanel(old(timeline.showGlobalTimes), old(app.SelectedEventId()), event);
  }

  /** On the event table, the page starts on the first event after now, since the table is in date order. */
  lemma {:induction false} LoadPicksFirstLaterEvent(now: int, k: nat)
    requires k < |EventDates| && EventDates[k].Date() > now
    requires forall j :: 0 <= j < k ==> EventDates[j].Date() <= now
    ensures NextUpcoming(EventDates, now) == Some(EventDates[k])
  {
    EventTableFacts();
    var r := NextUpcoming(EventDates, now);
    assert r.Some?;
    var i :| 0 <= i < |EventDates| && EventDates[i] == r.value;
    assert forall a, b :: 0 <= a < b < |EventDates| ==> EventDates[a].Date() < EventDates[b].Date() by {
      forall a, b | 0 <= a < b < |EventDates| ensures EventDates[a].Date() < EventDates[b].Date() {
        AscendingStep(a, b);
      }
    }
  }

  lemma {:induction false} AscendingStep(a: nat, b: nat)
    requires a < b < |EventDates|
    ensures EventDates[a].WellFormed() && EventDates[b].WellFormed()
    ensures EventDates[a].Date() < EventDates[b].Date()
    decreases b - a
  {
    EventTableFacts();
    if a + 1 < b {
      AscendingStep(a + 1, b);
    }
  }
}
