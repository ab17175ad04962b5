/**
 * The hackathon timeline: a fixed table of four events in San Francisco
 * local time, the lookup of the selected event by id, and the rule that
 * shows or hides the "global times" panel when an event card is clicked.
 */
module EventTimeline {
  import opened Wrappers
  import opened Civil
  import Text

  /** An event of the timeline; `local` and `offsetMinutes` give its instant. */
  datatype EventDate = EventDate(
    id: string,
    month: string,
    day: string,
    title: string,
    description: string,
    local: LocalDateTime,
    zone: string,
    offsetMinutes: int)
  {
    predicate WellFormed() {
      ValidLocal(local)
    }

    /** The instant of the event, in milliseconds since the epoch. */
    function Date(): int
      requires WellFormed()
    {
      InstantOf(local, offsetMinutes)
    }
  }

  const PacificZone: string := "America/Los_Angeles"
  /** UTC offset of America/Los_Angeles on every date of the table (Pacific Daylight Time). */
  const PacificDaylightOffset: int := -7 * 60

  function Pacific(id: string, month: string, day: string, title: string, description: string,
                   t: LocalDateTime): EventDate
  {
    EventDate(id, month, day, title, description, t, PacificZone, PacificDaylightOffset)
  }

  /** The events of the timeline, shared with the countdown page. */
  const EventDates: seq<EventDate> := [
    Pacific("kickoff", "MAY", "07", "Kickoff Party", "Location, San Francisco",
            LocalDateTime(2025, 5, 7, 18, 0)),
    Pacific("begins", "MAY", "30", "Hackathon Begins", "Hybrid, Worldwide",
            LocalDateTime(2025, 5, 30, 9, 0)),
    Pacific("ends", "JUNE", "30", "Hackathon Ends", "Hybrid, Worldwide",
            LocalDateTime(2025, 6, 30, 23, 59)),
    Pacific("awards", "JULY", "26", "Award Ceremony", "Hybrid, Worldwide",
            LocalDateTime(2025, 7, 26, 16, 0))
  ]

  /** A city of the global-times panel. */
  datatype MajorCity = MajorCity(name: string, timezone: string)

  const MajorCities: seq<MajorCity> := [
    MajorCity("San Francisco", "America/Los_Angeles"),
    MajorCity("New York", "America/New_York"),
    MajorCity("London", "Europe/London"),
    MajorCity("Berlin", "Europe/Berlin"),
    MajorCity("Dubai", "Asia/Dubai"),
    MajorCity("Tokyo", "Asia/Tokyo"),
    MajorCity("Sydney", "Australia/Sydney"),
    MajorCity("Auckland", "Pacific/Auckland")
  ]

  /** A card of the panel: the event's instant, to be shown in the city's zone. */
  datatype TimeCard = TimeCard(city: string, timezone: string, instant: int)

  const MonthNames: seq<string> := [
    "JANUARY", "FEBRUARY", "MARCH", "APRIL", "MAY", "JUNE",
    "JULY", "AUGUST", "SEPTEMBER", "OCTOBER", "NOVEMBER", "DECEMBER"
  ]

  predicate AllWellFormed(events: seq<EventDate>) {
    forall i :: 0 <= i < |events| ==> events[i].WellFormed()
  }

  predicate DistinctIds(events: seq<EventDate>) {
    forall i, j :: 0 <= i < j < |events| ==> events[i].id != events[j].id
  }

  /**
   * `events.find((e) => e.id === id)`: the first event whose id is id, or
   * None when there is none.
   */
  function FindEvent(events: seq<EventDate>, id: string): (r: Option<EventDate>)
    ensures r.None? <==> forall i :: 0 <= i < |events| ==> events[i].id != id
    ensures r.Some? ==> exists k :: 0 <= k < |events| && events[k] == r.value && r.value.id == id
                                    && forall j :: 0 <= j < k ==> events[j].id != id
  {
    if events == [] then None
    else if events[0].id == id then Some(events[0])
    else
      var r := FindEvent(events[1..], id);
      assert r.Some? ==> exists k :: 0 <= k < |events| && events[k] == r.value && r.value.id == id
                                     && forall j :: 0 <= j < k ==> events[j].id != id by {
        if r.Some? {
          var k :| 0 <= k < |events[1..]| && events[1..][k] == r.value && r.value.id == id
                   && forall j :: 0 <= j < k ==> events[1..][j].id != id;
          assert events[k + 1] == r.value;
          assert forall j :: 0 <= j < k + 1 ==> events[j].id != id by {
            forall j | 0 <= j < k + 1 ensures events[j].id != id {
              if j > 0 { assert events[j] == events[1..][j - 1]; }
            }
          }
        }
      }
      r
  }

  /** With distinct ids, looking up the id of an event of the list finds that very event. */
  lemma {:induction false} FindEventUnique(events: seq<EventDate>, k: nat)
    requires k < |events| && DistinctIds(events)
    ensures FindEvent(events, events[k].id) == Some(events[k])
  {
    var r := FindEvent(events, events[k].id);
    var k' :| 0 <= k' < |events| && events[k'] == r.value && r.value.id == events[k].id
              && forall j :: 0 <= j < k' ==> events[j].id != events[k].id;
    if k' < k {
      assert events[k'].id != events[k].id;
    }
  }

  /**
   * The new value of `showGlobalTimes` after a click on the event with id
   * clickedId, given its value before and the id the parent had selected
   * before the click.
   */
  function NextShowGlobalTimes(showGlobalTimes: bool, selectedEventId: Option<string>, clickedId: string): (r: bool)
    ensures !r <==> showGlobalTimes && selectedEventId == Some(clickedId)
  {
    if selectedEventId == Some(clickedId) then !showGlobalTimes else true
  }

  /** The panel is rendered when `showGlobalTimes && selectedEventId` is truthy. */
  function PanelVisible(showGlobalTimes: bool, selectedEventId: Option<string>): (r: bool)
    ensures r ==> showGlobalTimes && selectedEventId.Some? && selectedEventId.value != ""
    ensures showGlobalTimes && selectedEventId.Some? && selectedEventId.value != "" ==> r
  {
    showGlobalTimes && selectedEventId.Some? && selectedEventId.value != ""
  }

  /**
   * `majorCities.map(...)` in the panel: one entry per city, empty (null)
   * when no event has the selected id, otherwise a card with the event's instant.
   */
  function GlobalTimeCards(events: seq<EventDate>, selectedEventId: string, cities: seq<MajorCity>): (cards: seq<Option<TimeCard>>)
    requires AllWellFormed(events)
    ensures |cards| == |cities|
  {
    seq(|cities|, i requires 0 <= i < |cities| =>
      match FindEvent(events, selectedEventId)
      case None => None
      case Some(e) => Some(TimeCard(cities[i].name, cities[i].timezone, e.Date())))
  }

  /** The state the timeline component keeps: whether the global-times panel is open. */
  class Timeline {
    var showGlobalTimes: bool

    constructor ()
      ensures !showGlobalTimes
    {
      showGlobalTimes := false;
    }

    /**
     * A click on an event card: the event is reported to the parent (the
     * result), and the panel flag is flipped when the event was already the
     * selected one and set otherwise.
     */
    method HandleEventClick(event: EventDate, selectedEventId: Option<string>) returns (reported: EventDate)
      modifies this
      ensures reported == event
      ensures showGlobalTimes == NextShowGlobalTimes(old(showGlobalTimes), selectedEventId, event.id)
      ensures selectedEventId == Some(event.id) ==> showGlobalTimes == !old(showGlobalTimes)
      ensures selectedEventId != Some(event.id) ==> showGlobalTimes
    {
      reported := event;
      showGlobalTimes := if selectedEventId == Some(event.id) then !showGlobalTimes else true;
    }

    function PanelShown(selectedEventId: Option<string>): bool
      reads this
    {
      PanelVisible(showGlobalTimes, selectedEventId)
    }
  }

  /**
   * After a click on an event whose id the parent then selects, the panel is
   * shown unless it was already shown for that same event: a click on a new
   * event opens it, a second click on the open event closes it.
   */
  lemma ClickThenPanel(showGlobalTimes: bool, selectedEventId: Option<string>, clicked: EventDate)
    requires clicked.id != ""
    ensures PanelVisible(NextShowGlobalTimes(showGlobalTimes, selectedEventId, clicked.id), Some(clicked.id))
        <==> !(showGlobalTimes && selectedEventId == Some(clicked.id))
  {
  }

  /** Two clicks on the selected event leave the panel as it was. */
  lemma DoubleClickRestores(showGlobalTimes: bool, id: string)
    ensures NextShowGlobalTimes(NextShowGlobalTimes(showGlobalTimes, Some(id), id), Some(id), id) == showGlobalTimes
  {
  }

  /** With no event of the given id, the panel holds no card. */
  lemma NoMatchNoCards(events: seq<EventDate>, selectedEventId: string, cities: seq<MajorCity>)
    requires AllWellFormed(events)
    requires forall i :: 0 <= i < |events| ==> events[i].id != selectedEventId
    ensures forall i :: 0 <= i < |cities| ==> GlobalTimeCards(events, selectedEventId, cities)[i].None?
  {
  }

  /** With a matching event, every city gets a card showing that event's instant. */
  lemma MatchCards(events: seq<EventDate>, k: nat, cities: seq<MajorCity>)
    requires AllWellFormed(events) && DistinctIds(events) && k < |events|
    ensures forall i :: 0 <= i < |cities| ==>
      GlobalTimeCards(events, events[k].id, cities)[i]
        == Some(TimeCard(cities[i].name, cities[i].timezone, events[k].Date()))
  {
    FindEventUnique(events, k);
  }

  /** The table: well-formed, distinct ids, all in Pacific time, in strictly increasing date order. */
  lemma EventTableFacts()
    ensures |EventDates| == 4 && AllWellFormed(EventDates) && DistinctIds(EventDates)
    ensures forall i :: 0 <= i < |EventDates| ==> EventDates[i].zone == PacificZone
    ensures forall i :: 0 <= i < |EventDates| - 1 ==> EventDates[i].Date() < EventDates[i + 1].Date()
  {
  }

  /** The labels of an event are the two-digit day and the month name of its date. */
  predicate LabelsMatchDate(e: EventDate) {
    && e.local.day >= 1
    && e.day == Text.PadStart(Text.NatToString(e.local.day), 2, '0')
    && 1 <= e.local.month <= 12
    && e.month == MonthNames[e.local.month - 1]
  }

  /** Every event of the table is labelled with the day and month of its date. */
  lemma EventLabelsMatchDates(i: nat)
    requires i < |EventDates|
    ensures LabelsMatchDate(EventDates[i])
  {
    if i == 0 {
      assert Text.NatToString(7) == "7";
    } else if i == 1 {
      assert Text.NatToString(30) == "30";
    } else if i == 2 {
      assert Text.NatToString(30) == "30";
    } else {
      assert Text.NatToString(26) == "26";
    }
  }

  /**
   * The table's dates are the instants the wall-clock readings name in
   * Pacific Daylight Time: 2025-05-08T01:00Z, 2025-05-30T16:00Z,
   * 2025-07-01T06:59Z and 2025-07-26T23:00Z.
   */
  lemma EventInstants()
    ensures EventDates[0].Date() == 1746666000000
    ensures EventDates[1].Date() == 1748620800000
    ensures EventDates[2].Date() == 1751353140000
    ensures EventDates[3].Date() == 1753570800000
  {
  }

  /**
   * The panel over the real table and the eight major cities: eight entries,
   * all empty for an id no event has, and all cards of the event otherwise.
   */
  lemma TimelinePanelCards(selectedEventId: string)
    ensures |GlobalTimeCards(EventDates, selectedEventId, MajorCities)| == 8
    ensures (forall k :: 0 <= k < |EventDates| ==> EventDates[k].id != selectedEventId) ==>
      forall i :: 0 <= i < 8 ==> GlobalTimeCards(EventDates, selectedEventId, MajorCities)[i].None?
    ensures forall k, i :: 0 <= k < |EventDates| && EventDates[k].id == selectedEventId && 0 <= i < 8 ==>
      GlobalTimeCards(EventDates, selectedEventId, MajorCities)[i]
        == Some(TimeCard(MajorCities[i].name, MajorCities[i].timezone, EventDates[k].Date()))
  {
    EventTableFacts();
    forall k | 0 <= k < |EventDates| && EventDates[k].id == selectedEventId {
      MatchCards(EventDates, k, MajorCities);
    }
  }

  /** Looking up any id of the table finds exactly that event. */
  lemma EventLookup(k: nat)
    requires k < |EventDates|
    ensures FindEvent(EventDates, EventDates[k].id) == Some(EventDates[k])
  {
    EventTableFacts();
    FindEventUnique(EventDates, k);
  }
}
