/**
 Placement of events on calendar days (`byDay` and `cells` of EventCalendarPage.tsx). Days are consecutive
 integers; day 0 is a Sunday.
 */
module EventCalendar {
  import opened Prelude

  /** An event without an end ends on its start day; `Unparsable` is an end text that is no date. */
  datatype End = Missing | Unparsable | On(day: int)

  /** `start` is `None` when it is missing or no date. */
  datatype Event = Event(id: string, start: Option<int>, end: End)

  const GUARD := 400
  const MAX_SPAN_DAYS := 30

  /**
   The last day the loop reaches. With an unparsable end the code compares the running day with itself, so only
   the guard stops it.
   */
  function LastDay(e: Event): int
    requires e.start.Some?
  {
    var first := e.start.value;
    match e.end
    case Missing => first
    case Unparsable => first + GUARD - 1
    case On(day) => if day < first + GUARD then day else first + GUARD - 1
  }

  predicate Covers(e: Event, day: int) {
    e.start.Some? && e.start.value <= day <= LastDay(e)
  }

  /** The events covering a day, in the order of the list. */
  function EventsOn(events: seq<Event>, day: int): seq<Event> {
    if events == [] then []
    else EventsOn(events[..|events| - 1], day)
         + (if Covers(events[|events| - 1], day) then [events[|events| - 1]] else [])
  }

  function At(m: map<int, seq<Event>>, day: int): seq<Event> {
    if day in m then m[day] else []
  }

  /** Appends the event to each of its days. */
  method Place(m: map<int, seq<Event>>, e: Event) returns (r: map<int, seq<Event>>)
    ensures forall d :: At(r, d) == At(m, d) + (if Covers(e, d) then [e] else [])
  {
    r := m;
    if e.start.None? {
      return;
    }
    var first := e.start.value;
    var day, guard := first, 0;
    while (e.end.Unparsable? || day <= (if e.end.On? then e.end.day else first)) && guard < GUARD
      invariant 0 <= guard <= GUARD && day == first + guard
      invariant guard > 0 ==> day - 1 <= LastDay(e)
      invariant forall d :: At(r, d) == At(m, d) + (if first <= d < day then [e] else [])
      decreases GUARD - guard
    {
      r := r[day := At(r, day) + [e]];
      day, guard := day + 1, guard + 1;
    }
  }

  /** Every day holds exactly the events covering it, each once. */
  method ByDay(events: seq<Event>) returns (m: map<int, seq<Event>>)
    ensures forall d :: At(m, d) == EventsOn(events, d)
  {
    m := map[];
    for i := 0 to |events|
      invariant forall d :: At(m, d) == EventsOn(events[..i], d)
    {
      assert events[..i + 1][..i] == events[..i];
      m := Place(m, events[i]);
    }
    assert events[..|events|] == events;
  }

  /** The guard cuts no event exactly when it is shorter than the guard; events within the form's cap are. */
  lemma WholeSpanPlacedExactlyWhen(e: Event, first: int, last: int)
    requires e.start == Some(first) && e.end == On(last)
    ensures (forall d :: Covers(e, d) <==> first <= d <= last) <==> last - first < GUARD
    ensures last - first <= MAX_SPAN_DAYS ==> forall d :: Covers(e, d) <==> first <= d <= last
  {
    if last - first >= GUARD {
      assert !Covers(e, last);
    }
  }

  /** An event whose end is no date is placed on as many days as the guard allows. */
  lemma UnparsableEndFillsGuard(e: Event, first: int)
    requires e.start == Some(first) && e.end == Unparsable
    ensures forall d :: Covers(e, d) <==> first <= d < first + GUARD
  {
  }

  /** Without an end an event stands on its start day only; with an end before its start, or no start, nowhere. */
  lemma DegenerateEvents(e: Event, day: int)
    ensures e.start.None? ==> !Covers(e, day)
    ensures e.start.Some? && e.end == Missing ==> (Covers(e, day) <==> day == e.start.value)
    ensures e.start.Some? && e.end.On? && e.end.day < e.start.value ==> !Covers(e, day)
  {
  }

  /** The events of a day keep the order of the list. */
  lemma {:induction false} DayKeepsListOrder(a: seq<Event>, b: seq<Event>, day: int)
    ensures EventsOn(a + b, day) == EventsOn(a, day) + EventsOn(b, day)
  {
    if b == [] {
      assert a + b == a;
    } else {
      assert (a + b)[..|a + b| - 1] == a + b[..|b| - 1];
      DayKeepsListOrder(a, b[..|b| - 1], day);
    }
  }

  function Copies(events: seq<Event>, e: Event): nat {
    if events == [] then 0 else Copies(events[..|events| - 1], e) + (if events[|events| - 1] == e then 1 else 0)
  }

  /** On each day it covers an event stands as often as the list has it, and on no other day. */
  lemma {:induction false} PlacedOncePerCoveredDay(events: seq<Event>, e: Event, day: int)
    ensures Copies(EventsOn(events, day), e) == if Covers(e, day) then Copies(events, e) else 0
  {
    if events != [] {
      var front, last := events[..|events| - 1], events[|events| - 1];
      PlacedOncePerCoveredDay(front, e, day);
      if Covers(last, day) {
        Snoc(EventsOn(front, day), last);
      } else {
        assert EventsOn(front, day) + [] == EventsOn(front, day);
      }
    }
  }

  // ---------- The month grid ----------

  /** The 42 days from the Sunday on or before the first of the month. */
  function Cells(first: int): (cells: seq<int>)
    ensures |cells| == 42
  {
    seq(42, i => first - first % 7 + i)
  }

  /** The cells are consecutive days and the first of the month is in the first row. */
  lemma GridIsConsecutive(first: int)
    ensures forall i | 0 <= i < 41 :: Cells(first)[i + 1] == Cells(first)[i] + 1
    ensures exists i :: 0 <= i < 7 && Cells(first)[i] == first
  {
    assert Cells(first)[first % 7] == first;
  }

  /** The grid starts on a Sunday and shows every day of a month of up to 31 days at exactly one place. */
  lemma GridShowsMonthOnce(first: int, length: nat, day: int)
    requires length <= 31 && first <= day < first + length
    ensures Cells(first)[0] % 7 == 0
    ensures exists i :: 0 <= i < 42 && Cells(first)[i] == day && forall j | 0 <= j < 42 && j != i :: Cells(first)[j] != day
  {
    var i := day - (first - first % 7);
    assert Cells(first)[i] == day;
  }
}
