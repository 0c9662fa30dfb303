/** The event projector of vacation_app.py: the loop that turns every row of
    the schedule table into one event record for the calendar widget.

    The colour comes from the category table. The two half-day categories
    become fixed timed windows on the start date; every other category is an
    all-day event whose inclusive end date is moved one day forward, since
    the widget treats the end bound as exclusive. An end date that does not
    parse, or whose next day would pass year 9999, is passed through as is. */
module EventProjector {
  import opened Wrappers
  import opened Gregorian
  import opened DateText
  import opened Categories
  import opened ScheduleTable

  /** One entry of the `events` list: `title`, `start`, `end`, `allDay`,
      `backgroundColor`, `borderColor` and `extendedProps.index`. */
  datatype Event = Event(title: string, start: string, end: string, allDay: bool,
                         backgroundColor: string, borderColor: string, index: nat)

  const MorningStart: string := "T09:00:00"
  const MorningEnd: string := "T13:00:00"
  const AfternoonStart: string := "T14:00:00"
  const AfternoonEnd: string := "T18:00:00"

  /** The exclusive end bound of an all-day event, written in the same text
      form: the day after `endText`, or `endText` itself when the shift fails. */
  function ShiftEnd(endText: string): (r: string)
    ensures |r| == |endText|
    ensures ParseDate(endText).None? ==> r == endText
    ensures ParseDate(endText).Some? ==> ParseDate(r).Some?
  {
    match ParseDate(endText)
    case None => endText
    case Some(d) =>
      var next := NextDay(d);
      if next.year <= MaxYear then (ParseFormat(next); FormatDate(next)) else endText
  }

  /** A parsed end date moves to the calendar day numbered one higher, and
      stepping back from it gives the original text again. */
  lemma ShiftEndIsNextDay(endText: string, d: Date)
    requires ParseDate(endText) == Some(d) && d != Date(MaxYear, 12, 31)
    ensures ParseDate(ShiftEnd(endText)) == Some(NextDay(d))
    ensures DayNumber(ParseDate(ShiftEnd(endText)).value) == DayNumber(d) + 1
    ensures FormatDate(PrevDay(ParseDate(ShiftEnd(endText)).value)) == endText
  {
    NextDayIsSuccessor(d);
    PrevOfNext(d);
    ParseFormat(NextDay(d));
    FormatParse(endText);
  }

  /** The last representable day, 9999-12-31, has no successor (Python's
      date arithmetic overflows), so its text is passed through unshifted. */
  lemma ShiftEndAtMaxYear(endText: string)
    requires ParseDate(endText) == Some(Date(MaxYear, 12, 31))
    ensures ShiftEnd(endText) == endText
  {
  }

  /** Shifting the text of a day before year 9999's last gives the text of
      the next day. */
  lemma ShiftEndFromFormatted(d: Date)
    requires Representable(d) && d != Date(MaxYear, 12, 31)
    ensures ShiftEnd(FormatDate(d)) == FormatDate(NextDay(d))
  {
    ParseFormat(d);
  }

  /** The event for `row`, the `idx`-th row of the table. */
  function EventFor(row: Row, idx: nat): (e: Event)
    ensures e.title == "[" + row.name + "] " + row.content
    ensures e.backgroundColor == e.borderColor == ColorOf(row.category)
    ensures e.index == idx
    ensures e.allDay <==> row.category != MorningHalfDay && row.category != AfternoonHalfDay
    ensures row.category == MorningHalfDay ==>
              e.start == row.start + MorningStart && e.end == row.start + MorningEnd
    ensures row.category == AfternoonHalfDay ==>
              e.start == row.start + AfternoonStart && e.end == row.start + AfternoonEnd
    ensures e.allDay ==> e.start == row.start && e.end == ShiftEnd(row.end)
  {
    var title := "[" + row.name + "] " + row.content;
    var color := ColorOf(row.category);
    if row.category == MorningHalfDay then
      Event(title, row.start + MorningStart, row.start + MorningEnd, false, color, color, idx)
    else if row.category == AfternoonHalfDay then
      Event(title, row.start + AfternoonStart, row.start + AfternoonEnd, false, color, color, idx)
    else
      Event(title, row.start, ShiftEnd(row.end), true, color, color, idx)
  }

  /** A half-day event ignores the row's end date: rows differing only there
      project to the same event. */
  lemma HalfDayIgnoresEnd(row: Row, end: string, idx: nat)
    requires row.category == MorningHalfDay || row.category == AfternoonHalfDay
    ensures EventFor(row.(end := end), idx) == EventFor(row, idx)
  {
  }

  /** For an all-day row whose end date parses (and is not the last
      representable day), the event spans exactly the inclusive range
      [start, end]: its exclusive end is the day after the row's end. */
  lemma AllDayEndIsExclusive(row: Row, idx: nat, last: Date)
    requires row.category != MorningHalfDay && row.category != AfternoonHalfDay
    requires ParseDate(row.end) == Some(last) && last != Date(MaxYear, 12, 31)
    ensures var e := EventFor(row, idx);
            e.allDay && e.start == row.start &&
            ParseDate(e.end).Some? && DayNumber(ParseDate(e.end).value) == DayNumber(last) + 1
  {
    ShiftEndIsNextDay(row.end, last);
  }

  /** The `events` list: one event per row, in table order, each carrying
      its row's position. */
  function Events(t: Table): (es: seq<Event>)
    ensures |es| == |t|
    ensures forall i :: 0 <= i < |t| ==> es[i] == EventFor(t[i], i)
  {
    if |t| == 0 then []
    else
      var init := t[..|t| - 1];
      assert forall i :: 0 <= i < |init| ==> init[i] == t[i];
      Events(init) + [EventFor(t[|t| - 1], |t| - 1)]
  }

  /** Clicking an event leads back to the row it was projected from. */
  lemma ClickedIndexFindsRow(t: Table, i: nat)
    requires i < |t|
    ensures Events(t)[i].index < |t| && EventFor(t[Events(t)[i].index], i) == Events(t)[i]
  {
  }

  /** Appending a row appends its event and leaves the others alone. */
  lemma EventsAfterAppend(t: Table, r: Row)
    ensures Events(Append(t, r)) == Events(t) + [EventFor(r, |t|)]
  {
  }

  /** Updating a row changes its event only. */
  lemma EventsAfterUpdate(t: Table, idx: nat, name: string, category: string,
                          start: string, end: string, content: string)
    requires idx < |t|
    ensures var u := Update(t, idx, name, category, start, end, content);
            |Events(u)| == |Events(t)| &&
            Events(u)[idx] == EventFor(Row(name, start, end, category, content), idx) &&
            (forall j :: 0 <= j < |t| && j != idx ==> Events(u)[j] == Events(t)[j])
  {
  }

  /** Deleting a row removes its event; every later event keeps its title,
      times and colour but now points one position lower. */
  lemma EventsAfterDelete(t: Table, idx: nat)
    requires idx < |t|
    ensures var es, ds := Events(t), Events(Delete(t, idx));
            |ds| == |es| - 1 &&
            (forall j :: 0 <= j < idx ==> ds[j] == es[j]) &&
            (forall j :: idx <= j < |ds| ==> ds[j] == es[j + 1].(index := j))
  {
  }

  /** Example: a vacation from 2024-01-10 to 2024-01-12 inclusive
      is drawn as an all-day event whose exclusive end is 2024-01-13. */
  lemma VacationExample(row: Row)
    requires row.name == "Kim" && row.content == "trip" && row.category == TypeOptions[2].0
    requires row.start == FormatDate(Date(2024, 1, 10)) && row.end == FormatDate(Date(2024, 1, 12))
    ensures var e := EventFor(row, 0);
            e.title == "[" + row.name + "] " + row.content &&
            e.allDay && e.start == row.start && e.end == FormatDate(Date(2024, 1, 13)) &&
            e.backgroundColor == "#FF6B6B"
  {
    var e := EventFor(row, 0);
    assert e.allDay by {
      assert row.category[0] != MorningHalfDay[0] && row.category[0] != AfternoonHalfDay[0];
    }
    assert e.end == FormatDate(Date(2024, 1, 13)) by {
      ShiftEndFromFormatted(Date(2024, 1, 12));
    }
    assert ColorOf(row.category) == TypeOptions[2].1;
  }

  /** Example: a morning half day on 2024-02-01 is the window
      09:00 to 13:00 of that day, whatever the stored end date. */
  lemma MorningHalfDayExample(row: Row)
    requires row.category == MorningHalfDay && row.start == "2024-02-01"
    ensures var e := EventFor(row, 0);
            !e.allDay && e.start == "2024-02-01T09:00:00" && e.end == "2024-02-01T13:00:00" &&
            e.backgroundColor == "#FFB347"
  {
    assert ColorOf(row.category) == TypeOptions[3].1;
  }
}
