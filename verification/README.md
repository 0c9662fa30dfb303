# Team calendar: schedule table and event projector

A model of the logic in `vacation_app.py`, a single-page team calendar. Team
members record schedule entries: a name, a start and an end date, a category
label such as a vacation, a business trip or a morning or afternoon half day,
and a description. The page keeps the entries in a table whose rows are
identified only by their position. Every time the page is drawn, each row is
turned into an event record for a calendar widget.

The model covers four things:

- the category table (`type_options`). It maps eight labels to colours, falls
  back to `#3788d8` for any other label, and gives the initial selection of
  the edit dialog;
- the Gregorian successor-day arithmetic and the strict `YYYY-MM-DD` text
  form. The projector uses them to turn an inclusive end date into the
  exclusive bound the widget expects;
- the event projector. It produces one event per row, in table order, and
  each event carries its row's position so that a click can find the row
  again. Half days become timed windows (09:00 to 13:00 or 14:00 to 18:00 on
  the start date). Every other category becomes an all-day event whose end is
  the day after the row's end date. An end date that does not parse is passed
  through unchanged;
- the table operations: append (sidebar form), update of one row's five
  fields (edit dialog), and delete with renumbering (`drop` plus
  `reset_index`). The model also covers the two form submissions, which act
  only when the date-range picker holds two dates, and the values the edit
  dialog starts with.

Modules: `Wrappers` (Option and Result), `Gregorian` (dates, day numbers,
next and previous day), `DateText` (digits, `FormatDate`, `ParseDate`),
`Categories` (the colour table and the type index), `ScheduleTable` (rows,
table operations and form submissions) and `EventProjector` (events and the
lemmas that connect the table operations to the projection).

When the end date does not parse, the end text is passed through unchanged
(`event_dict["end"] = end_str`, line 151). Every row yields exactly one event.

## Model

| member | source | states |
|---|---|---|
| Categories.TypeKeys | vacation_app.py:32-41 | the key list has the eight labels in declaration order |
| Categories.Lookup | vacation_app.py:123 | dictionary lookup gives nothing exactly when the key is absent; otherwise it gives a value paired with that key |
| Categories.ColorOf | vacation_app.py:123 | each listed category is drawn in its own table colour, and the colour is `#3788d8` if and only if the category is not one of the eight keys |
| Categories.HalfDaysAreKeys | vacation_app.py:36-37 | the two half-day labels are distinct listed categories |
| Categories.FirstIndex | vacation_app.py:54 | `list.index` gives the first position holding the key, and fails exactly when the key is absent |
| Categories.TypeIndex | vacation_app.py:53-56 | the edit form's initial type index is a valid position; it holds the category when the category is listed, and is 0 otherwise |
| Categories.TypeIndexOfKey | vacation_app.py:53-57 | selecting listed category i and reading its index back gives i |
| Gregorian.NextDay | vacation_app.py:148 | the next day is a calendar day in the same year, or 1 January of the next year |
| Gregorian.PrevDay | vacation_app.py:148 | the previous day is a calendar day in the same year, or 31 December of the year before |
| Gregorian.PrevOfNext | vacation_app.py:148 | stepping forward one day and back one day returns the original date |
| Gregorian.NextOfPrev | vacation_app.py:148 | stepping back one day and forward one day returns the original date |
| Gregorian.YearLength | vacation_app.py:148 | a year adds 365 days to the ordinal count, or 366 in a Gregorian leap year |
| Gregorian.NextDayIsSuccessor | vacation_app.py:148 | the next day's ordinal (Python's `toordinal`) is one larger, which is what adding `timedelta(days=1)` means |
| Gregorian.YearStartAfter | vacation_app.py:148 | every day of a year numbers below the first day of any later year |
| Gregorian.DayNumberInjective | vacation_app.py:148 | distinct calendar days have distinct ordinals |
| Gregorian.NextDayUnique | vacation_app.py:148 | a day is the next day of d if and only if its ordinal is d's plus one |
| Gregorian.NextDayRollovers | vacation_app.py:148 | rollovers at month ends, year ends, leap Februaries, and the century years 1900 and 2000 |
| DateText.Pad | vacation_app.py:149 | zero-padded decimal output has exactly the requested width and only digits |
| DateText.DigitsValue | vacation_app.py:148 | a run of n digits denotes a number below 10^n |
| DateText.ValueOfPad | vacation_app.py:148-149 | reading a padded number back gives the number |
| DateText.PadOfValue | vacation_app.py:148-149 | padding a digit run's value to the run's width gives the run back |
| DateText.FormatDate | vacation_app.py:149 | `strftime("%Y-%m-%d")` writes ten characters with dashes at positions 4 and 7 |
| DateText.ParseDate | vacation_app.py:148 | a text parses only if it has the `DDDD-DD-DD` layout and names a real day of years 1 to 9999 |
| DateText.ParseFormat | vacation_app.py:148-149 | formatting a date and then parsing the text gives the date back |
| DateText.FormatParse | vacation_app.py:148-149 | text that parses is exactly the formatting of the date it names |
| DateText.ParsesIffFormatted | vacation_app.py:147-151 | a text parses if and only if it is the `YYYY-MM-DD` form of some day |
| ScheduleTable.Append | vacation_app.py:105-112 | length grows by one, earlier rows are unchanged, and the new row is last |
| ScheduleTable.Update | vacation_app.py:77-81 | row idx gets the five new field values; the length and every other row are unchanged |
| ScheduleTable.Delete | vacation_app.py:88 | length shrinks by one, earlier rows stay in place, and every later row moves down one position |
| ScheduleTable.DeleteUndoesAppend | vacation_app.py:88 | deleting the row just appended gives back the original table |
| ScheduleTable.DeleteKeepsOtherRows | vacation_app.py:88 | delete removes exactly one occurrence of the deleted row; all other rows are kept, as a multiset |
| ScheduleTable.UpdateWithOwnValues | vacation_app.py:77-81 | writing a row's own values back leaves the table unchanged |
| ScheduleTable.UpdateTwice | vacation_app.py:77-81 | of two updates to the same row, the second wins |
| ScheduleTable.FormRow | vacation_app.py:104-111 | a row from form input stores its dates as text that parses back to the chosen dates |
| ScheduleTable.SubmitNew | vacation_app.py:102-115 | a complete two-date range appends the entered row; any other range leaves the table as it was |
| ScheduleTable.SubmitNewThenEdit | vacation_app.py:102-115 | a row entered in the sidebar opens in the edit dialog with the entered name, content and dates, and with the entered category when it is a listed one, and deleting it restores the earlier table |
| ScheduleTable.SubmitEdit | vacation_app.py:74-85 | the save is refused if and only if the range does not hold two dates; otherwise only row idx changes, and it holds the entered values |
| ScheduleTable.EditFormDefaults | vacation_app.py:50-68 | the dialog starts with the row's name and content and its category's index, or index 0 for an unlisted category; it shows the row's dates when both parse, and `today` for both otherwise |
| ScheduleTable.UntouchedEditIsIdentity | vacation_app.py:50-81 | saving the dialog untouched on a well-formed row leaves the table unchanged |
| ScheduleTable.UntouchedEditResetsUnknownCategory | vacation_app.py:53-57 | saving the dialog untouched on a row with an unlisted category changes that category to the first listed label |
| EventProjector.ShiftEnd | vacation_app.py:147-151 | the shifted end keeps the text's length; an unparseable end is passed through unchanged, and a parseable one stays parseable |
| EventProjector.ShiftEndIsNextDay | vacation_app.py:147-149 | a parsed end date moves to the calendar day whose ordinal is one higher, and stepping back one day formats to the original text |
| EventProjector.ShiftEndAtMaxYear | vacation_app.py:147-151 | 9999-12-31 has no successor, so its text is passed through unchanged |
| EventProjector.ShiftEndFromFormatted | vacation_app.py:147-149 | shifting the text of a day gives the text of the next day |
| EventProjector.EventFor | vacation_app.py:123-152 | the title is `[name] content`; both colours equal the category colour; the index is the row's position; half days are not all-day and span 09-13 or 14-18 on the start date; every other category is all-day, starts at the start text and ends at the shifted end |
| EventProjector.HalfDayIgnoresEnd | vacation_app.py:136-143 | a half-day event does not depend on the row's end date |
| EventProjector.AllDayEndIsExclusive | vacation_app.py:144-152 | an all-day event with a parseable end has an exclusive end one ordinal after the row's inclusive end |
| EventProjector.Events | vacation_app.py:118-154 | one event per row, in table order, event i projected from row i with index i; an empty table gives no events |
| EventProjector.ClickedIndexFindsRow | vacation_app.py:132 | an event's index points to the row it was projected from |
| EventProjector.EventsAfterAppend | vacation_app.py:112 | after an append the events are the old events plus the new row's event |
| EventProjector.EventsAfterUpdate | vacation_app.py:77-81 | after an update only the updated row's event changes |
| EventProjector.EventsAfterDelete | vacation_app.py:88 | after a delete the deleted row's event is gone; each later event keeps its content, and its index drops by one |
| EventProjector.VacationExample | vacation_app.py:144-152 | a vacation from 2024-01-10 to 2024-01-12 is an all-day `[Kim] trip` event in `#FF6B6B` that ends, exclusively, on 2024-01-13 |
| EventProjector.MorningHalfDayExample | vacation_app.py:136-139 | a morning half day on 2024-02-01 is 2024-02-01T09:00:00 to 2024-02-01T13:00:00, not all-day, in `#FFB347`, whatever its end date |

## Left out

- The page layout, sidebar, forms, dialog, `st.rerun`, session state and the colour legend (lines 8-9, 44-50, 93-102, 173-181) are user-interface plumbing. Only the values the forms produce and consume are modelled.
- CSV persistence (`load_data` and `save_data`, lines 15-25) is file I/O through pandas. A cell the CSV leaves empty reads back as the text `nan`. That text does not parse, so it takes the pass-through path of the model.
- The calendar widget, its options and its click handling (lines 157-206) are a foreign component. `ClickedIndexFindsRow` states the one thing the click path relies on.
- `datetime.date.today()` (lines 64-65, 98) is non-deterministic. `EditFormDefaults` takes `today` as a parameter, and `SubmitNew` takes the picked range as a parameter.
- DateText.ParseDate: accepts only strict `YYYY-MM-DD` with years 1 to 9999. `pd.to_datetime` also accepts many other layouts, such as `2024/01/05` or `2024-1-5`, and shifts those too. It also rejects dates outside the pandas Timestamp range (about 1677-09-21 to 2262-04-11), so such dates are passed through unchanged where the model shifts them. The same strictness stands in for `strptime("%Y-%m-%d")` in `EditFormDefaults`, which also accepts unpadded month and day numbers.
- EventProjector.ShiftEnd: treats 9999-12-31 as having no successor, as Python's `date` arithmetic does. The pandas Timestamp bound described above is not modelled.
- ScheduleTable.Update: requires `idx < |t|`. The dialog only opens after `df.loc[clicked_idx]` (line 203) has read the row, which raises for an absent label, so no absent index reaches the setter. pandas' `.at` setter with an absent label would instead add a new row, and that enlargement is not modelled.
- ScheduleTable.Delete: requires `idx < |t|`. The dialog only opens after `df.loc[clicked_idx]` (line 203) has read the row, which raises for an absent label first. `drop` with an absent label raises `KeyError`.
- The form widgets store `datetime.date` objects in the table. The model stores their `str()` text (`YYYY-MM-DD`), which is what the projector reads back through `str(row[...])`.
