/** The schedule table of vacation_app.py and the three ways the page changes
    it: the sidebar form appends a row, the edit dialog overwrites the fields
    of one row, and its delete button removes one row and renumbers the rest.

    Rows have no key of their own: a row is identified by its position, and
    after `reset_index(drop=True)` or `concat(..., ignore_index=True)` the
    frame's index labels are exactly the positions, so a `seq` models the
    frame. Dates are kept as the text `str()` gives them. */
module ScheduleTable {
  import opened Wrappers
  import opened Gregorian
  import opened DateText
  import opened Categories

  /** One row: the columns 이름, 시작일, 종료일, 유형 and 내용. */
  datatype Row = Row(name: string, start: string, end: string, category: string, content: string)

  type Table = seq<Row>

  /** `pd.concat([df, new_row], ignore_index=True)`. */
  function Append(t: Table, r: Row): (u: Table)
    ensures |u| == |t| + 1
    ensures forall i :: 0 <= i < |t| ==> u[i] == t[i]
    ensures u[|t|] == r
  {
    t + [r]
  }

  /** The five `df.at[idx, column] = value` assignments of the edit dialog. */
  function Update(t: Table, idx: nat, name: string, category: string,
                  start: string, end: string, content: string): (u: Table)
    requires idx < |t|
    ensures |u| == |t|
    ensures u[idx].name == name && u[idx].category == category && u[idx].content == content
    ensures u[idx].start == start && u[idx].end == end
    ensures forall j :: 0 <= j < |t| && j != idx ==> u[j] == t[j]
  {
    t[idx := Row(name, start, end, category, content)]
  }

  /** `df.drop(idx).reset_index(drop=True)`: the row goes, and every later
      row moves down one position. */
  function Delete(t: Table, idx: nat): (u: Table)
    requires idx < |t|
    ensures |u| == |t| - 1
    ensures forall j :: 0 <= j < idx ==> u[j] == t[j]
    ensures forall j :: idx <= j < |u| ==> u[j] == t[j + 1]
  {
    t[..idx] + t[idx + 1..]
  }

  /** Deleting the row just appended restores the table. */
  lemma DeleteUndoesAppend(t: Table, r: Row)
    ensures Delete(Append(t, r), |t|) == t
  {
  }

  /** Delete removes exactly one occurrence of the deleted row and keeps all
      the others. */
  lemma DeleteKeepsOtherRows(t: Table, idx: nat)
    requires idx < |t|
    ensures multiset(Delete(t, idx)) + multiset{t[idx]} == multiset(t)
  {
    assert t == t[..idx] + [t[idx]] + t[idx + 1..];
  }

  /** Writing a row's own values back leaves the table as it was. */
  lemma UpdateWithOwnValues(t: Table, idx: nat)
    requires idx < |t|
    ensures Update(t, idx, t[idx].name, t[idx].category, t[idx].start, t[idx].end, t[idx].content) == t
  {
  }

  /** Two updates of the same row: the second one wins. */
  lemma UpdateTwice(t: Table, idx: nat, n1: string, c1: string, s1: string, e1: string, x1: string,
                    n2: string, c2: string, s2: string, e2: string, x2: string)
    requires idx < |t|
    ensures Update(Update(t, idx, n1, c1, s1, e1, x1), idx, n2, c2, s2, e2, x2)
         == Update(t, idx, n2, c2, s2, e2, x2)
  {
  }

  /** A row built from form input, whose dates are `datetime.date` values
      stored as the `YYYY-MM-DD` text `str()` renders them in. */
  function FormRow(name: string, category: string, start: Date, end: Date, content: string): (r: Row)
    requires Representable(start) && Representable(end)
    ensures ParseDate(r.start) == Some(start) && ParseDate(r.end) == Some(end)
    ensures r.name == name && r.category == category && r.content == content
  {
    ParseFormat(start);
    ParseFormat(end);
    Row(name, FormatDate(start), FormatDate(end), category, content)
  }

  /** Why the edit dialog refuses a submission ("기간을 확인해주세요."). */
  datatype FormError = IncompletePeriod

  /** Sidebar submission: `period` is what the range picker returned, which
      holds fewer than two dates while the range is still being picked; only
      a complete range appends a row, otherwise nothing happens. */
  function SubmitNew(t: Table, name: string, category: string, period: seq<Date>, content: string): (u: Table)
    requires forall i :: 0 <= i < |period| ==> Representable(period[i])
    ensures |period| != 2 ==> u == t
    ensures |period| == 2 ==> |u| == |t| + 1 && u[..|t|] == t
    ensures |period| == 2 ==> ParseDate(u[|t|].start) == Some(period[0]) && ParseDate(u[|t|].end) == Some(period[1])
    ensures |period| == 2 ==> u[|t|].name == name && u[|t|].category == category && u[|t|].content == content
  {
    if |period| == 2 then Append(t, FormRow(name, category, period[0], period[1], content)) else t
  }

  /** A row entered in the sidebar comes back in the edit dialog with the
      same name, content, category and dates, and deleting it restores the
      table the form was submitted on. */
  lemma SubmitNewThenEdit(t: Table, name: string, category: string, period: seq<Date>,
                          content: string, today: Date)
    requires forall i :: 0 <= i < |period| ==> Representable(period[i])
    requires |period| == 2 && Representable(today)
    ensures var u := SubmitNew(t, name, category, period, content);
            var d := EditFormDefaults(u[|t|], today);
            && d.name == name && d.content == content
            && d.start == period[0] && d.end == period[1]
            && (category in TypeKeys() ==> TypeKeys()[d.typeIndex] == category)
            && Delete(u, |t|) == t
  {
  }

  /** Edit-dialog save: a complete range overwrites row `idx`; an incomplete
      one is refused and the table is left alone. */
  function SubmitEdit(t: Table, idx: nat, name: string, category: string, period: seq<Date>,
                      content: string): (r: Result<Table, FormError>)
    requires idx < |t|
    requires forall i :: 0 <= i < |period| ==> Representable(period[i])
    ensures r.Failure? <==> |period| != 2
    ensures r.Success? ==> |r.value| == |t| && forall j :: 0 <= j < |t| && j != idx ==> r.value[j] == t[j]
    ensures r.Success? ==> r.value[idx].name == name && r.value[idx].category == category && r.value[idx].content == content
    ensures r.Success? ==> ParseDate(r.value[idx].start) == Some(period[0]) && ParseDate(r.value[idx].end) == Some(period[1])
  {
    if |period| == 2 then
      var row := FormRow(name, category, period[0], period[1], content);
      Success(Update(t, idx, row.name, row.category, row.start, row.end, row.content))
    else Failure(IncompletePeriod)
  }

  /** What the edit dialog shows when it opens on a row. */
  datatype EditDefaults = EditDefaults(name: string, typeIndex: nat, start: Date, end: Date, content: string)

  /** Initial values of the edit dialog. Both dates are parsed; if either
      fails, both fall back to `today`, which the caller supplies in place of
      `datetime.date.today()`. */
  function EditFormDefaults(r: Row, today: Date): (d: EditDefaults)
    requires Representable(today)
    ensures d.name == r.name && d.content == r.content
    ensures d.typeIndex < |TypeKeys()|
    ensures r.category in TypeKeys() <==> TypeKeys()[d.typeIndex] == r.category
    ensures r.category !in TypeKeys() ==> d.typeIndex == 0
    ensures Representable(d.start) && Representable(d.end)
    ensures ParseDate(r.start).Some? && ParseDate(r.end).Some? ==>
              FormatDate(d.start) == r.start && FormatDate(d.end) == r.end
    ensures ParseDate(r.start).None? || ParseDate(r.end).None? ==> d.start == today && d.end == today
  {
    var (s, e) :=
      match (ParseDate(r.start), ParseDate(r.end))
      case (Some(s), Some(e)) => (FormatParse(r.start); FormatParse(r.end); (s, e))
      case _ => (today, today);
    EditDefaults(r.name, TypeIndex(r.category), s, e, r.content)
  }

  /** Opening the dialog on a well-formed row and saving it untouched leaves
      the table exactly as it was. */
  lemma {:induction false} UntouchedEditIsIdentity(t: Table, idx: nat, today: Date)
    requires idx < |t| && Representable(today)
    requires ParseDate(t[idx].start).Some? && ParseDate(t[idx].end).Some?
    requires t[idx].category in TypeKeys()
    ensures var d := EditFormDefaults(t[idx], today);
            SubmitEdit(t, idx, d.name, TypeKeys()[d.typeIndex], [d.start, d.end], d.content) == Success(t)
  {
    var d := EditFormDefaults(t[idx], today);
    assert TypeKeys()[d.typeIndex] == t[idx].category;
    var row := FormRow(d.name, t[idx].category, d.start, d.end, d.content);
    assert row == t[idx];
    UpdateWithOwnValues(t, idx);
  }

  /** Saving the dialog untouched on a row whose category is not in the table
      rewrites the category to the first listed one, since the selection box
      falls back to index 0. */
  lemma UntouchedEditResetsUnknownCategory(t: Table, idx: nat, today: Date)
    requires idx < |t| && Representable(today)
    requires t[idx].category !in TypeKeys()
    ensures var d := EditFormDefaults(t[idx], today);
            var r := SubmitEdit(t, idx, d.name, TypeKeys()[d.typeIndex], [d.start, d.end], d.content);
            r.Success? && r.value[idx].category == TypeKeys()[0] != t[idx].category
  {
  }
}
