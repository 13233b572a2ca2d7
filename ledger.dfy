/** The per-subject attendance sheet: a Scholar No column in roster order
    followed by one presence column per date, and the merge that writes a
    marking run's presence map under the day's date. */
module Ledger {
  import opened Records
  import opened Matcher

  /** The header of a sheet's identity column. */
  const IdColumn: string := "Scholar No"

  /** A calendar date, as the system clock reports it. */
  datatype Date = Date(year: int, month: int, day: int)

  /** The ranges a clock date lies in. */
  predicate ValidDate(d: Date)
  {
    1 <= d.year <= 9999 && 1 <= d.month <= 12 && 1 <= d.day <= 31
  }

  /** A decimal digit. */
  function Digit(n: nat): (c: char)
    requires n < 10
  {
    ('0' as int + n) as char
  }

  /** A number below 100 in two zero-padded digits. */
  function Pad2(n: nat): string
    requires n < 100
  {
    [Digit(n / 10), Digit(n % 10)]
  }

  /** Two-digit renderings of different numbers differ. */
  lemma Pad2Injective(m: nat, n: nat)
    requires m < 100 && n < 100 && Pad2(m) == Pad2(n)
    ensures m == n
  {
    assert Digit(m / 10) == Pad2(m)[0] == Pad2(n)[0] == Digit(n / 10);
    assert Digit(m % 10) == Pad2(m)[1] == Pad2(n)[1] == Digit(n % 10);
  }

  /** A number below 10000 in four zero-padded digits. */
  function Pad4(n: nat): string
    requires n < 10000
  {
    Pad2(n / 100) + Pad2(n % 100)
  }

  /** The column heading of a date, formatted %Y-%m-%d. */
  function DateLabel(d: Date): (heading: string)
    requires ValidDate(d)
    ensures |heading| == 10 && heading[4] == '-' && heading[7] == '-'
    ensures forall k :: 0 <= k < 10 && k != 4 && k != 7 ==> '0' <= heading[k] <= '9'
  {
    Pad4(d.year) + "-" + Pad2(d.month) + "-" + Pad2(d.day)
  }

  /** Date labels identify dates, and never clash with the identity column:
      a re-run on the same day writes the same column, a run on another day
      a different one. */
  lemma DateLabelInjective(d: Date, e: Date)
    requires ValidDate(d) && ValidDate(e)
    ensures DateLabel(d) == DateLabel(e) <==> d == e
    ensures DateLabel(d) != IdColumn
  {
    var a, b := DateLabel(d), DateLabel(e);
    assert a[0] != IdColumn[0];
    if a == b {
      assert a[0..2] == Pad2(d.year / 100) && b[0..2] == Pad2(e.year / 100);
      assert a[2..4] == Pad2(d.year % 100) && b[2..4] == Pad2(e.year % 100);
      assert a[5..7] == Pad2(d.month) && b[5..7] == Pad2(e.month);
      assert a[8..10] == Pad2(d.day) && b[8..10] == Pad2(e.day);
      Pad2Injective(d.year / 100, e.year / 100);
      Pad2Injective(d.year % 100, e.year % 100);
      Pad2Injective(d.month, e.month);
      Pad2Injective(d.day, e.day);
    }
  }

  /** An attendance sheet: the Scholar No column, the date labels in column
      order, and each date's presence column (one cell per row). */
  datatype Sheet = Sheet(ids: seq<ScholarNo>, dates: seq<string>, columns: map<string, seq<Bit>>)
  {
    /** The shape a sheet read back from its file has: each date labels
        exactly one column, no date column is named like the identity
        column, and every column has one cell per row. */
    ghost predicate WellFormed()
    {
      && (forall l :: l in dates <==> l in columns)
      && (forall i, j :: 0 <= i < j < |dates| ==> dates[i] != dates[j])
      && IdColumn !in columns
      && (forall l :: l in columns ==> |columns[l]| == |ids|)
    }
  }

  /** A freshly created sheet: the roster's Scholar Nos and no date column. */
  function NewSheet(ids: seq<ScholarNo>): (sheet: Sheet)
    ensures sheet.WellFormed() && sheet.ids == ids && sheet.dates == []
  {
    Sheet(ids, [], map[])
  }

  /** Whether the presence map has an entry for every row of the sheet. */
  predicate Covers(attendance: map<ScholarNo, Bit>, ids: seq<ScholarNo>)
  {
    forall k :: 0 <= k < |ids| ==> ids[k] in attendance
  }

  /** The sheet after assigning the column `heading`: each row gets its
      Scholar No's presence bit; an existing column of that heading is
      replaced where it stands, otherwise the column is appended. */
  function Merged(sheet: Sheet, heading: string, attendance: map<ScholarNo, Bit>): (merged: Sheet)
    requires Covers(attendance, sheet.ids)
  {
    var column := seq(|sheet.ids|, k requires 0 <= k < |sheet.ids| => attendance[sheet.ids[k]]);
    Sheet(sheet.ids, if heading in sheet.dates then sheet.dates else sheet.dates + [heading], sheet.columns[heading := column])
  }

  /** Builds the day's column row by row and assigns it to the sheet. */
  method MergeAttendance(sheet: Sheet, heading: string, attendance: map<ScholarNo, Bit>) returns (merged: Sheet)
    requires Covers(attendance, sheet.ids)
    ensures merged == Merged(sheet, heading, attendance)
    ensures merged.ids == sheet.ids
    ensures heading in merged.columns && |merged.columns[heading]| == |sheet.ids|
    ensures forall k :: 0 <= k < |sheet.ids| ==> merged.columns[heading][k] == attendance[sheet.ids[k]]
  {
    var column: seq<Bit> := [];
    var k := 0;
    while k < |sheet.ids|
      invariant 0 <= k <= |sheet.ids|
      invariant |column| == k
      invariant forall i :: 0 <= i < k ==> column[i] == attendance[sheet.ids[i]]
    {
      column := column + [attendance[sheet.ids[k]]];
      k := k + 1;
    }
    assert column == seq(|sheet.ids|, i requires 0 <= i < |sheet.ids| => attendance[sheet.ids[i]]);
    var dates := if heading in sheet.dates then sheet.dates else sheet.dates + [heading];
    merged := Sheet(sheet.ids, dates, sheet.columns[heading := column]);
  }

  /** The merge keeps the rows and their order, keeps every other column
      and its position, and keeps the sheet's shape. */
  lemma MergedKeepsOthers(sheet: Sheet, heading: string, attendance: map<ScholarNo, Bit>)
    requires Covers(attendance, sheet.ids)
    requires sheet.WellFormed() && heading != IdColumn
    ensures Merged(sheet, heading, attendance).WellFormed()
    ensures Merged(sheet, heading, attendance).ids == sheet.ids
    ensures sheet.dates <= Merged(sheet, heading, attendance).dates
    ensures forall l :: l != heading && l in sheet.columns ==>
      l in Merged(sheet, heading, attendance).columns && Merged(sheet, heading, attendance).columns[l] == sheet.columns[l]
    ensures Merged(sheet, heading, attendance).columns.Keys == sheet.columns.Keys + {heading}
  {
    var m := Merged(sheet, heading, attendance);
    if heading !in sheet.dates {
      forall i, j | 0 <= i < j < |m.dates| ensures m.dates[i] != m.dates[j] {
        if j < |sheet.dates| {
          assert m.dates[i] == sheet.dates[i] && m.dates[j] == sheet.dates[j];
        } else {
          assert m.dates[i] == sheet.dates[i];
        }
      }
    }
  }

  /** Merging twice under the same heading keeps only the second presence
      map: the later run replaces the column, it does not accumulate. */
  lemma MergeOverwrites(sheet: Sheet, heading: string, first: map<ScholarNo, Bit>, second: map<ScholarNo, Bit>)
    requires Covers(first, sheet.ids) && Covers(second, sheet.ids)
    ensures Merged(Merged(sheet, heading, first), heading, second) == Merged(sheet, heading, second)
  {
  }
}
