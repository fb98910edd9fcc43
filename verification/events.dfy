/**
 The HR event table: one row per recruitment, onboarding or offboarding
 record, with its parsed calendar date, and the `Year` and `Month` columns
 the dashboard derives from that date.
 */
module Events {

  /** A proleptic Gregorian calendar date, as a parsed timestamp carries it. */
  datatype Date = Date(year: int, month: int, day: int)

  predicate IsLeapYear(y: int) {
    y % 4 == 0 && (y % 100 != 0 || y % 400 == 0)
  }

  function DaysInMonth(y: int, m: int): (n: int)
    requires 1 <= m <= 12
    ensures 28 <= n <= 31
  {
    if m == 2 then (if IsLeapYear(y) then 29 else 28)
    else if m == 4 || m == 6 || m == 9 || m == 11 then 30
    else 31
  }

  predicate ValidDate(d: Date) {
    1 <= d.month <= 12 && 1 <= d.day <= DaysInMonth(d.year, d.month)
  }

  /** Dates that parsed: the loader refuses the table otherwise. */
  type CalendarDate = d: Date | ValidDate(d) witness Date(1970, 1, 1)

  /**
   One loaded record. `other` stands for the columns the dashboard passes
   through to the raw table view without looking at them.
   */
  datatype Event = Event(date: CalendarDate, department: string, status: string, other: seq<string>)

  /** A record together with its derived `Year` and `Month` columns. */
  datatype RowData = RowData(date: CalendarDate, department: string, status: string, other: seq<string>,
                             year: int, month: int)

  /** The derived columns always agree with the row's own date. */
  type Row = r: RowData | r.year == r.date.year && r.month == r.date.month
    witness RowData(Date(1970, 1, 1), "", "", [], 1970, 1)

  /** A row with its derived columns dropped. */
  function EventOf(r: Row): Event {
    Event(r.date, r.department, r.status, r.other)
  }

  function Strip(t: seq<Row>): (es: seq<Event>)
    ensures |es| == |t|
  {
    seq(|t|, i requires 0 <= i < |t| => EventOf(t[i]))
  }

  /**
   Adds the `Year` and `Month` columns to every row: each row keeps its
   position and its loaded fields, gains the calendar year of its date and a
   month number between 1 and 12.
   */
  function Decompose(events: seq<Event>): (t: seq<Row>)
    ensures |t| == |events|
    ensures forall i :: 0 <= i < |t| ==> EventOf(t[i]) == events[i]
    ensures forall i :: 0 <= i < |t| ==> t[i].year == events[i].date.year
    ensures forall i :: 0 <= i < |t| ==> 1 <= t[i].month <= 12
  {
    seq(|events|, i requires 0 <= i < |events| =>
      var e := events[i];
      RowData(e.date, e.department, e.status, e.other, e.date.year, e.date.month))
  }

  /** Dropping the derived columns recovers the loaded table. */
  lemma StripDecompose(events: seq<Event>)
    ensures Strip(Decompose(events)) == events
  {
  }

  /** The derived columns carry nothing beyond the date: recomputing them is a no-op. */
  lemma DecomposeStrip(t: seq<Row>)
    ensures Decompose(Strip(t)) == t
  {
  }

  /** February 29 parses, and therefore gets month 2, exactly in leap years. */
  lemma LeapDay(y: int)
    ensures ValidDate(Date(y, 2, 29)) <==> IsLeapYear(y)
    ensures ValidDate(Date(y, 1, 1)) && ValidDate(Date(y, 12, 31))
  {
  }
}
