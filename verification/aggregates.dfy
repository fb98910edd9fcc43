/**
 What the dashboard computes from the filtered table: the three headline
 counts, the status distribution shown as a pie chart, and the zero-filled
 month-by-status matrix shown as a stacked bar chart.
 */
module Aggregates {
  import opened Orders
  import opened Seqs
  import opened Events

  /** The three statuses the headline counts single out. */
  const Recruited: string := "Recruited"
  const Onboarded: string := "Onboarded"
  const Offboarded: string := "Offboarded"

  /** The `Status` column. */
  function Statuses(t: seq<Row>): (ss: seq<string>)
    ensures |ss| == |t|
  {
    seq(|t|, i requires 0 <= i < |t| => t[i].status)
  }

  /** The `Month` column. */
  function Months(t: seq<Row>): (ms: seq<int>)
    ensures |ms| == |t|
  {
    seq(|t|, i requires 0 <= i < |t| => t[i].month)
  }

  /** The (`Month`, `Status`) pair of every row: the groupby key. */
  function MonthStatus(t: seq<Row>): (ps: seq<(int, string)>)
    ensures |ps| == |t|
  {
    seq(|t|, i requires 0 <= i < |t| => (t[i].month, t[i].status))
  }

  /** The `Status` column of a non-empty table: its head's status, then the rest's. */
  lemma StatusesStep(t: seq<Row>)
    requires |t| > 0
    ensures multiset(Statuses(t)) == multiset{t[0].status} + multiset(Statuses(t[1..]))
  {
    assert Statuses(t) == [t[0].status] + Statuses(t[1..]);
  }

  lemma {:induction false} StatusMaskCount(t: seq<Row>, wanted: string)
    ensures |Filter(t, (row: Row) => row.status == wanted)| == multiset(Statuses(t))[wanted]
  {
    if |t| > 0 {
      var p := (row: Row) => row.status == wanted;
      StatusMaskCount(t[1..], wanted);
      StatusesStep(t);
      FilterStep(t, p);
    }
  }

  /**
   The number of rows of the table selected by the mask `Status == wanted`,
   which is how often `wanted` occurs in the `Status` column.
   */
  function StatusCount(t: seq<Row>, wanted: string): (n: nat)
    ensures n == multiset(Statuses(t))[wanted]
    ensures n <= |t|
  {
    StatusMaskCount(t, wanted);
    |Filter(t, (row: Row) => row.status == wanted)|
  }

  datatype KeyFigures = KeyFigures(recruited: nat, onboarded: nat, offboarded: nat)

  /** Three distinct labels together occur at most once per element. */
  lemma {:induction false} ThreeLabelsBound(s: seq<string>, a: string, b: string, c: string)
    requires a != b && b != c && a != c
    ensures multiset(s)[a] + multiset(s)[b] + multiset(s)[c] <= |s|
  {
    if |s| > 0 {
      ThreeLabelsBound(s[1..], a, b, c);
      assert s == [s[0]] + s[1..];
    }
  }

  /**
   The headline counts: rows whose status is exactly `Recruited`,
   `Onboarded` and `Offboarded`. Other statuses count towards none of them,
   so together they never exceed the number of rows.
   */
  function Kpis(t: seq<Row>): (k: KeyFigures)
    ensures k.recruited == multiset(Statuses(t))[Recruited]
    ensures k.onboarded == multiset(Statuses(t))[Onboarded]
    ensures k.offboarded == multiset(Statuses(t))[Offboarded]
    ensures k.recruited + k.onboarded + k.offboarded <= |t|
  {
    ThreeLabelsBound(Statuses(t), Recruited, Onboarded, Offboarded);
    KeyFigures(StatusCount(t, Recruited), StatusCount(t, Onboarded), StatusCount(t, Offboarded))
  }

  /** One entry of the status distribution: a status and its number of rows. */
  datatype Tally = Tally(status: string, count: nat)

  /** The statuses listed by a distribution. */
  function Labels(entries: seq<Tally>): (ls: seq<string>)
    ensures |ls| == |entries|
  {
    seq(|entries|, i requires 0 <= i < |entries| => entries[i].status)
  }

  /** No status is listed twice. */
  ghost predicate DistinctLabels(entries: seq<Tally>) {
    forall i, j :: 0 <= i < j < |entries| ==> entries[i].status != entries[j].status
  }

  /** The count a distribution gives `wanted`; 0 when it does not list it. */
  function CountOf(entries: seq<Tally>, wanted: string): nat {
    if |entries| == 0 then 0
    else if entries[0].status == wanted then entries[0].count
    else CountOf(entries[1..], wanted)
  }

  /** The sum of all counts of a distribution. */
  function Total(entries: seq<Tally>): nat {
    if |entries| == 0 then 0 else entries[0].count + Total(entries[1..])
  }

  /** Records one more row with status `wanted`. */
  function Bump(entries: seq<Tally>, wanted: string): (r: seq<Tally>)
    requires DistinctLabels(entries)
    ensures DistinctLabels(r)
    ensures forall s :: s in Labels(r) <==> s in Labels(entries) || s == wanted
    ensures forall s :: CountOf(r, s) == CountOf(entries, s) + (if s == wanted then 1 else 0)
    ensures (forall i :: 0 <= i < |entries| ==> entries[i].count >= 1) ==>
              forall i :: 0 <= i < |r| ==> r[i].count >= 1
    ensures Total(r) == Total(entries) + 1
  {
    if |entries| == 0 then
      var r := [Tally(wanted, 1)];
      assert Labels(r) == [wanted];
      r
    else if entries[0].status == wanted then
      var r := [Tally(wanted, entries[0].count + 1)] + entries[1..];
      assert r[1..] == entries[1..];
      assert Labels(entries)[0] == wanted;
      assert Labels(r) == Labels(entries);
      r
    else
      var rest := Bump(entries[1..], wanted);
      var r := [entries[0]] + rest;
      assert r[1..] == rest;
      assert Labels(r) == [entries[0].status] + Labels(rest);
      assert Labels(entries) == [entries[0].status] + Labels(entries[1..]);
      forall j | 0 <= j < |rest|
        ensures rest[j].status != entries[0].status
      {
        assert Labels(rest)[j] == rest[j].status;
        assert rest[j].status in Labels(rest);
        if rest[j].status != wanted {
          assert rest[j].status in Labels(entries[1..]);
          var k :| 0 <= k < |entries[1..]| && Labels(entries[1..])[k] == rest[j].status;
          assert entries[k + 1].status == rest[j].status;
        }
      }
      r
  }

  /** In a distribution without repeated statuses, an entry's count is what `CountOf` finds. */
  lemma {:induction false} CountOfEntry(entries: seq<Tally>, i: int)
    requires DistinctLabels(entries)
    requires 0 <= i < |entries|
    ensures CountOf(entries, entries[i].status) == entries[i].count
  {
    if i > 0 {
      CountOfEntry(entries[1..], i - 1);
    }
  }

  /**
   The status distribution (`value_counts` of the `Status` column): every
   status present is listed exactly once, with the number of rows carrying
   it, which is at least 1; no absent status is listed; the counts add up
   to the number of rows.
   */
  function ValueCounts(t: seq<Row>): (r: seq<Tally>)
    ensures DistinctLabels(r)
    ensures forall s :: s in Labels(r) <==> s in Statuses(t)
    ensures forall s :: CountOf(r, s) == multiset(Statuses(t))[s]
    ensures forall i :: 0 <= i < |r| ==> 1 <= r[i].count == multiset(Statuses(t))[r[i].status]
    ensures Total(r) == |t|
  {
    if |t| == 0 then []
    else
      var prefix := t[..|t| - 1];
      var last := t[|t| - 1];
      assert Statuses(t) == Statuses(prefix) + [last.status];
      var r := Bump(ValueCounts(prefix), last.status);
      assert forall i :: 0 <= i < |r| ==> CountOf(r, r[i].status) == r[i].count by {
        forall i | 0 <= i < |r| {
          CountOfEntry(r, i);
        }
      }
      r
  }

  /** The headline counts are the status distribution's entries for their three labels. */
  lemma KpisAgreeWithDistribution(t: seq<Row>)
    ensures Kpis(t).recruited == CountOf(ValueCounts(t), Recruited)
    ensures Kpis(t).onboarded == CountOf(ValueCounts(t), Onboarded)
    ensures Kpis(t).offboarded == CountOf(ValueCounts(t), Offboarded)
  {
  }

  /**
   The month-by-status matrix of the stacked bar chart: one row per month
   present (ascending), one column per status present (ascending), a count
   in every cell.
   */
  datatype Breakdown = Breakdown(months: seq<int>, statuses: seq<string>, cells: seq<seq<nat>>)

  function RowSum(s: seq<nat>): nat {
    if |s| == 0 then 0 else s[0] + RowSum(s[1..])
  }

  function GrandTotal(cells: seq<seq<nat>>): nat {
    if |cells| == 0 then 0 else RowSum(cells[0]) + GrandTotal(cells[1..])
  }

  lemma {:induction false} RowSumIncrement(s: seq<nat>, j: int)
    requires 0 <= j < |s|
    ensures RowSum(s[j := s[j] + 1]) == RowSum(s) + 1
  {
    if j > 0 {
      RowSumIncrement(s[1..], j - 1);
      assert s[j := s[j] + 1][1..] == s[1..][j - 1 := s[j] + 1];
    }
  }

  lemma {:induction false} GrandTotalReplace(cells: seq<seq<nat>>, i: int, row: seq<nat>)
    requires 0 <= i < |cells|
    ensures GrandTotal(cells[i := row]) + RowSum(cells[i]) == GrandTotal(cells) + RowSum(row)
  {
    if i > 0 {
      GrandTotalReplace(cells[1..], i - 1, row);
      assert cells[i := row][1..] == cells[1..][i - 1 := row];
    }
  }

  /** A row of `n` zero counts. */
  function Zeros(n: nat): (z: seq<nat>)
    ensures |z| == n && RowSum(z) == 0
    ensures forall j :: 0 <= j < n ==> z[j] == 0
  {
    if n == 0 then [] else [0] + Zeros(n - 1)
  }

  /** A `rows` by `width` matrix of zero counts. */
  function ZeroMatrix(rows: nat, width: nat): (z: seq<seq<nat>>)
    ensures |z| == rows && GrandTotal(z) == 0
    ensures forall i :: 0 <= i < rows ==> z[i] == Zeros(width)
  {
    if rows == 0 then [] else [Zeros(width)] + ZeroMatrix(rows - 1, width)
  }

  /** Every cell counts the pairs `ps` equal to its (month, status). */
  ghost predicate CellsCount(cells: seq<seq<nat>>, months: seq<int>, statuses: seq<string>, ps: seq<(int, string)>) {
    && |cells| == |months|
    && (forall i :: 0 <= i < |cells| ==> |cells[i]| == |statuses|)
    && forall i, j :: 0 <= i < |months| && 0 <= j < |statuses| ==>
         cells[i][j] == multiset(ps)[(months[i], statuses[j])]
  }

  /** Counting one more pair increments exactly the cell of that pair. */
  lemma CountOneMore(cells: seq<seq<nat>>, months: seq<int>, statuses: seq<string>,
                     ps: seq<(int, string)>, i: nat, j: nat)
    requires CellsCount(cells, months, statuses, ps)
    requires Distinct(months) && Distinct(statuses)
    requires i < |months| && j < |statuses|
    ensures CellsCount(cells[i := cells[i][j := cells[i][j] + 1]], months, statuses, ps + [(months[i], statuses[j])])
  {
    var p := (months[i], statuses[j]);
    assert multiset(ps + [p]) == multiset(ps) + multiset{p};
  }

  lemma MonthStatusExtend(t: seq<Row>, k: nat)
    requires k < |t|
    ensures MonthStatus(t[..k + 1]) == MonthStatus(t[..k]) + [(t[k].month, t[k].status)]
  {
  }

  /** Counting row `k` into its cell extends the count from `t[..k]` to `t[..k + 1]`. */
  lemma CountStep(t: seq<Row>, k: nat, cells: seq<seq<nat>>, months: seq<int>, statuses: seq<string>,
                  i: nat, j: nat)
    requires k < |t|
    requires Distinct(months) && Distinct(statuses)
    requires i < |months| && j < |statuses|
    requires months[i] == t[k].month && statuses[j] == t[k].status
    requires CellsCount(cells, months, statuses, MonthStatus(t[..k]))
    requires GrandTotal(cells) == k
    ensures CellsCount(cells[i := cells[i][j := cells[i][j] + 1]], months, statuses, MonthStatus(t[..k + 1]))
    ensures GrandTotal(cells[i := cells[i][j := cells[i][j] + 1]]) == k + 1
  {
    var row := cells[i][j := cells[i][j] + 1];
    RowSumIncrement(cells[i], j);
    GrandTotalReplace(cells, i, row);
    CountOneMore(cells, months, statuses, MonthStatus(t[..k]), i, j);
    MonthStatusExtend(t, k);
  }

  /**
   Counts the rows of `t` per (month, status) cell, one row at a time, for
   axes that list every month and status of `t` once.
   */
  method CountGroups(t: seq<Row>, months: seq<int>, statuses: seq<string>) returns (cells: seq<seq<nat>>)
    requires Distinct(months) && Distinct(statuses)
    requires forall k :: 0 <= k < |t| ==> t[k].month in months && t[k].status in statuses
    ensures CellsCount(cells, months, statuses, MonthStatus(t))
    ensures GrandTotal(cells) == |t|
  {
    cells := ZeroMatrix(|months|, |statuses|);
    var k := 0;
    while k < |t|
      invariant 0 <= k <= |t|
      invariant CellsCount(cells, months, statuses, MonthStatus(t[..k]))
      invariant GrandTotal(cells) == k
    {
      var i := IndexOf(months, t[k].month);
      var j := IndexOf(statuses, t[k].status);
      CountStep(t, k, cells, months, statuses, i, j);
      cells := cells[i := cells[i][j := cells[i][j] + 1]];
      k := k + 1;
    }
    assert t[..|t|] == t;
  }

  /** The months present, ascending: the row labels of the matrix. */
  function MonthAxis(t: seq<Row>): (ms: seq<int>)
    ensures forall i, j :: 0 <= i < j < |ms| ==> ms[i] < ms[j]
    ensures forall m :: m in ms <==> m in Months(t)
    ensures forall i :: 0 <= i < |ms| ==> 1 <= ms[i] <= 12
    ensures Distinct(ms)
  {
    IntOrdersAreStrictTotal();
    var ms := SortedDistinct(Months(t), IntLess);
    SortedIsDistinct(ms, IntLess);
    assert forall i :: 0 <= i < |ms| ==> ms[i] in Months(t);
    ms
  }

  /** The statuses present, ascending: the column labels of the matrix. */
  function StatusAxis(t: seq<Row>): (ss: seq<string>)
    ensures forall i, j :: 0 <= i < j < |ss| ==> StrLess(ss[i], ss[j])
    ensures forall s :: s in ss <==> s in Statuses(t)
    ensures Distinct(ss)
  {
    StrLessIsStrictTotal();
    var ss := SortedDistinct(Statuses(t), StrLess);
    SortedIsDistinct(ss, StrLess);
    ss
  }

  /**
   Groups the rows by (month, status) and counts each group, zero-filling the
   combinations that do not occur (`groupby([...]).size().unstack(fill_value=0)`).
   Only months and statuses present in the table label the matrix; each
   month is a calendar month; every cell holds the number of rows with its
   month and status; all cells together count every row once.
   */
  method MonthlyBreakdown(t: seq<Row>) returns (b: Breakdown)
    ensures forall i, j :: 0 <= i < j < |b.months| ==> b.months[i] < b.months[j]
    ensures forall m :: m in b.months <==> m in Months(t)
    ensures forall i :: 0 <= i < |b.months| ==> 1 <= b.months[i] <= 12
    ensures forall i, j :: 0 <= i < j < |b.statuses| ==> StrLess(b.statuses[i], b.statuses[j])
    ensures forall s :: s in b.statuses <==> s in Statuses(t)
    ensures |b.cells| == |b.months|
    ensures forall i :: 0 <= i < |b.cells| ==> |b.cells[i]| == |b.statuses|
    ensures forall i, j :: 0 <= i < |b.months| && 0 <= j < |b.statuses| ==>
              b.cells[i][j] == multiset(MonthStatus(t))[(b.months[i], b.statuses[j])]
    ensures GrandTotal(b.cells) == |t|
  {
    var months := MonthAxis(t);
    var statuses := StatusAxis(t);
    assert forall k :: 0 <= k < |t| ==> Months(t)[k] == t[k].month && Statuses(t)[k] == t[k].status;
    var cells := CountGroups(t, months, statuses);
    b := Breakdown(months, statuses, cells);
  }
}
