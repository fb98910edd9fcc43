/**
 A worked example of one run of the dashboard: three events over two
 years, with 2023 and every department chosen.
 */
module Scenario {
  import opened Orders
  import opened Seqs
  import opened Events
  import opened Filters
  import opened Aggregates

  function Sample(): seq<Event> {
    [ Event(Date(2023, 1, 5), "Sales", "Recruited", []),
      Event(Date(2023, 2, 10), "HR", "Onboarded", []),
      Event(Date(2022, 3, 1), "Sales", "Offboarded", []) ]
  }

  /** The three rows with their derived columns. */
  lemma SampleRows()
    ensures Decompose(Sample()) == [
      RowData(Date(2023, 1, 5), "Sales", "Recruited", [], 2023, 1),
      RowData(Date(2023, 2, 10), "HR", "Onboarded", [], 2023, 2),
      RowData(Date(2022, 3, 1), "Sales", "Offboarded", [], 2022, 3) ]
  {
  }

  /** The year box offers "All", 2023, 2022, in that order. */
  lemma SampleYearOptions()
    ensures YearOptions(Decompose(Sample())) == [AllYears, InYear(2023), InYear(2022)]
  {
    var all := Decompose(Sample());
    SampleRows();
    IntOrdersAreStrictTotal();
    assert Years(all) == [2023, 2023, 2022];
    assert SortedDistinct([2023], IntGreater) == [2023];
    assert [2023, 2023][..1] == [2023];
    assert SortedDistinct([2023, 2023], IntGreater) == [2023];
    assert [2023, 2023, 2022][..2] == [2023, 2023];
    assert Insert([2023], 2022, IntGreater) == [2023, 2022];
    assert SortedDistinct([2023, 2023, 2022], IntGreater) == [2023, 2022];
  }

  /** Choosing 2023 keeps the first two rows. */
  lemma SampleYearFilter()
    ensures FilterByYear(Decompose(Sample()), InYear(2023)) == Decompose(Sample())[..2]
  {
    var all := Decompose(Sample());
    SampleRows();
    var p := (row: Row) => row.year == 2023;
    assert all[1..][1..][1..] == [];
    assert Filter(all[1..][1..], p) == [];
    assert Filter(all[1..], p) == [all[1]];
    assert Filter(all, p) == [all[0], all[1]];
  }

  /** With 2023 chosen, the department box offers "All", "HR", "Sales". */
  lemma SampleDepartmentOptions()
    ensures DepartmentOptions(Decompose(Sample())[..2]) == ["All", "HR", "Sales"]
  {
    var t := Decompose(Sample())[..2];
    SampleRows();
    StrLessIsStrictTotal();
    assert Departments(t) == ["Sales", "HR"];
    assert ["Sales", "HR"][..1] == ["Sales"];
    assert SortedDistinct(["Sales"], StrLess) == ["Sales"];
    assert StrLess("HR", "Sales");
    assert Insert(["Sales"], "HR", StrLess) == ["HR", "Sales"];
  }

  /**
   Three events over two years: choosing 2023 and every department keeps
   the two 2023 rows, which count one recruitment, one onboarding and no
   offboarding.
   */
  lemma SampleKpis()
    ensures FilterByDepartment(Decompose(Sample())[..2], ["All"]) == Decompose(Sample())[..2]
    ensures Kpis(Decompose(Sample())[..2]) == KeyFigures(1, 1, 0)
  {
    var t := Decompose(Sample())[..2];
    SampleRows();
    assert Statuses(t) == ["Recruited", "Onboarded"];
    assert multiset(Statuses(t)) == multiset{"Recruited", "Onboarded"};
  }
  /** The month, status and (month, status) columns of the two 2023 rows. */
  lemma SampleColumns()
    ensures Months(Decompose(Sample())[..2]) == [1, 2]
    ensures Statuses(Decompose(Sample())[..2]) == ["Recruited", "Onboarded"]
    ensures multiset(MonthStatus(Decompose(Sample())[..2])) == multiset{(1, "Recruited"), (2, "Onboarded")}
  {
    var t := Decompose(Sample())[..2];
    SampleRows();
    assert MonthStatus(t) == [(1, "Recruited"), (2, "Onboarded")];
  }

  /** Strictly ascending months drawn from exactly {1, 2} are `[1, 2]`. */
  lemma SampleMonthAxis(ms: seq<int>)
    requires forall i, j :: 0 <= i < j < |ms| ==> ms[i] < ms[j]
    requires forall m :: m in ms <==> m == 1 || m == 2
    ensures ms == [1, 2]
  {
    IntOrdersAreStrictTotal();
    assert Sorted(ms, IntLess);
    assert Sorted([1, 2], IntLess);
    assert forall m :: m in [1, 2] <==> m == 1 || m == 2;
    SortedUnique(ms, [1, 2], IntLess);
  }

  /** Ascending statuses drawn from exactly the two sample statuses. */
  lemma SampleStatusAxis(ss: seq<string>)
    requires forall i, j :: 0 <= i < j < |ss| ==> StrLess(ss[i], ss[j])
    requires forall s :: s in ss <==> s == "Recruited" || s == "Onboarded"
    ensures ss == ["Onboarded", "Recruited"]
  {
    StrLessIsStrictTotal();
    assert StrLess("Onboarded", "Recruited");
    assert Sorted(["Onboarded", "Recruited"], StrLess);
    assert forall s :: s in ["Onboarded", "Recruited"] <==> s == "Recruited" || s == "Onboarded";
    SortedUnique(ss, ["Onboarded", "Recruited"], StrLess);
  }

  /**
   The monthly matrix of the two 2023 rows: months 1 and 2, statuses in
   ascending order, and one row counted in each of two cells.
   */
  method SampleBreakdown() returns (b: Breakdown)
    ensures b.months == [1, 2]
    ensures b.statuses == ["Onboarded", "Recruited"]
    ensures b.cells == [[0, 1], [1, 0]]
  {
    var t := Decompose(Sample())[..2];
    b := MonthlyBreakdown(t);
    SampleColumns();
    SampleMonthAxis(b.months);
    SampleStatusAxis(b.statuses);
    var m := multiset(MonthStatus(t));
    assert m[(1, "Onboarded")] == 0 && m[(1, "Recruited")] == 1;
    assert m[(2, "Onboarded")] == 1 && m[(2, "Recruited")] == 0;
    assert |b.cells| == 2 && |b.cells[0]| == 2 && |b.cells[1]| == 2;
    assert b.cells[0][0] == m[(b.months[0], b.statuses[0])] == 0;
    assert b.cells[0][1] == m[(b.months[0], b.statuses[1])] == 1;
    assert b.cells[1][0] == m[(b.months[1], b.statuses[0])] == 1;
    assert b.cells[1][1] == m[(b.months[1], b.statuses[1])] == 0;
    assert b.cells[0] == [0, 1];
    assert b.cells[1] == [1, 0];
  }
}
