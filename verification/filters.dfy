/**
 The dashboard's two sidebar filters: a single-choice year filter whose
 options come from the whole table, then a multi-choice department filter
 whose options come from the year-filtered table. Both are order-preserving
 row selections; "All" is a sentinel option meaning "no filtering".
 */
module Filters {
  import opened Orders
  import opened Seqs
  import opened Events

  /** The year select box: the "All" entry or one concrete year. */
  datatype YearSel = AllYears | InYear(year: int)

  /** The sentinel entry of the department multi-select. */
  const AllDepartments: string := "All"

  /** The `Year` column. */
  function Years(t: seq<Row>): (ys: seq<int>)
    ensures |ys| == |t|
  {
    seq(|t|, i requires 0 <= i < |t| => t[i].year)
  }

  /** The `Department` column. */
  function Departments(t: seq<Row>): (ds: seq<string>)
    ensures |ds| == |t|
  {
    seq(|t|, i requires 0 <= i < |t| => t[i].department)
  }

  /**
   The year select box's entries: "All" first, then every year that occurs
   in the table exactly once, newest first.
   */
  function YearOptions(t: seq<Row>): (opts: seq<YearSel>)
    ensures |opts| >= 1 && opts[0] == AllYears
    ensures forall i :: 1 <= i < |opts| ==> opts[i].InYear?
    ensures forall i, j :: 1 <= i < j < |opts| ==> opts[i].year > opts[j].year
    ensures forall y :: InYear(y) in opts <==> y in Years(t)
  {
    IntOrdersAreStrictTotal();
    var ys := SortedDistinct(Years(t), IntGreater);
    var opts := [AllYears] + seq(|ys|, i requires 0 <= i < |ys| => InYear(ys[i]));
    assert forall i :: 1 <= i < |opts| ==> opts[i] == InYear(ys[i - 1]);
    assert forall y :: y in ys ==> InYear(y) in opts by {
      forall y | y in ys
        ensures InYear(y) in opts
      {
        var i :| 0 <= i < |ys| && ys[i] == y;
        assert opts[i + 1] == InYear(y);
      }
    }
    opts
  }

  /**
   Applies the year selection: "All" keeps the table as it is; a year keeps
   exactly the rows of that year, in their original order.
   */
  function FilterByYear(t: seq<Row>, sel: YearSel): (r: seq<Row>)
    ensures sel == AllYears ==> r == t
    ensures IsSubseq(r, t) && |r| <= |t|
    ensures sel.InYear? ==> forall i :: 0 <= i < |r| ==> r[i].year == sel.year
    ensures sel.InYear? ==>
      forall row :: multiset(r)[row] == if row.year == sel.year then multiset(t)[row] else 0
  {
    match sel
    case AllYears =>
      assert Filter(t, (row: Row) => true) == t;
      t
    case InYear(y) => Filter(t, (row: Row) => row.year == y)
  }

  /**
   The department multi-select's entries, built from the year-filtered
   table: "All" first, then every department occurring in it exactly once,
   in ascending string order.
   */
  function DepartmentOptions(yearFiltered: seq<Row>): (opts: seq<string>)
    ensures |opts| >= 1 && opts[0] == AllDepartments
    ensures forall i, j :: 1 <= i < j < |opts| ==> StrLess(opts[i], opts[j])
    ensures forall d :: d in opts[1..] <==> d in Departments(yearFiltered)
  {
    StrLessIsStrictTotal();
    var ds := SortedDistinct(Departments(yearFiltered), StrLess);
    var opts := [AllDepartments] + ds;
    assert opts[1..] == ds;
    opts
  }

  /**
   Applies the department selection: if "All" is among the chosen entries
   the table is kept as it is; otherwise exactly the rows whose department
   was chosen remain, in order. Choosing nothing therefore empties the table.
   */
  function FilterByDepartment(yearFiltered: seq<Row>, sel: seq<string>): (r: seq<Row>)
    ensures AllDepartments in sel ==> r == yearFiltered
    ensures IsSubseq(r, yearFiltered) && |r| <= |yearFiltered|
    ensures AllDepartments !in sel ==> forall i :: 0 <= i < |r| ==> r[i].department in sel
    ensures AllDepartments !in sel ==>
      forall row :: multiset(r)[row] == if row.department in sel then multiset(yearFiltered)[row] else 0
    ensures sel == [] ==> r == []
  {
    if AllDepartments in sel then
      assert Filter(yearFiltered, (row: Row) => true) == yearFiltered;
      yearFiltered
    else
      Filter(yearFiltered, (row: Row) => row.department in sel)
  }

  /**
   The two filters select the same rows whichever runs first; only the
   department options depend on the year filter having run first.
   */
  lemma FilterOrderIrrelevant(t: seq<Row>, years: YearSel, departments: seq<string>)
    ensures FilterByDepartment(FilterByYear(t, years), departments)
         == FilterByYear(FilterByDepartment(t, departments), years)
  {
    if years.InYear? && AllDepartments !in departments {
      FilterCommutes(t, (row: Row) => row.year == years.year, (row: Row) => row.department in departments);
    }
  }

  /**
   With a year chosen, a department is offered exactly when some row of
   that year carries it.
   */
  lemma OfferedDepartmentsOfYear(t: seq<Row>, y: int, d: string)
    ensures d in DepartmentOptions(FilterByYear(t, InYear(y)))[1..]
        <==> exists row :: row in t && row.year == y && row.department == d
  {
    var yt := FilterByYear(t, InYear(y));
    if d in DepartmentOptions(yt)[1..] {
      assert d in Departments(yt);
      var i :| 0 <= i < |yt| && yt[i].department == d;
      assert multiset(yt)[yt[i]] > 0;
      assert yt[i] in t;
    }
    if exists row :: row in t && row.year == y && row.department == d {
      var row :| row in t && row.year == y && row.department == d;
      assert multiset(yt)[row] == multiset(t)[row] > 0;
      assert row in yt;
      var i :| 0 <= i < |yt| && yt[i] == row;
      assert Departments(yt)[i] == d;
    }
  }
}
