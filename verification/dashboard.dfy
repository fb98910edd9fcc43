/**
 One run of the dashboard script's logic for a given pair of sidebar
 selections: derive the date columns, filter by year, offer and apply the
 department filter, and compute from the filtered table what the page hands
 to its metrics, charts and raw data view.
 */
module Dashboard {
  import opened Orders
  import opened Seqs
  import opened Events
  import opened Filters
  import opened Aggregates

  /** What one run computes for the page's widgets, before any drawing. */
  datatype View = View(
    yearOptions: seq<YearSel>,
    departmentOptions: seq<string>,
    table: seq<Row>,
    kpis: KeyFigures,
    distribution: seq<Tally>,
    monthly: Breakdown)

  /** A row survives both filters under these selections. */
  predicate Selected(row: Row, year: YearSel, departments: seq<string>) {
    && (year == AllYears || row.year == year.year)
    && (AllDepartments in departments || row.department in departments)
  }

  /**
   The two option lists: the year box offers every year of the loaded
   events, newest first; the department box offers the departments of the
   rows the year selection keeps, in ascending string order.
   */
  method Options(events: seq<Event>, year: YearSel) returns (yearOptions: seq<YearSel>, departmentOptions: seq<string>)
    ensures |yearOptions| >= 1 && yearOptions[0] == AllYears
    ensures forall i :: 1 <= i < |yearOptions| ==> yearOptions[i].InYear?
    ensures forall i, j :: 1 <= i < j < |yearOptions| ==> yearOptions[i].year > yearOptions[j].year
    ensures forall y :: InYear(y) in yearOptions <==> exists e :: e in events && e.date.year == y
    ensures |departmentOptions| >= 1 && departmentOptions[0] == AllDepartments
    ensures forall i, j :: 1 <= i < j < |departmentOptions| ==> StrLess(departmentOptions[i], departmentOptions[j])
    ensures forall d :: d in departmentOptions[1..] <==>
              exists row :: row in Decompose(events) && (year == AllYears || row.year == year.year) && row.department == d
  {
    var all := Decompose(events);
    yearOptions := YearOptions(all);
    departmentOptions := DepartmentOptions(FilterByYear(all, year));
    YearsOfEvents(events);
    OfferedDepartments(all, year);
  }

  /**
   What the page computes from the filtered table: the headline counts, the
   status distribution and the monthly matrix, each accounting for exactly
   the rows of `table`.
   */
  method Summarise(table: seq<Row>) returns (kpis: KeyFigures, distribution: seq<Tally>, monthly: Breakdown)
    ensures kpis.recruited == multiset(Statuses(table))[Recruited]
    ensures kpis.onboarded == multiset(Statuses(table))[Onboarded]
    ensures kpis.offboarded == multiset(Statuses(table))[Offboarded]
    ensures kpis.recruited + kpis.onboarded + kpis.offboarded <= |table|
    ensures DistinctLabels(distribution)
    ensures forall s :: s in Labels(distribution) <==> s in Statuses(table)
    ensures forall s :: CountOf(distribution, s) == multiset(Statuses(table))[s]
    ensures forall i :: 0 <= i < |distribution| ==> distribution[i].count >= 1
    ensures Total(distribution) == |table|
    ensures forall i, j :: 0 <= i < j < |monthly.months| ==> monthly.months[i] < monthly.months[j]
    ensures forall m :: m in monthly.months <==> m in Months(table)
    ensures forall i, j :: 0 <= i < j < |monthly.statuses| ==> StrLess(monthly.statuses[i], monthly.statuses[j])
    ensures forall s :: s in monthly.statuses <==> s in Statuses(table)
    ensures |monthly.cells| == |monthly.months|
    ensures forall i :: 0 <= i < |monthly.cells| ==> |monthly.cells[i]| == |monthly.statuses|
    ensures forall i, j :: 0 <= i < |monthly.months| && 0 <= j < |monthly.statuses| ==>
              monthly.cells[i][j] == multiset(MonthStatus(table))[(monthly.months[i], monthly.statuses[j])]
    ensures GrandTotal(monthly.cells) == |table|
  {
    kpis := Kpis(table);
    distribution := ValueCounts(table);
    monthly := MonthlyBreakdown(table);
  }

  /** The rows both filters keep, in load order. */
  method Select(events: seq<Event>, year: YearSel, departments: seq<string>) returns (table: seq<Row>)
    ensures IsSubseq(table, Decompose(events))
    ensures forall row :: multiset(table)[row] ==
              if Selected(row, year, departments) then multiset(Decompose(events))[row] else 0
  {
    var all := Decompose(events);
    table := FilterByDepartment(FilterByYear(all, year), departments);
    SelectionIsExact(all, year, departments);
  }

  /**
   The whole pipeline. The table handed to the raw data view is the one
   `Select` returns: exactly the selected rows, in load order. The option
   lists are those `Options` describes. The headline counts, the
   distribution and the monthly matrix are those `Summarise` describes for
   that table.
   */
  method Render(events: seq<Event>, year: YearSel, departments: seq<string>) returns (v: View)
    ensures IsSubseq(v.table, Decompose(events))
    ensures forall row :: multiset(v.table)[row] ==
              if Selected(row, year, departments) then multiset(Decompose(events))[row] else 0
    ensures |v.yearOptions| >= 1 && v.yearOptions[0] == AllYears
    ensures forall i :: 1 <= i < |v.yearOptions| ==> v.yearOptions[i].InYear?
    ensures forall i, j :: 1 <= i < j < |v.yearOptions| ==> v.yearOptions[i].year > v.yearOptions[j].year
    ensures forall y :: InYear(y) in v.yearOptions <==> exists e :: e in events && e.date.year == y
    ensures |v.departmentOptions| >= 1 && v.departmentOptions[0] == AllDepartments
    ensures forall i, j :: 1 <= i < j < |v.departmentOptions| ==> StrLess(v.departmentOptions[i], v.departmentOptions[j])
    ensures forall d :: d in v.departmentOptions[1..] <==>
              exists row :: row in Decompose(events) && (year == AllYears || row.year == year.year) && row.department == d
    ensures v.kpis.recruited == multiset(Statuses(v.table))[Recruited]
    ensures v.kpis.onboarded == multiset(Statuses(v.table))[Onboarded]
    ensures v.kpis.offboarded == multiset(Statuses(v.table))[Offboarded]
    ensures v.kpis.recruited + v.kpis.onboarded + v.kpis.offboarded <= |v.table|
    ensures DistinctLabels(v.distribution)
    ensures forall s :: s in Labels(v.distribution) <==> s in Statuses(v.table)
    ensures forall s :: CountOf(v.distribution, s) == multiset(Statuses(v.table))[s]
    ensures forall i :: 0 <= i < |v.distribution| ==> v.distribution[i].count >= 1
    ensures Total(v.distribution) == |v.table|
    ensures forall i, j :: 0 <= i < j < |v.monthly.months| ==> v.monthly.months[i] < v.monthly.months[j]
    ensures forall m :: m in v.monthly.months <==> m in Months(v.table)
    ensures forall i, j :: 0 <= i < j < |v.monthly.statuses| ==> StrLess(v.monthly.statuses[i], v.monthly.statuses[j])
    ensures forall s :: s in v.monthly.statuses <==> s in Statuses(v.table)
    ensures |v.monthly.cells| == |v.monthly.months|
    ensures forall i :: 0 <= i < |v.monthly.cells| ==> |v.monthly.cells[i]| == |v.monthly.statuses|
    ensures forall i, j :: 0 <= i < |v.monthly.months| && 0 <= j < |v.monthly.statuses| ==>
              v.monthly.cells[i][j] == multiset(MonthStatus(v.table))[(v.monthly.months[i], v.monthly.statuses[j])]
    ensures GrandTotal(v.monthly.cells) == |v.table|
  {
    var yearOptions, departmentOptions := Options(events, year);
    var table := Select(events, year, departments);
    var kpis, distribution, monthly := Summarise(table);
    v := View(yearOptions, departmentOptions, table, kpis, distribution, monthly);
  }

  /** The two filters together keep exactly the selected rows. */
  lemma SelectionIsExact(all: seq<Row>, year: YearSel, departments: seq<string>)
    ensures forall row :: multiset(FilterByDepartment(FilterByYear(all, year), departments))[row] ==
              if Selected(row, year, departments) then multiset(all)[row] else 0
    ensures IsSubseq(FilterByDepartment(FilterByYear(all, year), departments), all)
  {
    var yt := FilterByYear(all, year);
    var r := FilterByDepartment(yt, departments);
    SubseqTransitive(r, yt, all);
  }

  /** The years offered are those of the loaded events. */
  lemma YearsOfEvents(events: seq<Event>)
    ensures forall y :: y in Years(Decompose(events)) <==> exists e :: e in events && e.date.year == y
  {
    var all := Decompose(events);
    forall y
      ensures y in Years(all) <==> exists e :: e in events && e.date.year == y
    {
      if y in Years(all) {
        var i :| 0 <= i < |all| && Years(all)[i] == y;
        assert events[i] in events;
      }
      if exists e :: e in events && e.date.year == y {
        var e :| e in events && e.date.year == y;
        var i :| 0 <= i < |events| && events[i] == e;
        assert Years(all)[i] == y;
      }
    }
  }

  /** The departments offered are those of the rows the year filter keeps. */
  lemma OfferedDepartments(all: seq<Row>, year: YearSel)
    ensures forall d :: d in DepartmentOptions(FilterByYear(all, year))[1..] <==>
              exists row :: row in all && (year == AllYears || row.year == year.year) && row.department == d
  {
    forall d
      ensures d in DepartmentOptions(FilterByYear(all, year))[1..] <==>
              exists row :: row in all && (year == AllYears || row.year == year.year) && row.department == d
    {
      match year
      case InYear(y) => OfferedDepartmentsOfYear(all, y, d);
      case AllYears =>
        if d in Departments(all) {
          var i :| 0 <= i < |all| && Departments(all)[i] == d;
          assert all[i] in all;
        }
        if exists row :: row in all && row.department == d {
          var row :| row in all && row.department == d;
          var i :| 0 <= i < |all| && all[i] == row;
          assert Departments(all)[i] == d;
        }
    }
  }
}
