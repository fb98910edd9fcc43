# HR dashboard filter-and-count pipeline, in Dafny

This project models the logic of `hr_dashboard.py`, a single Streamlit script
that shows HR events (recruitment, onboarding and offboarding records). Each
time the page re-runs, the script does the same steps:

1. It derives `Year` and `Month` columns from each row's parsed `Date`.
2. It offers the distinct years, newest first, after an "All" entry, and
   filters the table by the chosen year.
3. It offers the distinct departments of the year-filtered table, in
   ascending order, after an "All" entry. It then filters by the chosen
   departments. If "All" is among the choices, nothing is filtered.
4. It counts the rows with status exactly `Recruited`, `Onboarded` and
   `Offboarded`.
5. It computes the status distribution (`value_counts`) and the zero-filled
   month-by-status matrix (`groupby(['Month','Status']).size().unstack(fill_value=0)`).

Every step is a pure function over a sequence of rows. The one exception is
the matrix, which is built by a method that counts one row at a time.

Modules, leaf first:

- `Orders` (`orders.dfy`): strict total orders and strictly sorted sequences.
  It holds `SortedDistinct`, the model of `sorted(column.unique())`, and
  Python's code-point order on strings (`StrLess`).
- `Seqs` (`seqs.dfy`): `Filter`, the model of a boolean-mask selection
  `df[mask]`. Its contract says the result is an order-preserving
  subsequence with the right multiplicities, and `FilterUnique` proves that
  this contract pins the result down.
- `Events` (`events.dfy`): calendar dates, loaded events, and rows with the
  derived columns. `Row` is a subset type, so `Year` and `Month` always
  agree with the row's own date.
- `Filters` (`filters.dfy`): the year and department option lists and the
  two filters.
- `Aggregates` (`aggregates.dfy`): the headline counts, the status
  distribution and the monthly matrix.
- `Dashboard` (`dashboard.dfy`): one whole run for a pair of selections.
- `Scenario` (`scenario.dfy`): a worked three-row example.

Two behaviours of the code are easy to miss, and the model keeps both:

- An empty department selection gives an **empty** table, because the
  code runs `isin([])` whenever "All" is not among the choices.
- The monthly matrix has rows only for the months present in the filtered
  rows: `groupby` never invents a month.

## Model

| member | source | states |
|---|---|---|
| Events.Decompose | hr_dashboard.py:17-18 | every row keeps its position and loaded fields, gains the calendar year of its date and a month number in 1..12 |
| Events.StripDecompose | hr_dashboard.py:17-18 | dropping the derived columns gives back exactly the loaded table |
| Events.DecomposeStrip | hr_dashboard.py:17-18 | the derived columns add nothing beyond the date, so recomputing them changes nothing |
| Events.LeapDay | hr_dashboard.py:17-18 | February 29 is a date, and so gets month 2, exactly in leap years; January 1 and December 31 are dates in every year |
| Orders.SortedDistinct | hr_dashboard.py:27 | `sorted(unique(...))` gives a strictly sorted list holding each value of the column and nothing else |
| Orders.SortedUnique | hr_dashboard.py:27 | two strictly sorted lists with the same values are equal, so an option list depends only on the set of values present |
| Orders.StrLessIsStrictTotal | hr_dashboard.py:38 | Python's string order, used to sort departments, is a strict total order |
| Filters.YearOptions | hr_dashboard.py:27-28 | "All" comes first, then every year present exactly once in strictly descending order; a year is offered iff some row has it |
| Filters.FilterByYear | hr_dashboard.py:31-35 | "All" returns the table unchanged; a year returns exactly the rows of that year, as an order-preserving subsequence no longer than the input |
| Filters.DepartmentOptions | hr_dashboard.py:38-39 | "All" comes first, then the departments of the year-filtered table, once each, in strictly ascending string order; a department is offered iff a year-filtered row has it |
| Filters.FilterByDepartment | hr_dashboard.py:42-46 | if "All" is chosen the table is unchanged; otherwise exactly the rows whose department was chosen remain, in order; choosing nothing gives an empty table |
| Filters.FilterOrderIrrelevant | hr_dashboard.py:31-46 | running the department filter before the year filter selects the same rows |
| Filters.OfferedDepartmentsOfYear | hr_dashboard.py:34-39 | with a year chosen, a department is offered iff some row of that year carries it |
| Seqs.Filter | hr_dashboard.py:35 | a mask selection is an order-preserving subsequence; it keeps every occurrence of a matching row and no other row, and it is the identity when every row matches |
| Seqs.FilterUnique | hr_dashboard.py:35 | any order-preserving subsequence with the multiplicities `Filter` promises is `Filter`'s result |
| Seqs.FilterCommutes | hr_dashboard.py:35-46 | two mask selections applied in either order give the same rows |
| Aggregates.StatusCount | hr_dashboard.py:49 | the number of rows the mask `Status == s` selects is the number of occurrences of `s` in the `Status` column |
| Aggregates.Kpis | hr_dashboard.py:49-51 | each headline count is the number of rows with exactly that status; the three together never exceed the number of rows |
| Aggregates.Bump | hr_dashboard.py:62 | counting one more row raises that status's count by one, adds the status if it was new, leaves every other count alone and raises the total by one |
| Aggregates.ValueCounts | hr_dashboard.py:62 | lists each status present exactly once and no absent one; each count is that status's number of rows and at least 1; the counts sum to the number of rows |
| Aggregates.KpisAgreeWithDistribution | hr_dashboard.py:49-62 | the headline counts are the distribution's counts for their three statuses (0 when absent) |
| Aggregates.MonthAxis | hr_dashboard.py:77 | the matrix rows are the months present, once each, ascending, each between 1 and 12 |
| Aggregates.StatusAxis | hr_dashboard.py:77 | the matrix columns are the statuses present, once each, in ascending string order |
| Aggregates.CountGroups | hr_dashboard.py:77 | every cell holds the number of rows with its (month, status), which is 0 where none exist; all cells sum to the number of rows |
| Aggregates.MonthlyBreakdown | hr_dashboard.py:77 | the zero-filled month-by-status matrix: axes are the months and statuses present, in sorted order; cells are the group sizes; the grand total is the number of rows |
| Dashboard.Options | hr_dashboard.py:27-39 | the year box offers "All" and then every year of the loaded events, once each, newest first; the department box offers "All" and then, in ascending string order, exactly the departments of the rows the year selection keeps |
| Dashboard.Select | hr_dashboard.py:31-46 | the table after both filters holds exactly the rows matching both selections, each as often as loaded, in load order |
| Dashboard.Summarise | hr_dashboard.py:49-77 | the headline counts are exact status counts of the table; the distribution lists each status present once with its positive count; the matrix axes are the months and statuses present, sorted, and each cell is its group size; distribution and matrix both add up to the number of rows |
| Dashboard.Render | hr_dashboard.py:17-86 | one run: the table passed to the raw data view is exactly the selected rows in load order, and the option lists, headline counts, distribution and matrix carry every guarantee of `Options` and `Summarise` for that table |
| Dashboard.SelectionIsExact | hr_dashboard.py:31-46 | the two filters together keep exactly the rows matching both selections, as a subsequence of the whole table |
| Seqs.SubseqTransitive | hr_dashboard.py:35-46 | filtering an already filtered table still gives a subsequence of the original |
| Dashboard.YearsOfEvents | hr_dashboard.py:17-27 | the years in the derived `Year` column are exactly the calendar years of the loaded dates |
| Dashboard.OfferedDepartments | hr_dashboard.py:31-39 | for either year selection, a department is offered iff a row kept by the year filter carries it |
| Scenario.SampleYearOptions | hr_dashboard.py:27-28 | for events in 2023, 2023 and 2022 the year box offers "All", 2023, 2022 |
| Scenario.SampleYearFilter | hr_dashboard.py:31-35 | choosing 2023 keeps the two 2023 rows |
| Scenario.SampleDepartmentOptions | hr_dashboard.py:38-39 | with 2023 chosen, the department box offers "All", "HR", "Sales" |
| Scenario.SampleKpis | hr_dashboard.py:43-51 | choosing "All" keeps those rows, whose headline counts are 1, 1 and 0 |
| Scenario.SampleBreakdown | hr_dashboard.py:77 | for those two rows the matrix has months 1 and 2, columns "Onboarded" and "Recruited", and cells [[0, 1], [1, 0]] |

## Left out

- Loading the CSV file and parsing its `Date` strings (hr_dashboard.py:9-14) are I/O and library calls. Rows enter the model as already-parsed dates. A date that fails to parse, which stops the script, is not modelled. The `@st.cache_data` memoisation is left out too.
- Aggregates.MonthlyBreakdown: the model has no missing dates, because every row carries a calendar date. An empty `Date` cell is read as NaT (hr_dashboard.py:11) and does not stop the script; its `Year` and `Month` become NaN (hr_dashboard.py:17-18). Under "All", such a row passes both filters and is counted by the headline counts (49-51) and the distribution (62). `groupby` (77) drops it, though, so in the script the matrix total can be smaller than the row count. The contract's `GrandTotal(b.cells) == |t|` holds only for tables without missing dates.
- Page configuration, titles, the sidebar widgets and the metric display (hr_dashboard.py:6, 21-24, 29, 40, 53-56, 59, 74, 85-86) are presentation. The model takes the widgets' selections as parameters. It accepts any year and any list of departments, including values the widgets would never return.
- The pie and bar charts (hr_dashboard.py:61, 63-71, 76, 78-82) are left out: the percentage labels are floating point, and the colours and layout are presentation. Their inputs, the distribution and the matrix, are modelled.
- Dashboard.Render: the failure of the bar chart on an empty table is not modelled. With no rows selected, the matrix has no columns and the plotting call (hr_dashboard.py:78) fails for want of numeric data, so the script stops before the raw data view (86). The model still returns the empty table and the empty summaries. Its `table` is the one the script would pass to the raw data view, not a claim that the page displays it.
- Aggregates.ValueCounts: the order of the entries is not part of the contract. `value_counts` lists statuses by descending count with ties in no promised order. The model lists them in order of first appearance. That order only affects the pie's slice order and colours.
- Events.Decompose: pandas timestamps only cover the years 1677 to 2262. The model allows any proleptic Gregorian date.
- Missing values (NaN) in `Department` or `Status` are not modelled. Both columns are strings here.
