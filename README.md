# GanttPrototype activity table and chart layout, in Dafny

This project models the core of AppGantt, `GanttPrototype` in `gantt_prototype.py`. The class
keeps an ordered table of project activities. Each row has an ID, a name, a start date, an end
date, a reference person and a status. The table supports:

- adding a row under a generated ID;
- updating a row's fields by keyword;
- deleting rows by ID;
- listing the distinct persons;
- selecting one person's rows.

From the table, `generate_gantt` lays out a Gantt chart. The model covers that computation. It
filters by person, sorts by start date, and gives each activity a bar with a width in days, a
status colour and a person label one day past its end. It also computes the x-axis limits.

Files and modules:

- `wrappers.dfy` (`Wrappers`): `Option`, which stands for Python's `None`.
- `seqs.dfy` (`Seqs`): selection with a boolean mask (`Filter`) and first-seen
  de-duplication (`Distinct`), with their lemmas.
- `activities.dfy` (`Activities`): the row type and the six column names, ID generation,
  update, delete and the person queries. Each is a pure function of the rows, with lemmas
  about it.
- `layout.dfy` (`Layout`): the pure chart layout. It covers the filter, the status-colour
  table, the sort, the bars and the axis limits.
- `gantt.dfy` (`Gantt`): class `GanttPrototype`, whose field `rows` is the data frame. The
  methods `AddActivity`, `UpdateActivity` and `DeleteActivity` change `rows`.
  `UpdateActivity` loops over the supplied fields as the source does. `GenerateGantt` builds
  the bars in a loop over the sorted rows.
- `scenario.dfy` (`Scenario`): a verified client that uses the first two activities of the
  usage example (gantt_prototype.py:232-233), plus worked examples.

Modelling choices:

- Dates are integer day ordinals, so a bar's width in days is `end - start`.
- Statuses are strings. This keeps the path where an unknown status gets the default colour.
- The keyword arguments of `update_activity` are a sequence of `FieldUpdate(key, value)`,
  applied in order.
- A filter of `None` or `Some("")` means "no filter". This follows Python's truthiness test
  `if filter_person:`.

Behaviours of the code that the model keeps:

- **IDs can be reused.** `add_activity` assigns the largest live ID + 1, and 1 for an empty
  table (gantt_prototype.py:52-55). So deleting the largest ID and then adding gives an ID no
  larger than the deleted one (`DeleteMaxThenAddReusesId`). When the IDs are 1 to n it is the
  deleted ID itself (`DeletedIdTwoIsReused` shows this for 1 and 2); with IDs 1 and 3, deleting
  3 and adding gives 2 (`DeletedIdThreeIsNotReused`).
- **Updates can change IDs.** `'ID'` is one of the columns (gantt_prototype.py:31), and
  `update_activity` writes any key that is a column (gantt_prototype.py:90-91). So an update
  can rewrite a row's ID. Add and delete keep IDs unique, but update does not in general
  (`UpdateCanDuplicateIds`).
- **An ID change stops later fields.** The update loop re-evaluates `df['ID'] == id` for each
  field (gantt_prototype.py:91). Once a field has moved the row to another ID, the later
  fields no longer reach it (`MovedRowUntouched`).
- **Dates are not checked on add.** `add_activity` does not check that the end comes after the
  start. Only the UI shell checks this (app.py:68). `AddActivity` therefore has no such
  precondition.

## Model

| member | source | states |
|---|---|---|
| `Gantt.GanttPrototype.constructor` | gantt_prototype.py:28-32 | a new table has no rows |
| `Gantt.GanttPrototype.AddActivity` | gantt_prototype.py:51-68 | returns the generated ID, which exceeds every existing ID; appends exactly one row with the given fields after the unchanged earlier rows; keeps IDs unique |
| `Activities.NextId` | gantt_prototype.py:52-55 | the new ID is 1 for an empty table; otherwise it is the least integer above every existing ID, one more than an ID present |
| `Activities.MaxId` | gantt_prototype.py:55 | bounds every ID of a non-empty table and is one of them |
| `Activities.AddKeepsIdsUnique` | gantt_prototype.py:52-67 | appending a row under the generated ID keeps IDs unique; the new ID is not present before |
| `Gantt.GanttPrototype.UpdateActivity` | gantt_prototype.py:78-95 | returns false and leaves the table unchanged for an absent ID; otherwise returns true, applies the fields in order, keeps the row count and leaves every row with another ID unchanged |
| `Activities.SetCell` | gantt_prototype.py:91 | the named cell takes the new value and every other column keeps its value |
| `Activities.SetWhere` | gantt_prototype.py:91 | keeps the row count; rows with another ID are unchanged; in each row with that ID the named column takes the value and the other columns keep theirs |
| `Activities.ApplyUpdates` | gantt_prototype.py:89-93 | applying the fields keeps the row count, and rows whose ID differs from the target are untouched |
| `Activities.UpdateSetsLastValues` | gantt_prototype.py:89-93 | when no field rewrites the ID, a target row keeps its ID, and each column holds the last value supplied for it, or its old value when none is supplied |
| `Activities.MovedRowUntouched` | gantt_prototype.py:89-91 | once the fields applied so far have moved a row to another ID, further fields leave that row as it is |
| `Activities.UpdateSkipsUnknownKeys` | gantt_prototype.py:90-93 | updating with all fields gives the same table as updating with only the recognised columns |
| `Activities.UpdateCanDuplicateIds` | gantt_prototype.py:31 | setting `ID` through an update can leave two rows with the same ID |
| `Gantt.GanttPrototype.DeleteActivity` | gantt_prototype.py:104-109 | returns false and leaves the table unchanged for an absent ID; otherwise returns true and keeps exactly the rows with other IDs, in order; keeps IDs unique and, when IDs are unique, removes one row |
| `Activities.WithoutId` | gantt_prototype.py:108 | the result holds exactly the rows with another ID, each as often as in the table |
| `Activities.DeleteKeepsOrder` | gantt_prototype.py:108 | deleting distributes over concatenation, so surviving rows keep their relative order |
| `Activities.DeleteKeepsIdsUnique` | gantt_prototype.py:108 | deleting from a table with unique IDs keeps IDs unique |
| `Activities.DeleteRemovesOneRow` | gantt_prototype.py:104-108 | with unique IDs, deleting a present ID shortens the table by exactly one row |
| `Activities.DeleteAbsentKeepsRows` | gantt_prototype.py:104-108 | selecting away an ID that no row has returns the rows unchanged |
| `Activities.DeleteMaxThenAddReusesId` | gantt_prototype.py:52-55 | with positive IDs, deleting the largest ID and then adding gives an ID no larger than the deleted one |
| `Activities.DeletedIdTwoIsReused` | gantt_prototype.py:52-55 | with IDs 1 and 2, the next ID is 3, and after deleting 2 the next ID is 2 again |
| `Activities.DeletedIdThreeIsNotReused` | gantt_prototype.py:52-55 | with IDs 1 and 3, the next ID is 4, and after deleting 3 the next ID is 2 |
| `Activities.ActivitiesByPerson` | gantt_prototype.py:221-223 | the result holds exactly the rows of that person, each as often as in the table |
| `Activities.ByPersonKeepsOrder` | gantt_prototype.py:223 | the person's rows come in table order: selection distributes over concatenation |
| `Activities.UniquePersons` | gantt_prototype.py:217-219 | no person is listed twice, and a person is listed iff some row has that person |
| `Activities.UniquePersonsFirstSeenOrder` | gantt_prototype.py:219 | persons are listed in the order of their first row |
| `Seqs.Filter` | gantt_prototype.py:137 | a boolean-mask selection holds exactly the accepted elements and is no longer than the input |
| `Seqs.FilterMultiset` | gantt_prototype.py:137 | a selection keeps each accepted element as often as it occurs and drops the rest |
| `Seqs.FilterConcat` | gantt_prototype.py:137 | a selection keeps relative order |
| `Seqs.Distinct` | gantt_prototype.py:219 | no duplicates, and the same elements as the input |
| `Seqs.DistinctFirstSeenOrder` | gantt_prototype.py:219 | the distinct elements appear in order of their first occurrence |
| `Layout.Selected` | gantt_prototype.py:136-141 | with a non-empty person filter, exactly the rows of that person; with no filter or an empty one, all rows; each kept row as often as in the table |
| `Layout.Title` | gantt_prototype.py:191 | the title is the plain prefix iff no person filter is active; otherwise the prefix followed by " - " and the person |
| `Layout.StatusColorTable` | gantt_prototype.py:160-177 | the table has exactly the five statuses; each gets its listed colour, and any other status gets light grey |
| `Layout.InsertByStart` | gantt_prototype.py:149 | inserting into a start-sorted sequence keeps it sorted and adds exactly that row |
| `Layout.SortByStart` | gantt_prototype.py:149 | the result is sorted by start date and is a permutation of the input |
| `Layout.MinStart` | gantt_prototype.py:202 | is at most every start date and equals one of them |
| `Layout.MaxEnd` | gantt_prototype.py:203 | is at least every end date and equals one of them |
| `Layout.Bars` | gantt_prototype.py:169-188 | one bar per row: it starts at the start date, ends at the end date, has the status colour, and carries the person one day past the end |
| `Layout.LayOutBars` | gantt_prototype.py:169-188 | the loop over the sorted rows yields exactly one bar per row, in order |
| `Layout.ChartOf` | gantt_prototype.py:169-204 | the bars draw the rows one for one; the x-axis starts three days before the earliest start and ends fifteen days after the latest end |
| `Layout.GanttLayout` | gantt_prototype.py:136-204 | no chart iff no row passes the filter; otherwise the rows that pass, sorted by start date (a permutation), drawn one bar each, with the axis limits above and the title suffix of the filter |
| `Layout.XRangeOfSelected` | gantt_prototype.py:201-204 | the axis limits are the earliest start among the rows that pass minus 3 and their latest end plus 15, whatever the order |
| `Layout.ChartContainsBars` | gantt_prototype.py:180-204 | every bar starts right of the x-axis minimum and its end and label lie left of the maximum; when no row ends before it starts, the end and label also lie right of the minimum; bars go left to right by start |
| `Gantt.GanttPrototype.GenerateGantt` | gantt_prototype.py:127-215 | returns the output path iff some row passes the filter; the chart built bar by bar in its loop is the layout above |
| `Scenario.TwoActivities` | gantt_prototype.py:232-233 | adding two activities to a new table gives IDs 1 and 2 and exactly those two rows, in order |
| `Scenario.FirstSeenPersons` | gantt_prototype.py:232-233 | Marco's row and then Laura's row list the persons as Marco, then Laura |
| `Scenario.MarcoChart` | gantt_prototype.py:245 | on the table of the first two example activities (lines 232-233), the chart filtered on Marco has his one bar: 14 days wide, light blue, labelled Marco, on an axis from 28 April to 30 May 2024 |
| `Scenario.FullChartRange` | gantt_prototype.py:241-242 | activities spanning 1 May to 15 June 2024 give an x-axis from 28 April to 30 June |

## Left out

- Loading the table from an Excel file in the constructor (gantt_prototype.py:20-24) and
  `save_to_excel` (gantt_prototype.py:111-125). These are file I/O through pandas and openpyxl.
  The model always starts from the empty table of `initialize_dataframe`.
- Parsing date strings with `pd.to_datetime` (gantt_prototype.py:46-49, 83-86). This is a
  foreign library call. Dates arrive as day ordinals.
- Everything matplotlib draws in `generate_gantt`, including the legend. This covers the
  figure, the week-tick locator, the `%d/%m/%Y` formatter, the axis labels, the grid,
  `savefig` and the printed messages. The legend's entries are the pairs of the
  `StatusColors` table.
- The messages printed by the table operations. These are the error for an unknown ID in
  `update_activity` and `delete_activity` (gantt_prototype.py:79, 105), and the warning for
  each key that is not a column (gantt_prototype.py:93). The model keeps only the boolean
  result and the skipping of such keys.
- Gantt.GanttPrototype.UpdateActivity: requires each recognised column to receive a value of
  its own kind: a number for `ID` and the two dates, text for the others. This is because rows
  are typed. Python would store a value of any type in the cell.
- Layout.SortByStart: is stable, whereas pandas' default `sort_values` (quicksort) is not. The
  contract states only "sorted and a permutation", so tie order is left open as in the source.
- Numbers are unbounded integers. pandas' 64-bit IDs and its date range limits are not
  modelled.
- app.py, the Streamlit UI shell (forms, session state, download buttons). Its check that
  name and person are present and that the end date comes after the start (app.py:62-75) is
  not part of `add_activity`, and is not a precondition here.
