/**
 * `GanttPrototype`: the activity table as an object whose one piece of state,
 * the ordered rows, is replaced by add and delete and overwritten cell by cell
 * by update; and `generate_gantt`, which reads the rows and lays out the chart.
 */
module Gantt {
  import opened Wrappers
  import opened Activities
  import opened Layout

  class GanttPrototype {
    /** The table's rows, in order (the data frame `self.df`). */
    var rows: seq<Activity>

    /** A table with the six columns and no rows. */
    constructor ()
      ensures rows == []
    {
      rows := [];
    }

    /**
     * Appends a row with a fresh ID and returns that ID: 1 for an empty table,
     * otherwise one more than the largest ID present. The dates are not checked
     * against each other.
     */
    method AddActivity(name: string, start: int, end: int, person: string, status: string := DefaultStatus)
      returns (newId: int)
      modifies this
      ensures newId == NextId(old(rows))
      ensures forall k :: 0 <= k < |old(rows)| ==> old(rows)[k].id < newId
      ensures rows == old(rows) + [Activity(newId, name, start, end, person, status)]
      ensures old(UniqueIds(rows)) ==> UniqueIds(rows)
    {
      if |rows| == 0 {
        newId := 1;
      } else {
        newId := MaxId(rows) + 1;
      }
      var row := Activity(newId, name, start, end, person, status);
      if UniqueIds(rows) {
        AddKeepsIdsUnique(rows, row);
      }
      rows := rows + [row];
    }

    /**
     * Overwrites, field by field, the cells of the rows whose ID is `id`;
     * fields that are not columns are skipped. Returns false, changing
     * nothing, when no row has that ID.
     */
    method UpdateActivity(id: int, fields: seq<FieldUpdate>) returns (found: bool)
      requires AllWellKinded(fields)
      modifies this
      ensures found == HasId(old(rows), id)
      ensures !found ==> rows == old(rows)
      ensures found ==> rows == ApplyUpdates(old(rows), id, fields)
      ensures |rows| == |old(rows)|
      ensures forall k :: 0 <= k < |rows| && old(rows)[k].id != id ==> rows[k] == old(rows)[k]
    {
      found := HasId(rows, id);
      if !found {
        return;
      }
      var i := 0;
      while i < |fields|
        invariant 0 <= i <= |fields|
        invariant AllWellKinded(fields[..i])
        invariant rows == ApplyUpdates(old(rows), id, fields[..i])
      {
        var u := fields[i];
        assert u in fields;
        assert fields[..i + 1][..i] == fields[..i];
        if IsColumn(u.key) {
          rows := SetWhere(rows, id, u);
        }
        i := i + 1;
      }
      assert fields[..i] == fields;
    }

    /**
     * Removes every row whose ID is `id`, keeping the others in order.
     * Returns false, changing nothing, when no row has that ID.
     */
    method DeleteActivity(id: int) returns (found: bool)
      modifies this
      ensures found == HasId(old(rows), id)
      ensures !found ==> rows == old(rows)
      ensures found ==> rows == WithoutId(old(rows), id)
      ensures forall a :: a in rows <==> a in old(rows) && a.id != id
      ensures old(UniqueIds(rows)) ==> UniqueIds(rows)
      ensures old(UniqueIds(rows)) && found ==> |rows| == |old(rows)| - 1
    {
      found := HasId(rows, id);
      if !found {
        return;
      }
      if UniqueIds(rows) {
        DeleteKeepsIdsUnique(rows, id);
        DeleteRemovesOneRow(rows, id);
      }
      rows := WithoutId(rows, id);
    }

    /**
     * The chart `generate_gantt` would save at `outputFile`: `None` for both
     * results when no row passes the filter, otherwise the path and the layout
     * built bar by bar over the rows sorted by start date.
     */
    method GenerateGantt(outputFile: string, filterPerson: Option<string> := None)
      returns (saved: Option<string>, chart: Option<Chart>)
      ensures chart == GanttLayout(rows, filterPerson)
      ensures saved.Some? <==> exists a :: a in rows && Passes(filterPerson, a)
      ensures saved.Some? ==> saved.value == outputFile
    {
      var selected := Selected(rows, filterPerson);
      if |selected| == 0 {
        return None, None;
      }
      assert selected[0] in rows;
      var order := SortByStart(selected);
      var bars := LayOutBars(order);
      LayoutOfSelected(rows, filterPerson);
      var c := Chart(Title(filterPerson), order, bars, MinStart(order) - LeftMargin, MaxEnd(order) + RightMargin);
      assert c == ChartOf(Title(filterPerson), order);
      chart := Some(c);
      saved := Some(outputFile);
    }
  }
}
