/**
 * A client of `GanttPrototype` built from the first two activities of the
 * repository's usage example (Marco's and Laura's): the person queries, the
 * chart filtered on Marco, and an update and a delete of an absent ID, plus the
 * x-axis range of the unfiltered chart over the example's dates. Dates are days
 * since 1970-01-01 (19844 is 1 May 2024).
 */
module Scenario {
  import opened Wrappers
  import opened Seqs
  import opened Activities
  import opened Layout
  import opened Gantt

  const Frontend := Activity(1, "Sviluppo frontend", 19844, 19858, "Marco", "In corso")
  const Backend := Activity(2, "Sviluppo backend", 19853, 19873, "Laura", "Non iniziato")

  /** Adding two activities to a new table gives them IDs 1 and 2, in order. */
  method TwoActivities() returns (gantt: GanttPrototype)
    ensures fresh(gantt) && gantt.rows == [Frontend, Backend]
  {
    gantt := new GanttPrototype();
    var frontend := gantt.AddActivity("Sviluppo frontend", 19844, 19858, "Marco", "In corso");
    assert frontend == 1;
    var backend := gantt.AddActivity("Sviluppo backend", 19853, 19873, "Laura", "Non iniziato");
    assert backend == 2 by {
      assert MaxId(gantt.rows[..1]) == 1;
    }
  }

  /** Persons Marco then Laura; Marco's chart has his one 14-day, light-blue bar. */
  method ChartForMarco()
  {
    var gantt := TwoActivities();
    FirstSeenPersons(gantt.rows);
    var saved, chart := gantt.GenerateGantt("gantt_Marco.png", Some("Marco"));
    MarcoChart(gantt.rows);
    assert saved == Some("gantt_Marco.png");
    assert chart.value.bars == [Bar("Sviluppo frontend", 19844, 14, "lightblue", 19859, "Marco")];
  }

  /** Updating or deleting an ID that is not there reports false and keeps both rows. */
  method UnknownId()
  {
    var gantt := TwoActivities();
    var updated := gantt.UpdateActivity(7, [FieldUpdate(StatusColumn, Text("Completato"))]);
    assert !updated && gantt.rows == [Frontend, Backend];
    var deleted := gantt.DeleteActivity(7);
    assert !deleted && gantt.rows == [Frontend, Backend];
  }

  /** Marco's row before Laura's: the person list is Marco, then Laura. */
  lemma FirstSeenPersons(rows: seq<Activity>)
    requires |rows| == 2 && rows[0].person == "Marco" && rows[1].person == "Laura"
    ensures UniquePersons(rows) == ["Marco", "Laura"]
  {
    var ps := Persons(rows);
    assert ps == ["Marco", "Laura"];
    assert ps[..1] == ["Marco"] && ps[..1][..0] == [];
    assert Distinct(ps[..1]) == ["Marco"];
    assert "Laura" != "Marco";
  }

  /** Filtered on Marco, the chart has his one bar, 14 days wide, light blue, from 28 April to 30 May 2024. */
  lemma MarcoChart(rows: seq<Activity>)
    requires |rows| == 2 && rows[0] == Frontend
    requires rows[1].person == "Laura"
    ensures GanttLayout(rows, Some("Marco")).Some?
    ensures var c := GanttLayout(rows, Some("Marco")).value;
      c.order == [rows[0]] && c.bars == [Bar("Sviluppo frontend", 19844, 14, "lightblue", 19859, "Marco")] &&
      c.xMin == 19841 && c.xMax == 19873
  {
    var marco := Some("Marco");
    MarcoSelected(rows);
    assert SortByStart([rows[0]]) == [rows[0]];
    LayoutOfSelected(rows, marco);
    assert Bars([rows[0]]) == [BarFor(rows[0])];
    StatusColorTable("In corso");
  }

  /** Only the first of the two rows is Marco's. */
  lemma MarcoSelected(rows: seq<Activity>)
    requires |rows| == 2 && rows[0].person == "Marco" && rows[1].person == "Laura"
    ensures Selected(rows, Some("Marco")) == [rows[0]]
  {
    assert "Laura" != "Marco";
    assert rows[1..][1..] == [];
  }

  /**
   * Activities spanning 1 May to 15 June 2024 (as the repository's five
   * examples do) give an x-axis from 28 April to 30 June.
   */
  lemma FullChartRange(rows: seq<Activity>, first: nat, last: nat)
    requires first < |rows| && last < |rows|
    requires rows[first].start == 19844 && rows[last].end == 19889
    requires forall i :: 0 <= i < |rows| ==> 19844 <= rows[i].start && rows[i].end <= 19889
    ensures GanttLayout(rows, None).Some?
    ensures GanttLayout(rows, None).value.xMin == 19841 && GanttLayout(rows, None).value.xMax == 19904
  {
    assert rows[0] in rows && Passes(None, rows[0]);
    XRangeOfSelected(rows, None);
    assert Selected(rows, None) == rows;
    SpanOfRows(rows, first, last);
  }

  lemma SpanOfRows(rows: seq<Activity>, first: nat, last: nat)
    requires first < |rows| && last < |rows|
    requires rows[first].start == 19844 && rows[last].end == 19889
    requires forall i :: 0 <= i < |rows| ==> 19844 <= rows[i].start && rows[i].end <= 19889
    ensures MinStart(rows) == 19844 && MaxEnd(rows) == 19889
  {
    assert MinStart(rows) <= rows[first].start;
    assert rows[last].end <= MaxEnd(rows);
  }
}
