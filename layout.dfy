/**
 * The layout `generate_gantt` computes before drawing: the person filter, the
 * "nothing to render" case, the order by start date, one bar per activity with
 * its width, colour and person label, and the x-axis limits.
 */
module Layout {
  import opened Wrappers
  import opened Activities

  /** The status-to-colour table (`colori_stati`). */
  const StatusColors: map<string, string> := map[
    "Non iniziato" := "lightgrey",
    "In corso" := "lightblue",
    "Completato" := "lightgreen",
    "In ritardo" := "salmon",
    "In pausa" := "yellow"
  ]

  /** The colour of a status the table does not list. */
  const DefaultColor := "lightgrey"

  /** Days of margin before the earliest start and after the latest end. */
  const LeftMargin := 3
  const RightMargin := 15

  /** The label sits this many days past the bar's end. */
  const LabelOffset := 1

  const TitlePrefix := "Diagramma di Gantt"

  /** `colori_stati.get(status, 'lightgrey')`. */
  function StatusColor(status: string): string
  {
    if status in StatusColors then StatusColors[status] else DefaultColor
  }

  /** The five listed statuses get their own colours; every other status is light grey. */
  lemma StatusColorTable(status: string)
    ensures StatusColors.Keys == {"Non iniziato", "In corso", "Completato", "In ritardo", "In pausa"}
    ensures StatusColor("Non iniziato") == "lightgrey"
    ensures StatusColor("In corso") == "lightblue"
    ensures StatusColor("Completato") == "lightgreen"
    ensures StatusColor("In ritardo") == "salmon"
    ensures StatusColor("In pausa") == "yellow"
    ensures status !in StatusColors ==> StatusColor(status) == "lightgrey"
  {
  }

  // ---------------------------------------------------------------- filter

  /** `if filter_person:` — both `None` and the empty string mean "no filter". */
  predicate FilterActive(filterPerson: Option<string>)
  {
    filterPerson.Some? && filterPerson.value != ""
  }

  predicate Passes(filterPerson: Option<string>, a: Activity)
  {
    FilterActive(filterPerson) ==> a.person == filterPerson.value
  }

  /** The rows the chart is drawn from. */
  function Selected(rows: seq<Activity>, filterPerson: Option<string>): (r: seq<Activity>)
    ensures forall a :: a in r <==> a in rows && Passes(filterPerson, a)
    ensures forall a :: multiset(r)[a] == if Passes(filterPerson, a) then multiset(rows)[a] else 0
  {
    if FilterActive(filterPerson) then ActivitiesByPerson(rows, filterPerson.value) else rows
  }

  // ---------------------------------------------------------------- order

  predicate SortedByStart(s: seq<Activity>)
  {
    forall i, j :: 0 <= i < j < |s| ==> s[i].start <= s[j].start
  }

  /** A row no later than every row of a sorted sequence can go in front of it. */
  lemma SortedCons(a: Activity, s: seq<Activity>)
    requires SortedByStart(s)
    requires forall b :: b in s ==> a.start <= b.start
    ensures SortedByStart([a] + s)
  {
    var r := [a] + s;
    forall i, j | 0 <= i < j < |r| ensures r[i].start <= r[j].start {
      assert r[j] == s[j - 1] && r[j] in s;
      if i > 0 {
        assert r[i] == s[i - 1];
      }
    }
  }

  /** The head of a sorted sequence starts no later than any of its rows. */
  lemma SortedHeadFirst(s: seq<Activity>)
    requires SortedByStart(s) && s != []
    ensures forall b :: b in s ==> s[0].start <= b.start
  {
    forall b | b in s ensures s[0].start <= b.start {
      var k :| 0 <= k < |s| && s[k] == b;
    }
  }

  function InsertByStart(a: Activity, s: seq<Activity>): (r: seq<Activity>)
    requires SortedByStart(s)
    ensures SortedByStart(r)
    ensures forall b :: b in r <==> b == a || b in s
    ensures multiset(r) == multiset(s) + multiset{a}
  {
    if s == [] || a.start <= s[0].start then
      assert SortedByStart([a] + s) by {
        if s != [] {
          SortedHeadFirst(s);
        }
        SortedCons(a, s);
      }
      [a] + s
    else
      var rest := InsertByStart(a, s[1..]);
      assert s == [s[0]] + s[1..];
      assert SortedByStart([s[0]] + rest) by {
        SortedHeadFirst(s);
        SortedCons(s[0], rest);
      }
      [s[0]] + rest
  }

  /** `sort_values('Data_Inizio')`: the same rows, ascending by start date. */
  function SortByStart(s: seq<Activity>): (r: seq<Activity>)
    ensures SortedByStart(r)
    ensures forall b :: b in r <==> b in s
    ensures multiset(r) == multiset(s)
  {
    if s == [] then []
    else
      assert s == [s[0]] + s[1..];
      InsertByStart(s[0], SortByStart(s[1..]))
  }

  // ---------------------------------------------------------------- axis limits

  function MinStart(s: seq<Activity>): (m: int)
    requires s != []
    ensures forall i :: 0 <= i < |s| ==> m <= s[i].start
    ensures exists i :: 0 <= i < |s| && s[i].start == m
  {
    if |s| == 1 then s[0].start
    else
      var rest := MinStart(s[1..]);
      if s[0].start <= rest then s[0].start else rest
  }

  function MaxEnd(s: seq<Activity>): (m: int)
    requires s != []
    ensures forall i :: 0 <= i < |s| ==> s[i].end <= m
    ensures exists i :: 0 <= i < |s| && s[i].end == m
  {
    if |s| == 1 then s[0].end
    else
      var rest := MaxEnd(s[1..]);
      if s[0].end >= rest then s[0].end else rest
  }

  /** Two sequences holding the same rows have the same earliest start and latest end. */
  lemma SameRowsSameExtent(s: seq<Activity>, t: seq<Activity>)
    requires s != [] && t != []
    requires forall b :: b in s <==> b in t
    ensures MinStart(s) == MinStart(t) && MaxEnd(s) == MaxEnd(t)
  {
    var i :| 0 <= i < |s| && s[i].start == MinStart(s);
    assert s[i] in t;
    var j :| 0 <= j < |t| && t[j].start == MinStart(t);
    assert t[j] in s;
    var i' :| 0 <= i' < |s| && s[i'].end == MaxEnd(s);
    assert s[i'] in t;
    var j' :| 0 <= j' < |t| && t[j'].end == MaxEnd(t);
    assert t[j'] in s;
  }

  // ---------------------------------------------------------------- chart

  /** One horizontal bar: its row label, left edge, width in days, fill, and the person label's position and text. */
  datatype Bar = Bar(task: string, left: int, width: int, color: string, labelX: int, labelText: string)

  /** The computed chart: title, rows in drawing order, one bar per row, and the x-axis limits. */
  datatype Chart = Chart(title: string, order: seq<Activity>, bars: seq<Bar>, xMin: int, xMax: int)

  function BarFor(a: Activity): Bar
  {
    Bar(a.name, a.start, a.end - a.start, StatusColor(a.status), a.end + LabelOffset, a.person)
  }

  /** Bar `b` spans activity `a`'s dates, has its status colour, and carries its person one day past the end. */
  predicate Draws(b: Bar, a: Activity)
  {
    b.task == a.name && b.left == a.start && b.left + b.width == a.end &&
    b.color == StatusColor(a.status) && b.labelX == b.left + b.width + 1 && b.labelText == a.person
  }

  /** The chart title: the plain prefix without a filter, otherwise the prefix, " - " and the person. */
  function Title(filterPerson: Option<string>): (t: string)
    ensures |TitlePrefix| <= |t| && t[..|TitlePrefix|] == TitlePrefix
    ensures t == TitlePrefix <==> !FilterActive(filterPerson)
    ensures FilterActive(filterPerson) ==> t[|TitlePrefix|..] == " - " + filterPerson.value
  {
    if FilterActive(filterPerson) then TitlePrefix + " - " + filterPerson.value else TitlePrefix
  }

  /**
   * The chart `generate_gantt(output_file, filter_person)` draws, or `None`
   * when no row passes the filter. The rows are the filtered rows sorted by
   * start date, each drawn by its bar; the x-axis runs from three days before
   * the earliest start to fifteen days after the latest end.
   */
  function GanttLayout(rows: seq<Activity>, filterPerson: Option<string>): (r: Option<Chart>)
    ensures r.None? <==> forall a :: a in rows ==> !Passes(filterPerson, a)
    ensures r.Some? ==>
      SortedByStart(r.value.order) && multiset(r.value.order) == multiset(Selected(rows, filterPerson)) &&
      r.value.title == Title(filterPerson) && WellPlaced(r.value)
  {
    var selected := Selected(rows, filterPerson);
    if selected == [] then None
    else
      assert selected[0] in rows && Passes(filterPerson, selected[0]);
      var order := SortByStart(selected);
      assert order != [] by {
        assert selected[0] in order;
      }
      Some(ChartOf(Title(filterPerson), order))
  }

  /**
   * The chart's bars draw its rows one for one, and the x-axis runs from three
   * days before the earliest start to fifteen days after the latest end.
   */
  ghost predicate WellPlaced(c: Chart)
  {
    |c.bars| == |c.order| && (forall i :: 0 <= i < |c.bars| ==> Draws(c.bars[i], c.order[i])) &&
    (forall i :: 0 <= i < |c.order| ==> c.xMin + 3 <= c.order[i].start && c.order[i].end + 15 <= c.xMax) &&
    (exists i :: 0 <= i < |c.order| && c.xMin + 3 == c.order[i].start) &&
    (exists i :: 0 <= i < |c.order| && c.order[i].end + 15 == c.xMax)
  }

  /** The chart for rows already in drawing order. */
  function ChartOf(title: string, order: seq<Activity>): (c: Chart)
    requires order != []
    ensures c.title == title && c.order == order && WellPlaced(c)
  {
    Chart(title, order, Bars(order), MinStart(order) - LeftMargin, MaxEnd(order) + RightMargin)
  }

  function Bars(order: seq<Activity>): (bars: seq<Bar>)
    ensures |bars| == |order| && forall i :: 0 <= i < |order| ==> Draws(bars[i], order[i])
  {
    seq(|order|, i requires 0 <= i < |order| => BarFor(order[i]))
  }

  /** The loop of `generate_gantt` over the sorted rows: one bar per row, in order. */
  method LayOutBars(order: seq<Activity>) returns (bars: seq<Bar>)
    ensures bars == Bars(order)
  {
    bars := [];
    var i := 0;
    while i < |order|
      invariant 0 <= i <= |order|
      invariant bars == Bars(order[..i])
    {
      var task := order[i];
      var duration := task.end - task.start;
      var color := StatusColor(task.status);
      assert order[..i + 1] == order[..i] + [task];
      BarsAppend(order[..i], task);
      bars := bars + [Bar(task.name, task.start, duration, color, task.end + LabelOffset, task.person)];
      i := i + 1;
    }
    assert order[..i] == order;
  }

  /** Drawing one more row appends its bar. */
  lemma BarsAppend(order: seq<Activity>, a: Activity)
    ensures Bars(order + [a]) == Bars(order) + [BarFor(a)]
  {
  }

  /** When some row passes the filter, the chart is drawn over the selected rows in start order. */
  lemma LayoutOfSelected(rows: seq<Activity>, filterPerson: Option<string>)
    requires Selected(rows, filterPerson) != []
    ensures SortByStart(Selected(rows, filterPerson)) != []
    ensures GanttLayout(rows, filterPerson) == Some(ChartOf(Title(filterPerson), SortByStart(Selected(rows, filterPerson))))
  {
    var sel := Selected(rows, filterPerson);
    assert sel[0] in SortByStart(sel);
  }

  /**
   * Every bar starts right of the x-axis minimum, and its end and label lie left
   * of the maximum; when no row ends before it starts, the end and the label
   * also lie right of the minimum. Bars appear left to right by start.
   */
  lemma ChartContainsBars(rows: seq<Activity>, filterPerson: Option<string>)
    requires GanttLayout(rows, filterPerson).Some?
    ensures var c := GanttLayout(rows, filterPerson).value;
      forall i :: 0 <= i < |c.bars| ==>
        c.xMin < c.bars[i].left && c.bars[i].labelX < c.xMax && c.bars[i].left + c.bars[i].width < c.xMax
    ensures var c := GanttLayout(rows, filterPerson).value;
      (forall a :: a in rows ==> a.start <= a.end) ==>
      forall i :: 0 <= i < |c.bars| ==> c.xMin < c.bars[i].left + c.bars[i].width < c.bars[i].labelX
    ensures var c := GanttLayout(rows, filterPerson).value;
      forall i, j :: 0 <= i < j < |c.bars| ==> c.bars[i].left <= c.bars[j].left
  {
  }

  /**
   * The x-axis limits depend only on which rows pass the filter: three days
   * before the earliest start among them and fifteen days after the latest end.
   */
  lemma XRangeOfSelected(rows: seq<Activity>, filterPerson: Option<string>)
    requires GanttLayout(rows, filterPerson).Some?
    ensures Selected(rows, filterPerson) != []
    ensures var c := GanttLayout(rows, filterPerson).value;
      c.xMin == MinStart(Selected(rows, filterPerson)) - 3 &&
      c.xMax == MaxEnd(Selected(rows, filterPerson)) + 15
  {
    var sel := Selected(rows, filterPerson);
    assert sel != [];
    var order := SortByStart(sel);
    assert order != [] by {
      assert sel[0] in order;
    }
    assert GanttLayout(rows, filterPerson) == Some(ChartOf(Title(filterPerson), order));
    SameRowsSameExtent(order, sel);
  }
}
