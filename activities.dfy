/**
 * The activity table of `GanttPrototype` as values: one record per row, the
 * six column names, ID generation, the per-field update, delete-by-ID and the
 * two person queries. Dates are day ordinals (whole days since an epoch).
 */
module Activities {
  import opened Seqs

  /** One row of the table, with the columns ID, Nome_Attività, Data_Inizio, Data_Fine, Persona_Riferimento, Stato. */
  datatype Activity = Activity(id: int, name: string, start: int, end: int, person: string, status: string)

  const IdColumn := "ID"
  const NameColumn := "Nome_Attività"
  const StartColumn := "Data_Inizio"
  const EndColumn := "Data_Fine"
  const PersonColumn := "Persona_Riferimento"
  const StatusColumn := "Stato"

  /** The columns of a freshly initialised table, in order. */
  const Columns: seq<string> := [IdColumn, NameColumn, StartColumn, EndColumn, PersonColumn, StatusColumn]

  /** The status `add_activity` uses when none is given. */
  const DefaultStatus := "In corso"

  /** A cell value: integers and day ordinals, or text. */
  datatype Value = Number(n: int) | Text(s: string)

  /** One keyword argument of `update_activity`: a field name and its new value. */
  datatype FieldUpdate = FieldUpdate(key: string, value: Value)

  predicate IsColumn(key: string)
  {
    key in Columns
  }

  predicate IsNumericColumn(key: string)
  {
    key == IdColumn || key == StartColumn || key == EndColumn
  }

  /** A recognised column is given a value of its own kind; an unrecognised key may carry anything. */
  predicate WellKinded(u: FieldUpdate)
  {
    IsColumn(u.key) ==> (u.value.Number? <==> IsNumericColumn(u.key))
  }

  predicate AllWellKinded(fields: seq<FieldUpdate>)
  {
    forall u :: u in fields ==> WellKinded(u)
  }

  /** The value in column `column` of row `a`. */
  function Cell(a: Activity, column: string): Value
    requires IsColumn(column)
  {
    if column == IdColumn then Number(a.id)
    else if column == NameColumn then Text(a.name)
    else if column == StartColumn then Number(a.start)
    else if column == EndColumn then Number(a.end)
    else if column == PersonColumn then Text(a.person)
    else Text(a.status)
  }

  /** Row `a` with the cell in column `u.key` overwritten by `u.value`. */
  function SetCell(a: Activity, u: FieldUpdate): (b: Activity)
    requires IsColumn(u.key) && WellKinded(u)
    ensures Cell(b, u.key) == u.value
    ensures forall c :: IsColumn(c) && c != u.key ==> Cell(b, c) == Cell(a, c)
  {
    match u.value
    case Number(n) =>
      if u.key == IdColumn then a.(id := n)
      else if u.key == StartColumn then a.(start := n)
      else a.(end := n)
    case Text(s) =>
      if u.key == NameColumn then a.(name := s)
      else if u.key == PersonColumn then a.(person := s)
      else a.(status := s)
  }

  // ---------------------------------------------------------------- ID generation

  predicate HasId(rows: seq<Activity>, id: int)
  {
    exists k :: 0 <= k < |rows| && rows[k].id == id
  }

  predicate UniqueIds(rows: seq<Activity>)
  {
    forall i, j :: 0 <= i < j < |rows| ==> rows[i].id != rows[j].id
  }

  /** The largest ID in a non-empty table. */
  function MaxId(rows: seq<Activity>): (m: int)
    requires rows != []
    ensures forall k :: 0 <= k < |rows| ==> rows[k].id <= m
    ensures exists k :: 0 <= k < |rows| && rows[k].id == m
  {
    if |rows| == 1 then rows[0].id
    else
      var rest := MaxId(rows[1..]);
      if rows[0].id >= rest then rows[0].id else rest
  }

  /** The ID `add_activity` assigns: 1 for an empty table, otherwise one more than the largest ID. */
  function NextId(rows: seq<Activity>): (id: int)
    ensures forall k :: 0 <= k < |rows| ==> rows[k].id < id
    ensures rows == [] ==> id == 1
    ensures rows != [] ==> HasId(rows, id - 1)
  {
    if |rows| == 0 then 1 else MaxId(rows) + 1
  }

  /** Appending a row with the generated ID keeps IDs unique. */
  lemma AddKeepsIdsUnique(rows: seq<Activity>, a: Activity)
    requires UniqueIds(rows)
    requires a.id == NextId(rows)
    ensures UniqueIds(rows + [a])
    ensures !HasId(rows, a.id)
  {
  }

  // ---------------------------------------------------------------- update

  /** `df.loc[df['ID'] == id, u.key] = u.value`: every row whose ID is currently `id` gets the new cell. */
  function SetWhere(rows: seq<Activity>, id: int, u: FieldUpdate): (r: seq<Activity>)
    requires IsColumn(u.key) && WellKinded(u)
    ensures |r| == |rows|
    ensures forall k :: 0 <= k < |rows| && rows[k].id != id ==> r[k] == rows[k]
    ensures forall k :: 0 <= k < |rows| && rows[k].id == id ==>
      Cell(r[k], u.key) == u.value && forall c :: IsColumn(c) && c != u.key ==> Cell(r[k], c) == Cell(rows[k], c)
  {
    seq(|rows|, k requires 0 <= k < |rows| => if rows[k].id == id then SetCell(rows[k], u) else rows[k])
  }

  /**
   * The table after `update_activity(id, **fields)` on a present ID: the fields
   * are applied in order, unrecognised keys are skipped, and each field hits
   * the rows whose ID equals `id` at that moment.
   */
  function ApplyUpdates(rows: seq<Activity>, id: int, fields: seq<FieldUpdate>): (r: seq<Activity>)
    requires AllWellKinded(fields)
    ensures |r| == |rows|
    ensures forall k :: 0 <= k < |rows| && rows[k].id != id ==> r[k] == rows[k]
    decreases |fields|
  {
    if fields == [] then rows
    else
      var u := fields[|fields| - 1];
      assert u in fields;
      var before := ApplyUpdates(rows, id, fields[..|fields| - 1]);
      if IsColumn(u.key) then SetWhere(before, id, u) else before
  }

  /** The last value `fields` supplies for `column`, or `default` when it supplies none. */
  function LastValue(fields: seq<FieldUpdate>, column: string, default: Value): Value
    decreases |fields|
  {
    if fields == [] then default
    else if fields[|fields| - 1].key == column then fields[|fields| - 1].value
    else LastValue(fields[..|fields| - 1], column, default)
  }

  /** No field moves a row away from the ID being updated. */
  predicate KeepsId(fields: seq<FieldUpdate>, id: int)
  {
    forall u :: u in fields && u.key == IdColumn ==> u.value == Number(id)
  }

  /**
   * When no field rewrites the ID, each row with that ID ends up holding, in
   * every column, the last value supplied for it, and its old value otherwise.
   */
  lemma {:induction false} UpdateSetsLastValues(rows: seq<Activity>, id: int, fields: seq<FieldUpdate>, k: int)
    requires AllWellKinded(fields) && KeepsId(fields, id)
    requires 0 <= k < |rows| && rows[k].id == id
    ensures ApplyUpdates(rows, id, fields)[k].id == id
    ensures forall c :: IsColumn(c) ==>
      Cell(ApplyUpdates(rows, id, fields)[k], c) == LastValue(fields, c, Cell(rows[k], c))
  {
    if fields != [] {
      var init := fields[..|fields| - 1];
      var u := fields[|fields| - 1];
      assert u in fields;
      assert forall v :: v in init ==> v in fields;
      UpdateSetsLastValues(rows, id, init, k);
      var before := ApplyUpdates(rows, id, init);
      if IsColumn(u.key) {
        assert ApplyUpdates(rows, id, fields)[k] == SetCell(before[k], u);
        assert Cell(ApplyUpdates(rows, id, fields)[k], IdColumn) == Number(id);
      }
    }
  }

  /**
   * Once the fields applied so far have moved a row away from `id`, later
   * fields no longer reach it: the mask is re-evaluated for every field.
   */
  lemma {:induction false} MovedRowUntouched(rows: seq<Activity>, id: int, fields: seq<FieldUpdate>, more: seq<FieldUpdate>, k: int)
    requires AllWellKinded(fields + more)
    requires 0 <= k < |rows|
    ensures AllWellKinded(fields)
    ensures ApplyUpdates(rows, id, fields)[k].id != id ==>
      ApplyUpdates(rows, id, fields + more)[k] == ApplyUpdates(rows, id, fields)[k]
    decreases |more|
  {
    assert forall v :: v in fields ==> v in fields + more;
    if more == [] {
      assert fields + more == fields;
    } else if ApplyUpdates(rows, id, fields)[k].id != id {
      var init := more[..|more| - 1];
      var u := more[|more| - 1];
      var all := fields + more;
      assert all[..|all| - 1] == fields + init && all[|all| - 1] == u;
      assert forall v :: v in fields + init ==> v in all;
      MovedRowUntouched(rows, id, fields, init, k);
      var before := ApplyUpdates(rows, id, fields + init);
      assert before[k] == ApplyUpdates(rows, id, fields)[k];
      assert u in all;
      assert ApplyUpdates(rows, id, all) == if IsColumn(u.key) then SetWhere(before, id, u) else before;
    }
  }

  /** Unrecognised keys have no effect: updating with only the recognised fields gives the same table. */
  lemma {:induction false} UpdateSkipsUnknownKeys(rows: seq<Activity>, id: int, fields: seq<FieldUpdate>)
    requires AllWellKinded(fields)
    ensures AllWellKinded(Filter(fields, (u: FieldUpdate) => IsColumn(u.key)))
    ensures ApplyUpdates(rows, id, fields) == ApplyUpdates(rows, id, Filter(fields, (u: FieldUpdate) => IsColumn(u.key)))
  {
    var known := (u: FieldUpdate) => IsColumn(u.key);
    if fields != [] {
      var init := fields[..|fields| - 1];
      var u := fields[|fields| - 1];
      assert fields == init + [u];
      assert forall v :: v in init ==> v in fields;
      UpdateSkipsUnknownKeys(rows, id, init);
      FilterConcat(init, [u], known);
      var kept := Filter(init, known);
      if IsColumn(u.key) {
        assert Filter([u], known) == [u];
        assert (kept + [u])[..|kept + [u]| - 1] == kept;
      } else {
        assert Filter([u], known) == [];
        assert kept + [] == kept;
      }
    }
  }

  /** Two rows, IDs 1 and 2: renaming row 1 to ID 2 leaves two rows with ID 2. */
  lemma UpdateCanDuplicateIds()
    ensures var rows := [Activity(1, "a", 0, 1, "p", DefaultStatus), Activity(2, "b", 0, 1, "p", DefaultStatus)];
      UniqueIds(rows) && !UniqueIds(ApplyUpdates(rows, 1, [FieldUpdate(IdColumn, Number(2))]))
  {
    var rows := [Activity(1, "a", 0, 1, "p", DefaultStatus), Activity(2, "b", 0, 1, "p", DefaultStatus)];
    var fields := [FieldUpdate(IdColumn, Number(2))];
    assert fields[..0] == [];
    assert ApplyUpdates(rows, 1, fields[..0]) == rows;
    var r := ApplyUpdates(rows, 1, fields);
    assert r == SetWhere(rows, 1, fields[0]);
    assert r[0] == SetCell(rows[0], fields[0]);
    assert r[0].id == 2 && r[1].id == 2;
  }

  // ---------------------------------------------------------------- delete

  /** `df[df['ID'] != id]`: the rows with another ID, in table order. */
  function WithoutId(rows: seq<Activity>, id: int): (r: seq<Activity>)
    ensures forall a :: a in r <==> a in rows && a.id != id
    ensures forall a :: multiset(r)[a] == if a.id != id then multiset(rows)[a] else 0
  {
    FilterMultiset(rows, (a: Activity) => a.id != id);
    Filter(rows, (a: Activity) => a.id != id)
  }

  /** Deleting keeps IDs unique. */
  lemma {:induction false} DeleteKeepsIdsUnique(rows: seq<Activity>, id: int)
    requires UniqueIds(rows)
    ensures UniqueIds(WithoutId(rows, id))
  {
    if rows != [] {
      var tail := rows[1..];
      assert UniqueIds(tail) by {
        forall i, j | 0 <= i < j < |tail| ensures tail[i].id != tail[j].id {
          assert tail[i] == rows[i + 1] && tail[j] == rows[j + 1];
        }
      }
      DeleteKeepsIdsUnique(tail, id);
      var rest := WithoutId(tail, id);
      assert WithoutId(rows, id) == (if rows[0].id != id then [rows[0]] else []) + rest;
      if rows[0].id != id {
        forall b | b in rest ensures b.id != rows[0].id {
          var k :| 0 <= k < |tail| && tail[k] == b;
          assert rows[k + 1] == b;
        }
        UniqueIdsCons(rows[0], rest);
      }
    }
  }

  lemma UniqueIdsCons(a: Activity, rest: seq<Activity>)
    requires UniqueIds(rest)
    requires forall b :: b in rest ==> b.id != a.id
    ensures UniqueIds([a] + rest)
  {
    var r := [a] + rest;
    forall i, j | 0 <= i < j < |r| ensures r[i].id != r[j].id {
      assert r[j] == rest[j - 1];
      if i > 0 {
        assert r[i] == rest[i - 1];
      }
    }
  }

  /** Deleting keeps the surviving rows in their relative order. */
  lemma DeleteKeepsOrder(front: seq<Activity>, back: seq<Activity>, id: int)
    ensures WithoutId(front + back, id) == WithoutId(front, id) + WithoutId(back, id)
  {
    FilterConcat(front, back, (a: Activity) => a.id != id);
  }

  /** In a table with unique IDs, deleting a present ID removes exactly one row. */
  lemma {:induction false} DeleteRemovesOneRow(rows: seq<Activity>, id: int)
    requires UniqueIds(rows) && HasId(rows, id)
    ensures |WithoutId(rows, id)| == |rows| - 1
  {
    var k :| 0 <= k < |rows| && rows[k].id == id;
    if k == 0 {
      assert !HasId(rows[1..], id) by {
        forall j | 0 <= j < |rows[1..]| ensures rows[1..][j].id != id {
          assert rows[1..][j] == rows[j + 1];
        }
      }
      DeleteAbsentKeepsRows(rows[1..], id);
    } else {
      assert rows[1..][k - 1].id == id;
      DeleteRemovesOneRow(rows[1..], id);
    }
  }

  /** Deleting an ID no row has leaves the rows as they are. */
  lemma DeleteAbsentKeepsRows(rows: seq<Activity>, id: int)
    requires !HasId(rows, id)
    ensures WithoutId(rows, id) == rows
  {
    FilterAll(rows, (a: Activity) => a.id != id);
  }

  /**
   * IDs come from the current maximum, so they are reused: in a table whose IDs
   * are all positive, deleting the largest ID and adding a row gives an ID no
   * larger than the deleted one.
   */
  lemma DeleteMaxThenAddReusesId(rows: seq<Activity>)
    requires rows != []
    requires forall k :: 0 <= k < |rows| ==> rows[k].id >= 1
    ensures NextId(WithoutId(rows, MaxId(rows))) <= MaxId(rows)
  {
    var rest := WithoutId(rows, MaxId(rows));
    forall k | 0 <= k < |rest| ensures rest[k].id < MaxId(rows) {
      assert rest[k] in rest;
      var j :| 0 <= j < |rows| && rows[j] == rest[k];
    }
  }

  /** Concretely: with IDs 1 and 2, deleting 2 and adding again hands out 2. */
  lemma DeletedIdTwoIsReused()
    ensures var rows := [Activity(1, "a", 0, 1, "p", DefaultStatus), Activity(2, "b", 0, 1, "p", DefaultStatus)];
      NextId(rows) == 3 && NextId(WithoutId(rows, 2)) == 2
  {
    var rows := [Activity(1, "a", 0, 1, "p", DefaultStatus), Activity(2, "b", 0, 1, "p", DefaultStatus)];
    assert rows[1..] == [rows[1]];
    assert WithoutId(rows, 2) == [rows[0]];
  }

  /** With IDs 1 and 3, deleting 3 and adding again hands out 2, not the deleted 3. */
  lemma DeletedIdThreeIsNotReused()
    ensures var rows := [Activity(1, "a", 0, 1, "p", DefaultStatus), Activity(3, "b", 0, 1, "p", DefaultStatus)];
      NextId(rows) == 4 && NextId(WithoutId(rows, 3)) == 2
  {
    var rows := [Activity(1, "a", 0, 1, "p", DefaultStatus), Activity(3, "b", 0, 1, "p", DefaultStatus)];
    assert rows[1..] == [rows[1]];
    assert WithoutId(rows, 3) == [rows[0]];
  }

  // ---------------------------------------------------------------- queries

  /** `df[df['Persona_Riferimento'] == person]`: the rows of that person, in table order. */
  function ActivitiesByPerson(rows: seq<Activity>, person: string): (r: seq<Activity>)
    ensures forall a :: a in r <==> a in rows && a.person == person
    ensures forall a :: multiset(r)[a] == if a.person == person then multiset(rows)[a] else 0
  {
    FilterMultiset(rows, (a: Activity) => a.person == person);
    Filter(rows, (a: Activity) => a.person == person)
  }

  /** The person's rows come in table order. */
  lemma ByPersonKeepsOrder(front: seq<Activity>, back: seq<Activity>, person: string)
    ensures ActivitiesByPerson(front + back, person) == ActivitiesByPerson(front, person) + ActivitiesByPerson(back, person)
  {
    FilterConcat(front, back, (a: Activity) => a.person == person);
  }

  function Persons(rows: seq<Activity>): (ps: seq<string>)
    ensures |ps| == |rows| && forall k :: 0 <= k < |rows| ==> ps[k] == rows[k].person
  {
    seq(|rows|, k requires 0 <= k < |rows| => rows[k].person)
  }

  /** `df['Persona_Riferimento'].unique()`: each person once, in order of first appearance. */
  function UniquePersons(rows: seq<Activity>): (r: seq<string>)
    ensures NoDuplicates(r)
    ensures forall p :: p in r <==> exists k :: 0 <= k < |rows| && rows[k].person == p
  {
    Distinct(Persons(rows))
  }

  /** The persons listed by `UniquePersons` come in the order each first appears in the table. */
  lemma UniquePersonsFirstSeenOrder(rows: seq<Activity>)
    ensures forall i, j :: 0 <= i < j < |UniquePersons(rows)| ==>
      FirstIndex(Persons(rows), UniquePersons(rows)[i]) < FirstIndex(Persons(rows), UniquePersons(rows)[j])
  {
    DistinctFirstSeenOrder(Persons(rows));
  }
}
