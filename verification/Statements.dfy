/**
  * What each statement does to tables, definitions and log, and what it answers, told from the state before and the
  * state after it (the `execute_` functions of `src/engine/executor.rs`).
  */
module Statements {
  import opened Prelude
  import opened Types
  import opened Index
  import opened Storage
  import opened Catalog
  import opened WalEntries
  import opened Maintenance
  import opened Where
  import opened Engine
  import opened Sections
  import opened Coherence
  import opened Cells

  // ---- What stays -------------------------------------------------------------------------------------------

  /** Among the rows, only those of table `tn` may differ. */
  ghost predicate OnlyRowsOf(s: Store, s': Store, tn: Str) {
    && (forall u :: u != tn ==> (u in s.tables <==> u in s'.tables) && (u in s.nextIds <==> u in s'.nextIds))
    && (forall u :: u != tn && u in s.tables ==> s'.tables[u] == s.tables[u])
    && (forall u :: u != tn && u in s.nextIds ==> s'.nextIds[u] == s.nextIds[u])
  }

  ghost predicate SameRowsAndCounters(s: Store, s': Store) {
    s'.tables == s.tables && s'.nextIds == s.nextIds
  }

  // ---- DELETE -------------------------------------------------------------------------------------------------

  ghost function SelectedIds(t: Table, selection: Option<Expr>, columns: seq<Column>, platform: Platform): set<nat> {
    set id | id in t && Selected(selection, columns, t[id].values, platform)
  }

  /** If rows were concerned, the log has got the table's rows as they are now, in id order. */
  ghost predicate LogsTable(e: Engine, after: Engine, table: Str, concerned: set<nat>) {
    if concerned == {} then after.log == e.log
    else exists rows :: Enumerates(rows, TableOf(after.store, table)) && after.log == e.log + [TableSnapshot(table, rows)]
  }

  /** These rows of the table are gone, all others are there as they were. */
  ghost predicate RowsGone(s: Store, s': Store, table: Str, gone: set<nat>) {
    && (forall id :: id in TableOf(s', table) <==> id in TableOf(s, table) && id !in gone)
    && (forall id :: id in TableOf(s', table) ==> TableOf(s', table)[id] == TableOf(s, table)[id])
    && NextOf(s', table) == NextOf(s, table)
    && OnlyRowsOf(s, s', Lower(table))
  }

  /** The selected rows are gone and counted. */
  ghost predicate Deleted(e: Engine, table: Str, gone: set<nat>, o: Outcome) {
    && o.result == Ok(Affected(|gone|, 0))
    && RowsGone(e.store, o.engine.store, table, gone)
    && o.engine.defs == e.defs
    && LogsTable(e, o.engine, table, gone)
  }

  ghost predicate Deletes(e: Engine, db: Str, table: Str, selection: Option<Expr>, platform: Platform, o: Outcome) {
    match GetTable(e.defs, db, table)
    case Err(x) => o == Outcome(e, Err(x))
    case Ok(def) =>
      if Lower(table) !in e.store.tables then o == Outcome(e, Err(UnknownTable))
      else Deleted(e, table, SelectedIds(TableOf(e.store, table), selection, def.columns, platform), o)
  }

  lemma {:induction false} AsManyRows(rows: seq<Row>, ids: set<nat>)
    requires forall i, j :: 0 <= i < j < |rows| ==> rows[i].id != rows[j].id
    requires forall i :: 0 <= i < |rows| ==> rows[i].id in ids
    requires forall id :: id in ids ==> exists i :: 0 <= i < |rows| && rows[i].id == id
    ensures |rows| == |ids|
  {
    if rows == [] {
      assert ids == {};
    } else {
      var init, last := rows[..|rows| - 1], rows[|rows| - 1];
      forall id | id in ids - {last.id} ensures exists i :: 0 <= i < |init| && init[i].id == id {
        var i :| 0 <= i < |rows| && rows[i].id == id;
        assert init[i].id == id;
      }
      AsManyRows(init, ids - {last.id});
    }
  }

  /** As many rows are chosen as are selected. */
  lemma ChosenCount(t: Table, selection: Option<Expr>, columns: seq<Column>, platform: Platform, next: nat)
    requires WfTable(t, next)
    ensures |ChosenRows(t, selection, columns, platform)| == |SelectedIds(t, selection, columns, platform)|
  {
    var chosen := ChosenRows(t, selection, columns, platform);
    ChosenRowsAreChosen(t, selection, columns, platform, next);
    forall i | 0 <= i < |chosen| ensures chosen[i].id in SelectedIds(t, selection, columns, platform) {
      assert chosen[i] in chosen;
    }
    forall id | id in SelectedIds(t, selection, columns, platform) ensures exists i :: 0 <= i < |chosen| && chosen[i].id == id {
      assert t[id] in chosen;
      var i :| 0 <= i < |chosen| && chosen[i] == t[id];
      assert chosen[i].id == id;
    }
    AsManyRows(chosen, SelectedIds(t, selection, columns, platform));
  }

  lemma SnapshotLogged(e: Engine, table: Str, concerned: set<nat>)
    requires WfStore(e.store)
    ensures LogsTable(e, WithSnapshot(e, table, |concerned|), table, concerned)
  {
    TableIsWf(e.store, table);
    ValuesOfWf(TableOf(e.store, table), NextOf(e.store, table));
    assert WithSnapshot(e, table, |concerned|).store == e.store;
  }

  lemma RowsLeft(s: Store, s': Store, table: Str, left: Table, gone: set<nat>)
    requires WfStore(s) && Lower(table) in s.tables
    requires s'.nextIds == s.nextIds && s'.tables == s.tables[Lower(table) := left]
    requires forall id :: id in left <==> id in TableOf(s, table) && id !in gone
    requires forall id :: id in left ==> left[id] == TableOf(s, table)[id]
    ensures WfStore(s') && RowsGone(s, s', table, gone)
  {
  }

  lemma DeletedStore(s: Store, table: Str, selection: Option<Expr>, defs: seq<IndexDef>, columns: seq<Column>,
      platform: Platform)
    requires WfStore(s) && Lower(table) in s.tables
    ensures var s' := DeleteRows(s, table, selection, defs, columns, platform);
            WfStore(s') && RowsGone(s, s', table, SelectedIds(TableOf(s, table), selection, columns, platform))
  {
    RowsLeft(s, DeleteRows(s, table, selection, defs, columns, platform), table, Remaining(TableOf(s, table), selection, columns, platform),
             SelectedIds(TableOf(s, table), selection, columns, platform));
  }

  lemma RowsDeleted(e: Engine, db: Str, table: Str, selection: Option<Expr>, platform: Platform)
    requires WfStore(e.store) && GetTable(e.defs, db, table).Ok? && Lower(table) in e.store.tables
    ensures Deleted(e, table, SelectedIds(TableOf(e.store, table), selection, GetTable(e.defs, db, table).value.columns, platform),
                    ExecDelete(e, db, table, selection, platform))
  {
    var columns, defs := GetTable(e.defs, db, table).value.columns, TableIndexes(e.defs, db, table);
    TableIsWf(e.store, table);
    ChosenCount(TableOf(e.store, table), selection, columns, platform, NextOf(e.store, table));
    DeletedStore(e.store, table, selection, defs, columns, platform);
    SnapshotLogged(e.(store := DeleteRows(e.store, table, selection, defs, columns, platform)), table,
                   SelectedIds(TableOf(e.store, table), selection, columns, platform));
  }

  /**
    * DELETE takes exactly the selected rows out and answers their number; if there are any, the log gets the rows left.
    */
  lemma DeleteEffect(e: Engine, db: Str, table: Str, selection: Option<Expr>, platform: Platform)
    requires WfStore(e.store)
    ensures Deletes(e, db, table, selection, platform, ExecDelete(e, db, table, selection, platform))
  {
    if GetTable(e.defs, db, table).Ok? && Lower(table) in e.store.tables {
      RowsDeleted(e, db, table, selection, platform);
    }
  }

  // ---- UPDATE ----------------------------------------------------------------------------------------------------

  /** The row as the assignments leave it. */
  ghost predicate RowAssigned(columns: seq<Column>, assignments: seq<Assignment>, was: Row, becomes: Row) {
    && becomes.id == was.id && |becomes.values| == |was.values|
    && forall p :: 0 <= p < |was.values| ==> CellAssigned(columns, assignments, p, was.values[p], becomes.values[p])
  }

  /** These rows of the table are assigned, all others are as they were. */
  ghost predicate RowsChanged(s: Store, s': Store, table: Str, assignments: seq<Assignment>, columns: seq<Column>,
      changed: set<nat>) {
    && TableOf(s', table).Keys == TableOf(s, table).Keys
    && (forall id :: id in TableOf(s, table) && id in changed ==> RowAssigned(columns, assignments, TableOf(s, table)[id], TableOf(s', table)[id]))
    && (forall id :: id in TableOf(s, table) && id !in changed ==> TableOf(s', table)[id] == TableOf(s, table)[id])
    && NextOf(s', table) == NextOf(s, table)
    && OnlyRowsOf(s, s', Lower(table))
  }

  /** The selected rows are assigned and counted. */
  ghost predicate Changed(e: Engine, table: Str, assignments: seq<Assignment>, columns: seq<Column>,
      changed: set<nat>, o: Outcome) {
    && o.result == Ok(Affected(|changed|, 0))
    && RowsChanged(e.store, o.engine.store, table, assignments, columns, changed)
    && o.engine.defs == e.defs
    && LogsTable(e, o.engine, table, changed)
  }

  /** The first assignment that fails decides before the table is looked at. */
  ghost predicate Updates(e: Engine, db: Str, table: Str, assignments: seq<Assignment>, selection: Option<Expr>,
      platform: Platform,
      o: Outcome) {
    match GetTable(e.defs, db, table)
    case Err(x) => o == Outcome(e, Err(x))
    case Ok(def) =>
      if exists k :: 0 <= k < |assignments| && FailureOf(def.columns, assignments[k]).Some? then
        exists k :: 0 <= k < |assignments| && FailureOf(def.columns, assignments[k]).Some?
                    && (forall j :: 0 <= j < k ==> FailureOf(def.columns, assignments[j]) == None)
                    && o == Outcome(e, Err(FailureOf(def.columns, assignments[k]).value))
      else if Lower(table) !in e.store.tables then o == Outcome(e, Err(UnknownTable))
      else Changed(e, table, assignments, def.columns, SelectedIds(TableOf(e.store, table), selection, def.columns, platform), o)
  }

  lemma ResolvedOrFails(columns: seq<Column>, assignments: seq<Assignment>)
    ensures Targets(columns, assignments).Err? <==> exists k :: 0 <= k < |assignments| && FailureOf(columns, assignments[k]).Some?
    ensures Resolved(columns, assignments, Targets(columns, assignments))
  {
    TargetsAreNamed(columns, assignments);
    if Targets(columns, assignments).Ok? {
      forall k | 0 <= k < |assignments| ensures FailureOf(columns, assignments[k]) == None {
        assert Names(columns, assignments[k].column, Targets(columns, assignments).value[k].index);
      }
    }
  }

  lemma RowsAssigned(columns: seq<Column>, assignments: seq<Assignment>, r: Row)
    requires Targets(columns, assignments).Ok?
    ensures RowAssigned(columns, assignments, r, AssignedRow(r, Targets(columns, assignments).value))
  {
    var targets := Targets(columns, assignments).value;
    TargetsAreNamed(columns, assignments);
    forall p | 0 <= p < |r.values| ensures CellAssigned(columns, assignments, p, r.values[p], Assigned(r.values, targets)[p]) {
      CellsAssigned(columns, assignments, targets, r.values, p);
    }
  }

  lemma RowsRewritten(s: Store, s': Store, table: Str, assignments: seq<Assignment>, columns: seq<Column>, after: Table,
      changed: set<nat>)
    requires WfStore(s) && Lower(table) in s.tables
    requires s'.nextIds == s.nextIds && s'.tables == s.tables[Lower(table) := after]
    requires after.Keys == TableOf(s, table).Keys
    requires forall id :: id in after && id in changed ==> RowAssigned(columns, assignments, TableOf(s, table)[id], after[id])
    requires forall id :: id in after && id !in changed ==> after[id] == TableOf(s, table)[id]
    ensures WfStore(s') && RowsChanged(s, s', table, assignments, columns, changed)
  {
  }

  lemma AssignedTable(t: Table, assignments: seq<Assignment>, selection: Option<Expr>, columns: seq<Column>,
      platform: Platform)
    requires Targets(columns, assignments).Ok?
    ensures var t' := Updated(t, selection, columns, Targets(columns, assignments).value, platform);
            && t'.Keys == t.Keys
            && (forall id :: id in t && id in SelectedIds(t, selection, columns, platform) ==> RowAssigned(columns, assignments, t[id], t'[id]))
            && (forall id :: id in t && id !in SelectedIds(t, selection, columns, platform) ==> t'[id] == t[id])
  {
    forall id | id in t
      ensures RowAssigned(columns, assignments, t[id], AssignedRow(t[id], Targets(columns, assignments).value))
    {
      RowsAssigned(columns, assignments, t[id]);
    }
  }

  lemma ChangedStore(s: Store, table: Str, assignments: seq<Assignment>, selection: Option<Expr>, defs: seq<IndexDef>,
      columns: seq<Column>, platform: Platform)
    requires WfStore(s) && Lower(table) in s.tables && Targets(columns, assignments).Ok?
    ensures var s' := UpdateRows(s, table, selection, Targets(columns, assignments).value, defs, columns, platform);
            && WfStore(s')
            && RowsChanged(s, s', table, assignments, columns, SelectedIds(TableOf(s, table), selection, columns, platform))
  {
    var targets := Targets(columns, assignments).value;
    AssignedTable(TableOf(s, table), assignments, selection, columns, platform);
    RowsRewritten(s, UpdateRows(s, table, selection, targets, defs, columns, platform), table, assignments, columns,
                  Updated(TableOf(s, table), selection, columns, targets, platform),
                  SelectedIds(TableOf(s, table), selection, columns, platform));
  }

  lemma RowsUpdated(e: Engine, db: Str, table: Str, assignments: seq<Assignment>, selection: Option<Expr>,
      platform: Platform)
    requires WfStore(e.store) && GetTable(e.defs, db, table).Ok? && Lower(table) in e.store.tables
    requires Targets(GetTable(e.defs, db, table).value.columns, assignments).Ok?
    ensures var columns := GetTable(e.defs, db, table).value.columns;
            Changed(e, table, assignments, columns, SelectedIds(TableOf(e.store, table), selection, columns, platform),
                    ExecUpdate(e, db, table, assignments, selection, platform))
  {
    var columns, defs := GetTable(e.defs, db, table).value.columns, TableIndexes(e.defs, db, table);
    TableIsWf(e.store, table);
    ChosenCount(TableOf(e.store, table), selection, columns, platform, NextOf(e.store, table));
    ChangedStore(e.store, table, assignments, selection, defs, columns, platform);
    SnapshotLogged(e.(store := UpdateRows(e.store, table, selection, Targets(columns, assignments).value, defs, columns, platform)), table,
                   SelectedIds(TableOf(e.store, table), selection, columns, platform));
  }

  /**
    * UPDATE gives each named cell of the selected rows the value of the last assignment for it, changes nothing else
    * and answers the number of selected rows; if there are any, the log gets the table's rows.
    */
  lemma UpdateEffect(e: Engine, db: Str, table: Str, assignments: seq<Assignment>, selection: Option<Expr>,
      platform: Platform)
    requires WfStore(e.store)
    ensures Updates(e, db, table, assignments, selection, platform, ExecUpdate(e, db, table, assignments, selection, platform))
  {
    if GetTable(e.defs, db, table).Ok? {
      var columns := GetTable(e.defs, db, table).value.columns;
      ResolvedOrFails(columns, assignments);
      if Targets(columns, assignments).Ok? && Lower(table) in e.store.tables {
        RowsUpdated(e, db, table, assignments, selection, platform);
      }
    }
  }

  // ---- INSERT ----------------------------------------------------------------------------------------------------

  /** The `i`-th name gives its value to column `p`. */
  predicate GivenTo(columns: seq<Column>, names: seq<Str>, values: seq<Value>, i: nat, p: nat) {
    i < |names| && i < |values| && Names(columns, names[i], p)
  }

  ghost predicate LastGivenTo(columns: seq<Column>, names: seq<Str>, values: seq<Value>, i: nat, p: nat) {
    GivenTo(columns, names, values, i, p) && forall j: nat :: i < j ==> !GivenTo(columns, names, values, j, p)
  }

  /** A name has a value and no column. */
  predicate MissesColumn(columns: seq<Column>, names: seq<Str>, values: seq<Value>) {
    exists i :: 0 <= i < |names| && i < |values| && Unknown(columns, names[i])
  }

  /**
    * A VALUES row put into place: as it is without names, else by the names, the last for a column counting, NULL where
    * there is none.
    */
  ghost predicate Placed(columns: seq<Column>, names: seq<Str>, values: seq<Value>, row: seq<Value>) {
    if names == [] then row == values
    else
      && |row| == |columns|
      && (forall p :: 0 <= p < |row| && (forall i: nat :: !GivenTo(columns, names, values, i, p)) ==> row[p] == Null)
      && (forall p, i: nat :: 0 <= p < |row| && LastGivenTo(columns, names, values, i, p) ==> row[p] == values[i])
  }

  lemma GivesIsGivenTo(columns: seq<Column>, names: seq<Str>, values: seq<Value>, i: nat, p: nat)
    ensures p < |columns| ==> (Gives(columns, names, values, |names|, i, p) <==> GivenTo(columns, names, values, i, p))
    ensures Gives(columns, names, values, |names|, i, |columns|) <==> i < |names| && i < |values| && Unknown(columns, names[i])
  {
    if i < |names| && Position(columns, names[i]) < |columns| {
      OneColumnNamed(columns, names[i], Position(columns, names[i]), p);
    }
  }

  lemma RefusedMisses(columns: seq<Column>, names: seq<Str>, values: seq<Value>)
    ensures MapNames(columns, names, values, |names|) == None <==> MissesColumn(columns, names, values)
  {
    RefusedForUnknownColumn(columns, names, values, |names|);
    forall i: nat ensures Gives(columns, names, values, |names|, i, |columns|) <==> i < |names| && i < |values| && Unknown(columns, names[i]) {
      GivesIsGivenTo(columns, names, values, i, |columns|);
    }
    if MissesColumn(columns, names, values) {
      var i :| 0 <= i < |names| && i < |values| && Unknown(columns, names[i]);
      assert Gives(columns, names, values, |names|, i, |columns|);
    }
  }

  /** One row: refused for a valued name without column, else placed. */
  lemma RowPlaced(columns: seq<Column>, names: seq<Str>, values: seq<Value>)
    ensures MapRow(columns, names, values) == None <==> MissesColumn(columns, names, values)
    ensures MapRow(columns, names, values).Some? ==> Placed(columns, names, values, MapRow(columns, names, values).value)
  {
    if names != [] {
      RefusedMisses(columns, names, values);
      if MapRow(columns, names, values).Some? {
        CellsPlaced(columns, names, values);
      }
    }
  }

  lemma CellsPlaced(columns: seq<Column>, names: seq<Str>, values: seq<Value>)
    requires names != [] && MapNames(columns, names, values, |names|).Some?
    ensures Placed(columns, names, values, MapNames(columns, names, values, |names|).value)
  {
    var row := MapNames(columns, names, values, |names|).value;
    forall p | 0 <= p < |row| && forall i: nat :: !GivenTo(columns, names, values, i, p) ensures row[p] == Null {
      forall i: nat ensures !Gives(columns, names, values, |names|, i, p) {
        GivesIsGivenTo(columns, names, values, i, p);
      }
      UnnamedCellIsNull(columns, names, values, |names|, p);
    }
    forall p, i: nat | 0 <= p < |row| && LastGivenTo(columns, names, values, i, p) ensures row[p] == values[i] {
      GivesIsGivenTo(columns, names, values, i, p);
      forall j: nat | i < j ensures !Gives(columns, names, values, |names|, j, p) {
        GivesIsGivenTo(columns, names, values, j, p);
      }
      LastNameCounts(columns, names, values, |names|, i, p);
    }
  }

  /** Row by row; one refused row refuses all. */
  ghost predicate AllPlaced(columns: seq<Column>, names: seq<Str>, given: seq<seq<Value>>,
      placed: Option<seq<seq<Value>>>) {
    match placed
    case None => exists i :: 0 <= i < |given| && MissesColumn(columns, names, given[i])
    case Some(rows) =>
      && |rows| == |given|
      && forall i :: 0 <= i < |given| ==> !MissesColumn(columns, names, given[i]) && Placed(columns, names, given[i], rows[i])
  }

  lemma {:induction false} RowsPlaced(columns: seq<Column>, names: seq<Str>, given: seq<seq<Value>>)
    ensures AllPlaced(columns, names, given, MapRows(columns, names, given))
  {
    if given != [] {
      var n := |given| - 1;
      RowsPlaced(columns, names, given[..n]);
      RowPlaced(columns, names, given[n]);
      if MapRows(columns, names, given[..n]) == None {
        var i :| 0 <= i < n && MissesColumn(columns, names, given[..n][i]);
        assert given[i] == given[..n][i];
      }
    }
  }

  /** The rows stand under the next ids in order, filled, and all others are as they were. */
  ghost predicate RowsAdded(s: Store, s': Store, table: Str, rows: seq<Row>) {
    && NextOf(s', table) == NextOf(s, table) + |rows|
    && (forall id :: id in TableOf(s', table) <==> id in TableOf(s, table) || NextOf(s, table) <= id < NextOf(s', table))
    && (forall id :: id in TableOf(s, table) ==> TableOf(s', table)[id] == TableOf(s, table)[id])
    && (forall i :: 0 <= i < |rows| ==> TableOf(s', table)[NextOf(s, table) + i] == rows[i].(id := NextOf(s, table) + i))
    && OnlyRowsOf(s, s', Lower(table))
  }

  /** Every placed row is filled, the numbers of the sequence going on from row to row. */
  ghost predicate AllFilled(rows: seq<Row>, placed: seq<seq<Value>>, first: nat, columns: seq<Column>, now: u64)
    requires FullArity(columns, placed)
  {
    && |rows| == |placed|
    && forall i :: 0 <= i < |rows| ==> rows[i].id == 0 && IsFilled(rows[i].values, placed[i], first + AutoTotal(columns, placed, i), columns, now)
  }

  /** The rows are filled, stored, logged and counted, and the sequence has moved on by the numbers drawn. */
  ghost predicate RowsInserted(e: Engine, table: Str, columns: seq<Column>, placed: seq<seq<Value>>, now: u64,
      rows: seq<Row>,
      o: Outcome)
    requires FullArity(columns, placed)
  {
    var first, used := SequenceOf(e.defs, table), AutoTotal(columns, placed, |placed|);
    && AllFilled(rows, placed, first, columns, now)
    && RowsAdded(e.store, o.engine.store, table, rows)
    && o.engine.log == e.log + [InsertRows(table, rows)]
    && o.result == Ok(Affected(|placed|, if used == 0 then 0 else first + used - 1))
    && o.engine.defs.databases == e.defs.databases
    && SequenceOf(o.engine.defs, table) == first + used
    && forall u :: !SameName(u, table) ==> SequenceOf(o.engine.defs, u) == SequenceOf(e.defs, u)
  }

  ghost predicate Inserts(e: Engine, db: Str, table: Str, names: seq<Str>, source: Source, now: u64, o: Outcome) {
    match GetTable(e.defs, db, table)
    case Err(x) => o == Outcome(e, Err(x))
    case Ok(def) =>
      match source
      case NoSource => o == Outcome(e, Err(MissingSource))
      case OtherSource => o == Outcome(e, Err(OnlyValues))
      case Rows(given) =>
        if exists i :: 0 <= i < |given| && MissesColumn(def.columns, names, given[i]) then o == Outcome(e, Err(UnknownColumn))
        else if names == [] && !FullArity(def.columns, given) then o == Outcome(e, Err(RowTooShort))
        else
          exists placed, rows ::
            && AllPlaced(def.columns, names, given, Some(placed)) && FullArity(def.columns, placed)
            && RowsInserted(e, table, def.columns, placed, now, rows, o)
  }

  lemma {:induction false} OtherSequences(c: Definitions, table: Str, columns: seq<Column>, values: seq<Value>,
      last: nat,
      now: u64, k: nat, u: Str)
    requires k <= |columns| <= |values| && !SameName(u, table)
    ensures SequenceOf(FillRow(c, table, columns, values, last, now, k).defs, u) == SequenceOf(c, u)
  {
    if k > 0 {
      OtherSequences(c, table, columns, values, last, now, k - 1, u);
    }
  }

  lemma {:induction false} OtherSequencesStay(c: Definitions, table: Str, columns: seq<Column>, rows: seq<seq<Value>>,
      now: u64, u: Str)
    requires FullArity(columns, rows) && !SameName(u, table)
    ensures SequenceOf(FillRows(c, table, columns, rows, now).defs, u) == SequenceOf(c, u)
  {
    if rows != [] {
      var n := |rows| - 1;
      OtherSequencesStay(c, table, columns, rows[..n], now, u);
      var init := FillRows(c, table, columns, rows[..n], now);
      OtherSequences(init.defs, table, columns, rows[n], init.last, now, |columns|, u);
    }
  }

  lemma RowsFilled(c: Definitions, table: Str, columns: seq<Column>, placed: seq<seq<Value>>, now: u64)
    requires FullArity(columns, placed)
    ensures AllFilled(FillRows(c, table, columns, placed, now).rows, placed, SequenceOf(c, table), columns, now)
  {
    var rows := FillRows(c, table, columns, placed, now).rows;
    forall i | 0 <= i < |rows|
      ensures rows[i].id == 0 && IsFilled(rows[i].values, placed[i], SequenceOf(c, table) + AutoTotal(columns, placed, i), columns, now)
    {
      assert rows[i] in rows;
      FilledRowCells(c, table, columns, placed, now, i);
    }
  }

  lemma RowsStored(s: Store, table: Str, rows: seq<Row>)
    requires WfStore(s) && forall r :: r in rows ==> r.id == 0
    ensures RowsAdded(s, StoreRows(s, table, rows), table, rows)
  {
    FreshRows(TableOf(s, table), NextOf(s, table), rows);
  }

  lemma RowsStayAdded(s: Store, stored: Store, s': Store, table: Str, rows: seq<Row>)
    requires RowsAdded(s, stored, table, rows) && SameRowsAndCounters(stored, s')
    ensures RowsAdded(s, s', table, rows)
  {
  }

  lemma SequencesMove(c: Definitions, table: Str, columns: seq<Column>, placed: seq<seq<Value>>, now: u64)
    requires FullArity(columns, placed)
    ensures var f, used := FillRows(c, table, columns, placed, now), AutoTotal(columns, placed, |placed|);
            && SequenceOf(f.defs, table) == SequenceOf(c, table) + used
            && f.last == (if used == 0 then 0 else SequenceOf(c, table) + used - 1)
            && forall u :: !SameName(u, table) ==> SequenceOf(f.defs, u) == SequenceOf(c, u)
  {
    SequenceAfter(c, table, columns, placed, now);
    LastNumber(c, table, columns, placed, now);
    forall u: Str | !SameName(u, table)
      ensures SequenceOf(FillRows(c, table, columns, placed, now).defs, u) == SequenceOf(c, u)
    {
      OtherSequencesStay(c, table, columns, placed, now, u);
    }
  }

  lemma TogetherInserted(e: Engine, table: Str, columns: seq<Column>, placed: seq<seq<Value>>, now: u64, rows: seq<Row>,
      last: nat, o: Outcome)
    requires FullArity(columns, placed) && AllFilled(rows, placed, SequenceOf(e.defs, table), columns, now)
    requires RowsAdded(e.store, o.engine.store, table, rows) && o.engine.log == e.log + [InsertRows(table, rows)]
    requires o.engine.defs.databases == e.defs.databases && o.result == Ok(Affected(|placed|, last))
    requires var used := AutoTotal(columns, placed, |placed|);
             && SequenceOf(o.engine.defs, table) == SequenceOf(e.defs, table) + used
             && last == if used == 0 then 0 else SequenceOf(e.defs, table) + used - 1
    requires forall u :: !SameName(u, table) ==> SequenceOf(o.engine.defs, u) == SequenceOf(e.defs, u)
    ensures RowsInserted(e, table, columns, placed, now, rows, o)
  {
  }

  lemma FilledRowsInserted(e: Engine, table: Str, columns: seq<Column>, placed: seq<seq<Value>>, now: u64,
      f: FilledRows,
      o: Outcome)
    requires WfStore(e.store) && FullArity(columns, placed) && f == FillRows(e.defs, table, columns, placed, now)
    requires SameRowsAndCounters(StoreRows(e.store, table, f.rows), o.engine.store)
    requires o.engine.defs == f.defs && o.engine.log == e.log + [InsertRows(table, f.rows)]
    requires o.result == Ok(Affected(|placed|, f.last))
    ensures RowsInserted(e, table, columns, placed, now, f.rows, o)
  {
    RowsFilled(e.defs, table, columns, placed, now);
    RowsStored(e.store, table, f.rows);
    RowsStayAdded(e.store, StoreRows(e.store, table, f.rows), o.engine.store, table, f.rows);
    SequencesMove(e.defs, table, columns, placed, now);
    TogetherInserted(e, table, columns, placed, now, f.rows, f.last, o);
  }

  lemma PlacedRowsInserted(e: Engine, db: Str, table: Str, names: seq<Str>, source: Source, now: u64)
    requires WfStore(e.store) && GetTable(e.defs, db, table).Ok? && source.Rows?
    requires var mapped := MapRows(GetTable(e.defs, db, table).value.columns, names, source.rows);
             mapped.Some? && FullArity(GetTable(e.defs, db, table).value.columns, mapped.value)
    ensures var columns := GetTable(e.defs, db, table).value.columns;
            var placed := MapRows(columns, names, source.rows).value;
            RowsInserted(e, table, columns, placed, now, FillRows(e.defs, table, columns, placed, now).rows,
                         ExecInsert(e, db, table, names, source, now))
  {
    var columns := GetTable(e.defs, db, table).value.columns;
    RowsPlaced(columns, names, source.rows);
    var placed := MapRows(columns, names, source.rows).value;
    FilledRowsInserted(e, table, columns, placed, now, FillRows(e.defs, table, columns, placed, now),
                       ExecInsert(e, db, table, names, source, now));
  }

  /**
    * INSERT puts the given values under the named columns, fills the NULLs, stores the rows under the next ids in order
    * and answers their number and the last sequence number drawn.
    */
  lemma InsertEffect(e: Engine, db: Str, table: Str, names: seq<Str>, source: Source, now: u64)
    requires WfStore(e.store)
    ensures Inserts(e, db, table, names, source, now, ExecInsert(e, db, table, names, source, now))
  {
    if GetTable(e.defs, db, table).Ok? && source.Rows? {
      var columns := GetTable(e.defs, db, table).value.columns;
      RowsPlaced(columns, names, source.rows);
      UnnamedRowsStay(columns, source.rows);
      var mapped := MapRows(columns, names, source.rows);
      if mapped.Some? && FullArity(columns, mapped.value) {
        PlacedRowsInserted(e, db, table, names, source, now);
      }
    }
  }

  lemma UnnamedRowsStay(columns: seq<Column>, given: seq<seq<Value>>)
    ensures MapRows(columns, [], given) == Some(given)
  {
    RowsPlaced(columns, [], given);
    assert MapRows(columns, [], given).Some?;
    assert MapRows(columns, [], given).value == given;
  }
}
